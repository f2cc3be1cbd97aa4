/** The in-memory `RateLimiter` of App/backend/security.py: per client address,
    the list of admission times inside the trailing window, purged lazily when
    that address is checked again; and the `rate_limit` decorator, which always
    consults the one global limiter. Times are whole seconds (`int(time.time())`)
    passed in by the caller. */
module RateLimiting {
  import opened Common

  /** `self.max_requests` and `self.window_size`, fixed in `__init__`. */
  const MaxRequests: nat := 100
  const WindowSize: int := 60

  /** `[t for t in ts if t > window_start]`: the times after the window start,
      in their original order. */
  function Recent(ts: seq<int>, windowStart: int): (r: seq<int>)
    ensures |r| <= |ts|
    ensures forall i :: 0 <= i < |r| ==> r[i] > windowStart
    ensures forall t :: t in r <==> t in ts && t > windowStart
  {
    if ts == [] then []
    else
      var init := ts[..|ts| - 1];
      var last := ts[|ts| - 1];
      assert ts == init + [last];
      Recent(init, windowStart) + (if last > windowStart then [last] else [])
  }

  lemma {:induction false} RecentAppend(a: seq<int>, b: seq<int>, x: int)
    ensures Recent(a + b, x) == Recent(a, x) + Recent(b, x)
  {
    if b == [] {
      assert a + b == a;
    } else {
      var init := b[..|b| - 1];
      assert (a + b)[..|a + b| - 1] == a + init;
      assert (a + b)[|a + b| - 1] == b[|b| - 1];
      RecentAppend(a, init, x);
    }
  }

  /** Purging at a later window start after an earlier one is purging once. */
  lemma {:induction false} RecentTwice(s: seq<int>, a: int, b: int)
    requires a <= b
    ensures Recent(Recent(s, a), b) == Recent(s, b)
  {
    if s != [] {
      var init := s[..|s| - 1];
      var last := s[|s| - 1];
      RecentTwice(init, a, b);
      var tail := if last > a then [last] else [];
      RecentAppend(Recent(init, a), tail, b);
    }
  }

  /** Nothing is purged when every time is after the window start. */
  lemma {:induction false} RecentKeepsAll(s: seq<int>, x: int)
    requires forall i :: 0 <= i < |s| ==> s[i] > x
    ensures Recent(s, x) == s
  {
    if s != [] {
      RecentKeepsAll(s[..|s| - 1], x);
    }
  }

  predicate Sorted(s: seq<int>)
  {
    forall i, j :: 0 <= i <= j < |s| ==> s[i] <= s[j]
  }

  /** Any two admissions `MaxRequests` or more places apart in the log are at
      least a window length apart in time. */
  ghost predicate Spaced(s: seq<int>)
  {
    forall i, j :: 0 <= i < j < |s| && j - i >= MaxRequests ==> s[j] - s[i] >= WindowSize
  }

  /** If fewer than `MaxRequests` of a sorted log survive a purge, the entry
      `MaxRequests` places from the end was purged. */
  lemma FullLogWasPurged(s: seq<int>, x: int)
    requires Sorted(s) && |s| >= MaxRequests && |Recent(s, x)| < MaxRequests
    ensures s[|s| - MaxRequests] <= x
  {
    var k := |s| - MaxRequests;
    if s[k] > x {
      var t := s[k..];
      forall i | 0 <= i < |t| ensures t[i] > x {
        assert t[i] == s[k + i];
        assert s[k] <= s[k + i];
      }
      RecentKeepsAll(t, x);
      assert s == s[..k] + t;
      RecentAppend(s[..k], t, x);
      assert false;
    }
  }

  /** Number of times `t` in `s` with `end - WindowSize < t <= end`: the
      requests of a half-open window of one window length ending at `end`. */
  function InWindow(s: seq<int>, end: int): nat
  {
    if s == [] then 0
    else
      var last := s[|s| - 1];
      InWindow(s[..|s| - 1], end) + (if end - WindowSize < last <= end then 1 else 0)
  }

  /** A window holding `k` entries holds two of them `k - 1` places apart. */
  lemma {:induction false} WindowWitness(s: seq<int>, end: int, k: nat) returns (i: nat, j: nat)
    requires 1 <= k <= InWindow(s, end)
    ensures i <= j < |s| && j - i >= k - 1
    ensures end - WindowSize < s[i] <= end && end - WindowSize < s[j] <= end
  {
    var init := s[..|s| - 1];
    var last := s[|s| - 1];
    if end - WindowSize < last <= end {
      if k == 1 {
        i, j := |s| - 1, |s| - 1;
      } else {
        i, j := WindowWitness(init, end, k - 1);
        j := |s| - 1;
      }
    } else {
      i, j := WindowWitness(init, end, k);
    }
  }

  /** A spaced log has at most `MaxRequests` entries in any window. */
  lemma AtMostMaxPerWindow(s: seq<int>, end: int)
    requires Spaced(s)
    ensures InWindow(s, end) <= MaxRequests
  {
    if InWindow(s, end) > MaxRequests {
      var i, j := WindowWitness(s, end, MaxRequests + 1);
    }
  }

  /** How the stored list of one address relates to the log of every time it
      was admitted, when the address was last checked at `last`: the log is
      sorted and spaced, and the stored list is the log purged at `last`. */
  ghost predicate Tracks(kept: seq<int>, admitted: seq<int>, last: int)
  {
    && Sorted(admitted)
    && Spaced(admitted)
    && (forall i :: 0 <= i < |admitted| ==> admitted[i] <= last)
    && kept == Recent(admitted, last - WindowSize)
  }

  /** One check of an address at a time no earlier than its last check keeps
      the tracking relation, whether it admits or rejects. */
  lemma CheckKeepsTracking(kept: seq<int>, admitted: seq<int>, last: int, now: int)
    requires Tracks(kept, admitted, last) && last <= now
    ensures Tracks(Recent(kept, now - WindowSize), admitted, now)
    ensures |Recent(kept, now - WindowSize)| < MaxRequests ==>
              Tracks(Recent(kept, now - WindowSize) + [now], admitted + [now], now)
  {
    var start := now - WindowSize;
    RecentTwice(admitted, last - WindowSize, start);
    var r := Recent(kept, start);
    assert r == Recent(admitted, start);
    if |r| < MaxRequests {
      var a := admitted + [now];
      var n := |admitted|;
      if n >= MaxRequests {
        FullLogWasPurged(admitted, start);
      }
      forall i, j | 0 <= i < j < |a| && j - i >= MaxRequests ensures a[j] - a[i] >= WindowSize {
        if j == n {
          assert admitted[i] <= admitted[n - MaxRequests];
        }
      }
      RecentAppend(admitted, [now], start);
    }
  }

  /** What `is_allowed` keeps of an address's list when checked at `now`:
      its purged list, or an empty one for an address seen for the first time. */
  function Kept(requests: map<string, seq<int>>, ip: string, now: int): (kept: seq<int>)
    ensures ip in requests ==> |kept| <= |requests[ip]|
    ensures forall i :: 0 <= i < |kept| ==> kept[i] > now - WindowSize
  {
    if ip in requests then Recent(requests[ip], now - WindowSize) else []
  }

  /** The state invariant of a `RateLimiter`, over its real and ghost fields:
      the same addresses everywhere, no list above `MaxRequests`, and while the
      clock has never gone backwards, each stored list tracks its address's
      admission log. */
  ghost predicate Consistent(requests: map<string, seq<int>>, admitted: map<string, seq<int>>,
                             lastCheck: map<string, int>, clock: Option<int>, monotone: bool)
  {
    && requests.Keys == admitted.Keys == lastCheck.Keys
    && (forall ip :: ip in requests ==> |requests[ip]| <= MaxRequests)
    && (requests != map[] ==> clock.Some?)
    && (monotone ==> forall ip :: ip in requests ==>
          && lastCheck[ip] <= clock.value
          && Tracks(requests[ip], admitted[ip], lastCheck[ip]))
  }

  /** One call of `is_allowed` keeps the invariant, whether it admits or not. */
  lemma CheckKeepsConsistent(requests: map<string, seq<int>>, admitted: map<string, seq<int>>,
                             lastCheck: map<string, int>, clock: Option<int>, monotone: bool,
                             ip: string, now: int)
    requires Consistent(requests, admitted, lastCheck, clock, monotone)
    ensures var kept := Kept(requests, ip, now);
            var allowed := |kept| < MaxRequests;
            var log := if ip in admitted then admitted[ip] else [];
            Consistent(requests[ip := if allowed then kept + [now] else kept],
                       admitted[ip := if allowed then log + [now] else log],
                       lastCheck[ip := now], Some(now),
                       monotone && (clock.None? || clock.value <= now))
  {
    var kept := Kept(requests, ip, now);
    var allowed := |kept| < MaxRequests;
    var log := if ip in admitted then admitted[ip] else [];
    var requests' := requests[ip := if allowed then kept + [now] else kept];
    var admitted' := admitted[ip := if allowed then log + [now] else log];
    var lastCheck' := lastCheck[ip := now];
    var monotone' := monotone && (clock.None? || clock.value <= now);
    assert requests'.Keys == admitted'.Keys == lastCheck'.Keys == requests.Keys + {ip};
    if monotone' {
      forall q | q in requests'
        ensures lastCheck'[q] <= now && Tracks(requests'[q], admitted'[q], lastCheck'[q])
      {
        if q == ip {
          if ip in requests {
            CheckKeepsTracking(requests[ip], log, lastCheck[ip], now);
          } else {
            CheckKeepsTracking([], [], now, now);
          }
        } else {
          assert requests'[q] == requests[q] && admitted'[q] == admitted[q] && lastCheck'[q] == lastCheck[q];
        }
      }
    }
  }

  class RateLimiter {
    /** `self.requests`: address to the times admitted inside its window as of
        its last check. */
    var requests: map<string, seq<int>>

    /** Every time each address was admitted, oldest first. */
    ghost var admitted: map<string, seq<int>>
    /** The time of each address's latest check. */
    ghost var lastCheck: map<string, int>
    /** The time of the latest check of any address. */
    ghost var clock: Option<int>
    /** No check so far was given an earlier time than the one before it. */
    ghost var monotone: bool

    ghost predicate Valid()
      reads this
    {
      Consistent(requests, admitted, lastCheck, clock, monotone)
    }

    constructor ()
      ensures Valid() && requests == map[] && admitted == map[] && monotone
    {
      requests := map[];
      admitted := map[];
      lastCheck := map[];
      clock := None;
      monotone := true;
    }

    /** `is_allowed(ip)` at time `now`: purge the address's list, reject
        without recording if `MaxRequests` remain, else record `now`. Only the
        entry of `ip` changes. */
    method IsAllowed(ip: string, now: int) returns (allowed: bool)
      requires Valid()
      modifies this
      ensures Valid()
      ensures var kept := Kept(old(requests), ip, now);
              && (allowed <==> |kept| < MaxRequests)
              && requests == old(requests)[ip := if allowed then kept + [now] else kept]
      ensures var log := if ip in old(admitted) then old(admitted)[ip] else [];
              admitted == old(admitted)[ip := if allowed then log + [now] else log]
      ensures monotone == (old(monotone) && (old(clock).None? || old(clock).value <= now))
    {
      CheckKeepsConsistent(requests, admitted, lastCheck, clock, monotone, ip, now);
      var windowStart := now - WindowSize;
      var kept: seq<int> := [];
      if ip in requests {
        kept := Recent(requests[ip], windowStart);
      }
      ghost var log := if ip in admitted then admitted[ip] else [];
      if |kept| >= MaxRequests {
        requests := requests[ip := kept];
        allowed := false;
      } else {
        requests := requests[ip := kept + [now]];
        allowed := true;
        log := log + [now];
      }
      admitted := admitted[ip := log];
      monotone := monotone && (clock.None? || clock.value <= now);
      lastCheck := lastCheck[ip := now];
      clock := Some(now);
    }

    /** As long as the times given to `IsAllowed` never went backwards, no
        address was admitted more than `MaxRequests` times inside any window
        `(end - WindowSize, end]`. */
    lemma AdmissionsPerWindow(ip: string, end: int)
      requires Valid() && monotone && ip in admitted
      ensures InWindow(admitted[ip], end) <= MaxRequests
    {
      AtMostMaxPerWindow(admitted[ip], end);
    }
  }

  /** What a route decorated with `rate_limit(max_requests, window)` does: it
      asks the global limiter, whatever limits the route declares. */
  datatype Admission = Admitted | TooManyRequests

  method RateLimit(limiter: RateLimiter, ip: string, now: int, declaredMax: int, declaredWindow: int)
    returns (r: Admission)
    requires limiter.Valid()
    modifies limiter
    ensures limiter.Valid()
    ensures var kept := Kept(old(limiter.requests), ip, now);
            && (r == Admitted <==> |kept| < MaxRequests)
            && limiter.requests == old(limiter.requests)[ip := if r == Admitted then kept + [now] else kept]
  {
    var ok := limiter.IsAllowed(ip, now);
    r := if ok then Admitted else TooManyRequests;
  }
}
