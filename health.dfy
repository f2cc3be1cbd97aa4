/** The health monitor of App/backend/health.py: a request tally with a
    running mean response time, a status classification from host load and
    the success rate, a bounded history of reports with a summary of the
    latest ten, and the uptime text. Host readings and elapsed time are
    parameters; a failed host reading is `None`. */
module Health {
  import opened Common
  import opened Text

  // ---------------------------------------------------------------------
  // Request tally

  /** `self.metrics` without `last_check`, which nothing ever sets. */
  datatype RequestTally = RequestTally(requestsTotal: nat, requestsSuccessful: nat, requestsFailed: nat,
                                       averageResponseTime: real)

  /** The dictionary built by `__init__` and by `reset_metrics`. */
  const InitialTally: RequestTally := RequestTally(0, 0, 0, 0.0)

  /** Every request is counted once, as a success or as a failure. */
  predicate Balanced(t: RequestTally)
  {
    t.requestsTotal == t.requestsSuccessful + t.requestsFailed
  }

  /** The tally after `record_request(success, response_time)`: the total
      and exactly one of the two outcome counters go up by one, and the
      average is updated incrementally with the new total. */
  function Recorded(t: RequestTally, success: bool, responseTime: real): (r: RequestTally)
    ensures r.requestsTotal == t.requestsTotal + 1
    ensures r.requestsSuccessful == t.requestsSuccessful + (if success then 1 else 0)
    ensures r.requestsFailed == t.requestsFailed + (if success then 0 else 1)
    ensures Balanced(t) ==> Balanced(r)
  {
    var total := t.requestsTotal + 1;
    RequestTally(total,
                 if success then t.requestsSuccessful + 1 else t.requestsSuccessful,
                 if success then t.requestsFailed else t.requestsFailed + 1,
                 MeanUpdate(t.averageResponseTime, t.requestsTotal, responseTime))
  }

  /** The incremental average: `(avg * (n_new - 1) + x) / n_new` for the
      new count `n_new = n + 1`. */
  function MeanUpdate(avg: real, n: nat, x: real): real
  {
    (avg * (n as real) + x) / ((n + 1) as real)
  }

  /** The tally after recording each request in turn, from a fresh tally. */
  function RecordedAll(outcomes: seq<bool>, times: seq<real>): RequestTally
    requires |outcomes| == |times|
  {
    if times == [] then InitialTally
    else Recorded(RecordedAll(outcomes[..|outcomes| - 1], times[..|times| - 1]),
                  outcomes[|outcomes| - 1], times[|times| - 1])
  }

  /** Number of `true` entries. */
  function Successes(outcomes: seq<bool>): nat
  {
    if outcomes == [] then 0
    else Successes(outcomes[..|outcomes| - 1]) + (if outcomes[|outcomes| - 1] then 1 else 0)
  }

  /** Arithmetic mean, 0 for no values. */
  function Mean(xs: seq<real>): real
  {
    if xs == [] then 0.0 else Sum(xs) / (|xs| as real)
  }

  /** One incremental-mean step: from the mean of `xs`, the update with the
      new count gives the mean of `xs + [x]`. */
  lemma MeanStep(xs: seq<real>, x: real)
    ensures MeanUpdate(Mean(xs), |xs|, x) == Mean(xs + [x])
  {
    var ys := xs + [x];
    assert ys[..|ys| - 1] == xs;
    assert Sum(ys) == Sum(xs) + x;
    if xs != [] {
      var n := |xs| as real;
      assert Mean(xs) * n == Sum(xs);
    }
  }

  /** After any sequence of `record_request` calls from a fresh tally, the
      total is the number of calls, the successes are counted exactly, the
      tally balances and the average is the mean of all response times. */
  lemma {:induction false} RunningMean(outcomes: seq<bool>, times: seq<real>)
    requires |outcomes| == |times|
    ensures var t := RecordedAll(outcomes, times);
            && t.requestsTotal == |times|
            && t.requestsSuccessful == Successes(outcomes)
            && Balanced(t)
            && t.averageResponseTime == Mean(times)
  {
    if times != [] {
      var o, ts, x := outcomes[..|outcomes| - 1], times[..|times| - 1], times[|times| - 1];
      RunningMean(o, ts);
      var prev := RecordedAll(o, ts);
      assert RecordedAll(outcomes, times) == Recorded(prev, outcomes[|outcomes| - 1], x);
      MeanStep(ts, x);
      assert ts + [x] == times;
    }
  }

  /** `_calculate_success_rate()`: 1.0 with no requests, otherwise the share
      of successful ones, which lies in [0, 1] for a balanced tally. */
  function SuccessRate(t: RequestTally): (r: real)
    ensures t.requestsTotal == 0 ==> r == 1.0
    ensures t.requestsTotal > 0 ==> r * (t.requestsTotal as real) == t.requestsSuccessful as real
    ensures Balanced(t) ==> 0.0 <= r <= 1.0
  {
    if t.requestsTotal == 0 then 1.0
    else
      var r := (t.requestsSuccessful as real) / (t.requestsTotal as real);
      RateBounds(t.requestsSuccessful, t.requestsTotal);
      r
  }

  lemma RateBounds(s: nat, n: nat)
    requires n > 0
    ensures (s as real) / (n as real) * (n as real) == s as real
    ensures s <= n ==> 0.0 <= (s as real) / (n as real) <= 1.0
  {
  }

  // ---------------------------------------------------------------------
  // Status classification

  datatype Status = Healthy | Degraded | Unhealthy | Error

  /** How bad a status is, in the order the classification escalates. */
  function Severity(s: Status): nat
  {
    match s
    case Healthy => 0
    case Degraded => 1
    case Unhealthy => 2
    case Error => 3
  }

  /** The three psutil percentages, the host input to a health check. */
  datatype HostSample = HostSample(cpuPercent: real, memoryPercent: real, diskPercent: real)

  predicate AnyAbove(h: HostSample, limit: real)
  {
    h.cpuPercent > limit || h.memoryPercent > limit || h.diskPercent > limit
  }

  /** The status decision of `get_system_health`: start healthy, mark
      degraded on a load above 90 or a success rate below 0.95, then mark
      unhealthy on a load above 95 or a rate below 0.90, the second test
      overriding the first. */
  function Classify(h: HostSample, rate: real): (s: Status)
    ensures s == Unhealthy <==> AnyAbove(h, 95.0) || rate < 0.90
    ensures s == Degraded <==> !(AnyAbove(h, 95.0) || rate < 0.90) && (AnyAbove(h, 90.0) || rate < 0.95)
    ensures s == Healthy <==> !AnyAbove(h, 90.0) && rate >= 0.95
  {
    var status := if AnyAbove(h, 90.0) || rate < 0.95 then Degraded else Healthy;
    if AnyAbove(h, 95.0) || rate < 0.90 then Unhealthy else status
  }

  /** More load or a lower success rate never gives a better status. */
  lemma ClassifyMonotone(h: HostSample, g: HostSample, rate: real, worse: real)
    requires h.cpuPercent <= g.cpuPercent && h.memoryPercent <= g.memoryPercent && h.diskPercent <= g.diskPercent
    requires worse <= rate
    ensures Severity(Classify(h, rate)) <= Severity(Classify(g, worse))
  {
    if AnyAbove(h, 95.0) { assert AnyAbove(g, 95.0); }
    if AnyAbove(h, 90.0) { assert AnyAbove(g, 90.0); }
  }

  /** A 0.85 success rate is below both thresholds, so it is unhealthy even
      on an idle host; 0.92 on an idle host is degraded; a full disk is
      unhealthy even with every request successful. */
  lemma ClassifyExamples()
    ensures Classify(HostSample(10.0, 20.0, 30.0), 0.85) == Unhealthy
    ensures Classify(HostSample(10.0, 20.0, 30.0), 0.5) == Unhealthy
    ensures Classify(HostSample(10.0, 20.0, 30.0), 0.92) == Degraded
    ensures Classify(HostSample(10.0, 20.0, 30.0), 1.0) == Healthy
    ensures Classify(HostSample(10.0, 20.0, 99.0), 1.0) == Unhealthy
    ensures Classify(HostSample(93.0, 20.0, 30.0), 1.0) == Degraded
  {
  }

  // ---------------------------------------------------------------------
  // Uptime

  datatype Duration = Duration(days: nat, hours: nat, minutes: nat, seconds: nat)

  /** `timedelta(seconds=s)` split with `divmod` into days, hours, minutes
      and seconds. */
  function UptimeParts(s: nat): (d: Duration)
    ensures d.hours < 24 && d.minutes < 60 && d.seconds < 60
    ensures d.days * 86400 + d.hours * 3600 + d.minutes * 60 + d.seconds == s
  {
    var days := s / 86400;
    var rest := s % 86400;
    var hours, remainder := rest / 3600, rest % 3600;
    var minutes, seconds := remainder / 60, remainder % 60;
    Duration(days, hours, minutes, seconds)
  }

  /** The split is the only one with hours below 24 and minutes and seconds
      below 60. */
  lemma UptimePartsUnique(d: Duration)
    requires d.hours < 24 && d.minutes < 60 && d.seconds < 60
    ensures UptimeParts(d.days * 86400 + d.hours * 3600 + d.minutes * 60 + d.seconds) == d
  {
    var m := d.minutes * 60 + d.seconds;
    var r := d.hours * 3600 + m;
    var s := d.days * 86400 + r;
    assert s / 86400 == d.days && s % 86400 == r;
    assert r / 3600 == d.hours && r % 3600 == m;
    assert m / 60 == d.minutes && m % 60 == d.seconds;
  }

  /** `_get_uptime()` for `s` whole elapsed seconds: days, hours and minutes
      when there is at least a day, hours and minutes when there is at least
      an hour, otherwise minutes and seconds. */
  function FormatUptime(s: nat): (r: string)
    ensures r != []
    ensures s < 3600 <==> r[|r| - 1] == 's'
    ensures s >= 86400 <==> 'd' in r
    ensures s >= 86400 ==>
              exists days: nat, hours: nat, minutes: nat ::
                && r == Decimal(days) + "d " + Decimal(hours) + "h " + Decimal(minutes) + "m"
                && 0 < days && hours < 24 && minutes < 60
                && days * 86400 + hours * 3600 + minutes * 60 <= s < days * 86400 + hours * 3600 + minutes * 60 + 60
    ensures 3600 <= s < 86400 ==>
              exists hours: nat, minutes: nat ::
                && r == Decimal(hours) + "h " + Decimal(minutes) + "m"
                && 0 < hours < 24 && minutes < 60
                && hours * 3600 + minutes * 60 <= s < hours * 3600 + minutes * 60 + 60
    ensures s < 3600 ==>
              exists minutes: nat, seconds: nat ::
                && r == Decimal(minutes) + "m " + Decimal(seconds) + "s"
                && minutes < 60 && seconds < 60 && minutes * 60 + seconds == s
  {
    var d := UptimeParts(s);
    var within := d.hours * 3600 + d.minutes * 60 + d.seconds;
    assert within < 86400 && d.minutes * 60 + d.seconds < 3600;
    assert s == d.days * 86400 + within;
    if d.days > 0 then
      var r := Decimal(d.days) + "d " + Decimal(d.hours) + "h " + Decimal(d.minutes) + "m";
      assert r[|Decimal(d.days)|] == 'd';
      r
    else if d.hours > 0 then
      var r := Decimal(d.hours) + "h " + Decimal(d.minutes) + "m";
      NoLetterD(Decimal(d.hours), Decimal(d.minutes), "h ", "m");
      r
    else
      var r := Decimal(d.minutes) + "m " + Decimal(d.seconds) + "s";
      NoLetterD(Decimal(d.minutes), Decimal(d.seconds), "m ", "s");
      r
  }

  /** Two numbers with their unit letters contain no `d`. */
  lemma NoLetterD(a: string, b: string, u: string, v: string)
    requires forall i :: 0 <= i < |a| ==> IsDigit(a[i])
    requires forall i :: 0 <= i < |b| ==> IsDigit(b[i])
    requires 'd' !in u && 'd' !in v
    ensures 'd' !in a + u + b + v
  {
    var w := a + u + b + v;
    forall i | 0 <= i < |w| ensures w[i] != 'd' {
      if i < |a| {
        assert w[i] == a[i];
      } else if i < |a| + |u| {
        assert w[i] == u[i - |a|];
      } else if i < |a| + |u| + |b| {
        assert w[i] == b[i - |a| - |u|];
      } else {
        assert w[i] == v[i - |a| - |u| - |b|];
      }
    }
  }

  /** A day, an hour, a minute and a second. */
  lemma UptimeWithDays()
    ensures FormatUptime(90061) == "1d 1h 1m"
  {
    assert UptimeParts(90061) == Duration(1, 1, 1, 1);
  }

  /** An hour, a minute and a second. */
  lemma UptimeWithHours()
    ensures FormatUptime(3661) == "1h 1m"
  {
    assert UptimeParts(3661) == Duration(0, 1, 1, 1);
  }

  /** Under a minute. */
  lemma UptimeWithSeconds()
    ensures FormatUptime(59) == "0m 59s"
  {
    assert UptimeParts(59) == Duration(0, 0, 0, 59);
    assert Decimal(59) == "59";
  }

  // ---------------------------------------------------------------------
  // Reports and their history

  /** A health status dictionary: either a full report (status, uptime, the
      host readings, a copy of the request tally and the success rate), or
      the `error` report that a failed host reading produces. */
  datatype HealthReport =
    | Report(status: Status, uptime: string, host: HostSample, application: RequestTally, successRate: real)
    | FailedCheck(uptime: string)

  /** `check.get('status')` */
  function StatusOf(r: HealthReport): Status
  {
    match r
    case Report(s, _, _, _, _) => s
    case FailedCheck(_) => Error
  }

  const MaxHistorySize: nat := 100
  const RecentChecks: nat := 10

  /** The last `min(k, |xs|)` elements of `xs`, as `xs[-k:]` gives them. */
  function Last<T>(xs: seq<T>, k: nat): (r: seq<T>)
    ensures |r| == if |xs| < k then |xs| else k
    ensures r == xs[|xs| - |r|..]
  {
    if |xs| < k then xs else xs[|xs| - k..]
  }

  /** What `_store_health_history` leaves: the report appended last and,
      when that makes more than 100, the oldest entry dropped. */
  function Pushed(h: seq<HealthReport>, report: HealthReport): (r: seq<HealthReport>)
    ensures r != [] && r[|r| - 1] == report
    ensures |h| <= MaxHistorySize ==> r == Last(h + [report], MaxHistorySize)
  {
    var appended := h + [report];
    if |appended| > MaxHistorySize then appended[1..] else appended
  }

  /** The history after storing each report in turn. */
  function PushedAll(h: seq<HealthReport>, reports: seq<HealthReport>): seq<HealthReport>
  {
    if reports == [] then h else Pushed(PushedAll(h, reports[..|reports| - 1]), reports[|reports| - 1])
  }

  lemma LastOfLast<T>(xs: seq<T>, y: T, k: nat)
    requires k > 0
    ensures Last(Last(xs, k) + [y], k) == Last(xs + [y], k)
  {
    var l := Last(xs, k);
    assert (l + [y])[|l + [y]| - |Last(l + [y], k)|..] == Last(l + [y], k);
    assert l == xs[|xs| - |l|..];
  }

  /** Over any number of checks the history holds exactly the latest 100
      reports, oldest first: its length is capped and it is not a lifetime
      count. */
  lemma {:induction false} HistoryKeepsLatest(h: seq<HealthReport>, reports: seq<HealthReport>)
    requires |h| <= MaxHistorySize
    ensures PushedAll(h, reports) == Last(h + reports, MaxHistorySize)
  {
    if reports == [] {
      assert h + reports == h;
    } else {
      var init, last := reports[..|reports| - 1], reports[|reports| - 1];
      var prev := PushedAll(h, init);
      calc {
        PushedAll(h, reports);
        Pushed(prev, last);
        { HistoryKeepsLatest(h, init); }
        Pushed(Last(h + init, MaxHistorySize), last);
        Last(Last(h + init, MaxHistorySize) + [last], MaxHistorySize);
        { LastOfLast(h + init, last, MaxHistorySize); }
        Last((h + init) + [last], MaxHistorySize);
        { assert (h + init) + [last] == h + reports; }
        Last(h + reports, MaxHistorySize);
      }
    }
  }

  /** Statuses of the reports, in order. */
  function Statuses(h: seq<HealthReport>): (r: seq<Status>)
    ensures |r| == |h|
    ensures forall i :: 0 <= i < |h| ==> r[i] == StatusOf(h[i])
  {
    if h == [] then [] else Statuses(h[..|h| - 1]) + [StatusOf(h[|h| - 1])]
  }

  lemma StatusesPrefix(h: seq<HealthReport>, i: nat)
    requires i < |h|
    ensures Statuses(h[..i + 1]) == Statuses(h[..i]) + [StatusOf(h[i])]
  {
    assert h[..i + 1][..i] == h[..i];
  }

  /** Number of times `s` occurs. */
  function Occurrences(ss: seq<Status>, s: Status): nat
  {
    if ss == [] then 0 else Occurrences(ss[..|ss| - 1], s) + (if ss[|ss| - 1] == s then 1 else 0)
  }

  /** The per-status counts add up to the length: every status is counted
      under exactly one key. */
  lemma {:induction false} CountsAddUp(ss: seq<Status>)
    ensures Occurrences(ss, Healthy) + Occurrences(ss, Degraded) + Occurrences(ss, Unhealthy)
            + Occurrences(ss, Error) == |ss|
  {
    if ss != [] {
      CountsAddUp(ss[..|ss| - 1]);
    }
  }

  /** `_get_health_summary()` on a non-empty history. */
  datatype HistorySummary = HistorySummary(recentStatusDistribution: map<Status, nat>, totalChecks: nat,
                                           lastStatuses: seq<Status>)

  /** The count a distribution holds for a status, 0 when absent. */
  function CountOf(d: map<Status, nat>, s: Status): nat
  {
    if s in d then d[s] else 0
  }

  /** `d` is the status distribution of `ss`: a status is a key exactly when
      it occurs, and its count is its number of occurrences. */
  ghost predicate Tallies(d: map<Status, nat>, ss: seq<Status>)
  {
    forall s :: (s in d <==> Occurrences(ss, s) > 0) && CountOf(d, s) == Occurrences(ss, s)
  }

  /** Counting one more status keeps the distribution exact. */
  lemma TallyStep(d: map<Status, nat>, ss: seq<Status>, s: Status)
    requires Tallies(d, ss)
    ensures Tallies(d[s := CountOf(d, s) + 1], ss + [s])
  {
    var ts := ss + [s];
    assert ts[..|ts| - 1] == ss;
  }

  /** The counts of a distribution add up to the number of statuses. */
  lemma TalliesTotal(d: map<Status, nat>, ss: seq<Status>)
    requires Tallies(d, ss)
    ensures CountOf(d, Healthy) + CountOf(d, Degraded) + CountOf(d, Unhealthy) + CountOf(d, Error) == |ss|
  {
    CountsAddUp(ss);
  }

  // ---------------------------------------------------------------------
  // The monitor

  class HealthMonitor {
    /** `self.metrics`. */
    var metrics: RequestTally
    /** `self.health_history`, oldest first. */
    var healthHistory: seq<HealthReport>

    /** Outcome and response time of every request since the last reset. */
    ghost var outcomes: seq<bool>
    ghost var responseTimes: seq<real>

    ghost predicate Valid()
      reads this
    {
      && |outcomes| == |responseTimes|
      && metrics == RecordedAll(outcomes, responseTimes)
      && |healthHistory| <= MaxHistorySize
    }

    constructor ()
      ensures Valid() && metrics == InitialTally && healthHistory == [] && responseTimes == []
    {
      metrics := InitialTally;
      healthHistory := [];
      outcomes := [];
      responseTimes := [];
    }

    /** The tally balances and its average is the mean of every response
        time recorded since the last reset. */
    lemma TallyIsMean()
      requires Valid()
      ensures Balanced(metrics)
      ensures metrics.requestsTotal == |responseTimes|
      ensures metrics.averageResponseTime == Mean(responseTimes)
      ensures 0.0 <= SuccessRate(metrics) <= 1.0
    {
      RunningMean(outcomes, responseTimes);
    }

    /** `record_request(success, response_time)`. */
    method RecordRequest(success: bool, responseTime: real)
      requires Valid()
      modifies this
      ensures Valid()
      ensures metrics == Recorded(old(metrics), success, responseTime)
      ensures outcomes == old(outcomes) + [success] && responseTimes == old(responseTimes) + [responseTime]
      ensures healthHistory == old(healthHistory)
    {
      var total := metrics.requestsTotal + 1;
      var successful := metrics.requestsSuccessful;
      var failed := metrics.requestsFailed;
      if success {
        successful := successful + 1;
      } else {
        failed := failed + 1;
      }
      var currentAvg := metrics.averageResponseTime;
      var newAvg := (currentAvg * ((total - 1) as real) + responseTime) / (total as real);
      assert newAvg == MeanUpdate(currentAvg, total - 1, responseTime);
      metrics := RequestTally(total, successful, failed, newAvg);
      outcomes := outcomes + [success];
      responseTimes := responseTimes + [responseTime];
      assert outcomes[..|outcomes| - 1] == old(outcomes);
      assert responseTimes[..|responseTimes| - 1] == old(responseTimes);
    }

    /** `get_metrics()`: a copy of the tally. */
    method GetMetrics() returns (t: RequestTally)
      ensures t == metrics
    {
      t := metrics;
    }

    /** `reset_metrics()`: a fresh tally; the history is kept. */
    method ResetMetrics()
      requires Valid()
      modifies this
      ensures Valid()
      ensures metrics == InitialTally && healthHistory == old(healthHistory)
      ensures outcomes == [] && responseTimes == []
    {
      metrics := InitialTally;
      outcomes := [];
      responseTimes := [];
    }

    /** `_store_health_history(report)`. */
    method StoreHealthHistory(report: HealthReport)
      requires Valid()
      modifies this
      ensures Valid()
      ensures healthHistory == Pushed(old(healthHistory), report)
      ensures metrics == old(metrics) && outcomes == old(outcomes) && responseTimes == old(responseTimes)
    {
      healthHistory := healthHistory + [report];
      if |healthHistory| > MaxHistorySize {
        healthHistory := healthHistory[1..];
      }
    }

    /** `get_system_health()` given the host readings (`None` when reading
        them raised) and the whole seconds since start. A successful reading
        is classified with the current success rate and stored; a failed one
        gives the `error` report and leaves the history alone. */
    method GetSystemHealth(host: Option<HostSample>, elapsed: nat) returns (report: HealthReport)
      requires Valid()
      modifies this
      ensures Valid()
      ensures metrics == old(metrics) && outcomes == old(outcomes) && responseTimes == old(responseTimes)
      ensures host.None? ==> report == FailedCheck(FormatUptime(elapsed)) && healthHistory == old(healthHistory)
      ensures host.Some? ==>
                && report == Report(Classify(host.value, SuccessRate(metrics)), FormatUptime(elapsed),
                                    host.value, metrics, SuccessRate(metrics))
                && healthHistory == Pushed(old(healthHistory), report)
    {
      if host.None? {
        report := FailedCheck(FormatUptime(elapsed));
      } else {
        var rate := SuccessRate(metrics);
        var status := Classify(host.value, rate);
        report := Report(status, FormatUptime(elapsed), host.value, metrics, rate);
        StoreHealthHistory(report);
      }
    }

    /** `_get_health_summary()`: nothing for an empty history; otherwise the
        statuses of the latest ten reports in order, how often each occurs
        among them, and the number of stored reports. */
    method GetHealthSummary() returns (r: Option<HistorySummary>)
      ensures r.None? <==> healthHistory == []
      ensures r.Some? ==>
                && r.value.totalChecks == |healthHistory|
                && r.value.lastStatuses == Statuses(Last(healthHistory, RecentChecks))
                && Tallies(r.value.recentStatusDistribution, r.value.lastStatuses)
                && |r.value.lastStatuses| <= RecentChecks
    {
      if healthHistory == [] {
        return None;
      }
      var recent := Last(healthHistory, RecentChecks);
      var counts: map<Status, nat> := map[];
      for i := 0 to |recent|
        invariant Tallies(counts, Statuses(recent[..i]))
      {
        var status := StatusOf(recent[i]);
        TallyStep(counts, Statuses(recent[..i]), status);
        StatusesPrefix(recent, i);
        counts := counts[status := (if status in counts then counts[status] else 0) + 1];
      }
      assert recent[..|recent|] == recent;
      r := Some(HistorySummary(counts, |healthHistory|, Statuses(recent)));
    }
  }
}
