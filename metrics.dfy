/** The metrics store of App/backend/metrics.py: a dictionary from a metric
    key (name plus sorted labels) to a value and the labels it was created
    with. Counters add, gauges overwrite, histograms count observations into
    eight fixed buckets plus a `_sum` and a `_count` series. Timestamps are
    not modelled. */
module Metrics {
  import opened Common
  import opened Text
  import opened Labels

  /** `MetricValue(value, timestamp, labels)` without the timestamp. */
  datatype MetricValue = MetricValue(value: real, labels: seq<Label>)

  type Store = map<string, MetricValue>

  /** The value stored under `key`, 0 when there is none yet (what a newly
      created entry starts from). */
  function Prior(m: Store, key: string): real
  {
    if key in m then m[key].value else 0.0
  }

  /** Create `key` as `starts` if it is missing, then add `delta` to it. */
  function Bump(m: Store, key: string, starts: MetricValue, delta: real): Store
  {
    var base := if key in m then m[key] else starts;
    m[key := base.(value := base.value + delta)]
  }

  /** The store after `increment_counter(name, labels, delta)`: the entry is
      created with value 0 and the call's labels if missing, then `delta` is
      added. */
  function Incremented(m: Store, name: string, labels: seq<Label>, delta: real): Store
  {
    Bump(m, MetricKey(name, labels), MetricValue(0.0, labels), delta)
  }

  /** The store after `set_gauge(name, value, labels)`. */
  function Gauged(m: Store, name: string, value: real, labels: seq<Label>): Store
  {
    m[MetricKey(name, labels) := MetricValue(value, labels)]
  }

  /** The histogram boundaries and their `str(bucket)` renderings. */
  const Boundaries: seq<real> := [0.1, 0.5, 1.0, 2.0, 5.0, 10.0, 30.0, 60.0]
  const BoundaryText: seq<string> := ["0.1", "0.5", "1.0", "2.0", "5.0", "10.0", "30.0", "60.0"]

  /** `labels.copy()` (or `{}`) with `le` set to the `i`-th boundary. */
  function BucketLabels(labels: seq<Label>, i: nat): seq<Label>
    requires i < |BoundaryText|
  {
    SetLabel(labels, "le", BoundaryText[i])
  }

  function BucketKey(name: string, labels: seq<Label>, i: nat): string
    requires i < |BoundaryText|
  {
    MetricKey(name + "_bucket", BucketLabels(labels, i))
  }

  function SumKey(name: string, labels: seq<Label>): string
  {
    MetricKey(name + "_sum", labels)
  }

  function CountKey(name: string, labels: seq<Label>): string
  {
    MetricKey(name + "_count", labels)
  }

  /** The store after `record_histogram(name, value, labels)`. */
  function Observed(m: Store, name: string, labels: seq<Label>, value: real): Store
  {
    var b := BumpEach(m, BucketKeys(name, labels), FreshBuckets(labels), Hits(value), |Boundaries|);
    Incremented(Incremented(b, name + "_sum", labels, value), name + "_count", labels, 1.0)
  }

  /** `record_histogram` over a sequence of values, in order. */
  function ObservedAll(m: Store, name: string, labels: seq<Label>, values: seq<real>): Store
  {
    if values == [] then m
    else Observed(ObservedAll(m, name, labels, values[..|values| - 1]), name, labels, values[|values| - 1])
  }

  /** `get_metric(name, labels)`. */
  function Lookup(m: Store, name: string, labels: seq<Label>): (r: Option<MetricValue>)
    ensures r.Some? <==> MetricKey(name, labels) in m
    ensures r.Some? ==> r.value == m[MetricKey(name, labels)]
  {
    var key := MetricKey(name, labels);
    if key in m then Some(m[key]) else None
  }

  // ---------------------------------------------------------------------
  // Counters and gauges

  /** A counter increment adds `delta` to the key's previous value (0 when
      new), keeps the labels it was created with, and touches no other key; a
      non-negative increment never lowers the value. */
  lemma IncrementEffect(m: Store, name: string, labels: seq<Label>, delta: real)
    ensures var key := MetricKey(name, labels);
            var r := Incremented(m, name, labels, delta);
            && key in r
            && r[key].value == Prior(m, key) + delta
            && r[key].labels == (if key in m then m[key].labels else labels)
            && (delta >= 0.0 ==> r[key].value >= Prior(m, key))
            && (forall k :: k != key ==> (k in r <==> k in m) && (k in m ==> r[k] == m[k]))
  {
  }

  /** Two increments of the same counter are one increment by the total. */
  lemma IncrementsAdd(m: Store, name: string, labels: seq<Label>, a: real, b: real)
    ensures Incremented(Incremented(m, name, labels, a), name, labels, b) == Incremented(m, name, labels, a + b)
  {
    BumpsAdd(m, MetricKey(name, labels), MetricValue(0.0, labels), a, b);
  }

  lemma BumpsAdd(m: Store, key: string, starts: MetricValue, a: real, b: real)
    ensures Bump(Bump(m, key, starts, a), key, starts, b) == Bump(m, key, starts, a + b)
  {
    var r1 := Bump(Bump(m, key, starts, a), key, starts, b);
    var r2 := Bump(m, key, starts, a + b);
    assert r1[key] == r2[key];
  }

  /** A counter reached through the same labels in another order is the same
      counter. */
  lemma IncrementIgnoresLabelOrder(m: Store, name: string, a: seq<Label>, b: seq<Label>, delta: real)
    requires multiset(a) == multiset(b)
    ensures Incremented(m, name, a, delta).Keys == Incremented(m, name, b, delta).Keys
    ensures Prior(Incremented(m, name, a, delta), MetricKey(name, b)) == Prior(m, MetricKey(name, a)) + delta
  {
    MetricKeyOrderIndependent(name, a, b);
  }

  /** Setting a gauge stores exactly the given value and labels, whatever was
      there, and touches no other key. */
  lemma GaugeEffect(m: Store, name: string, value: real, labels: seq<Label>)
    ensures Lookup(Gauged(m, name, value, labels), name, labels) == Some(MetricValue(value, labels))
    ensures forall k :: k != MetricKey(name, labels) ==>
              (k in Gauged(m, name, value, labels) <==> k in m) &&
              (k in m ==> Gauged(m, name, value, labels)[k] == m[k])
  {
  }

  /** The last write wins. */
  lemma GaugeLastWriteWins(m: Store, name: string, a: real, b: real, labels: seq<Label>)
    ensures Gauged(Gauged(m, name, a, labels), name, b, labels) == Gauged(m, name, b, labels)
  {
  }

  // ---------------------------------------------------------------------
  // Histogram keys

  /** The eight bucket keys of one `record_histogram` call, in boundary order. */
  function BucketKeys(name: string, labels: seq<Label>): (ks: seq<string>)
    ensures |ks| == |Boundaries|
    ensures forall i :: 0 <= i < |ks| ==> ks[i] == BucketKey(name, labels, i)
  {
    seq(|Boundaries|, i requires 0 <= i < |Boundaries| => BucketKey(name, labels, i))
  }

  lemma BoundaryTextsDistinct(i: nat, j: nat)
    requires i < j < |BoundaryText|
    ensures BoundaryText[i] != BoundaryText[j]
  {
    var a, b := BoundaryText[i], BoundaryText[j];
    assert |a| != |b| || a[0] != b[0] || a[2] != b[2] by {
      assert i == 0 || i == 1 || i == 2 || i == 3 || i == 4 || i == 5 || i == 6;
    }
  }

  /** A key repeats its series name character for character. */
  lemma KeyCharAt(series: string, labels: seq<Label>, n: nat)
    requires n < |series|
    ensures MetricKey(series, labels)[n] == series[n]
  {
    var k := MetricKey(series, labels);
    assert k[..|series|][n] == k[n];
  }

  /** The eight bucket keys of one call are pairwise distinct. */
  lemma BucketKeysDistinct(name: string, labels: seq<Label>, i: nat, j: nat)
    requires DistinctNames(labels) && i < |BoundaryText| && j < |BoundaryText| && i != j
    ensures BucketKey(name, labels, i) != BucketKey(name, labels, j)
  {
    if i < j {
      BoundaryTextsDistinct(i, j);
    } else {
      BoundaryTextsDistinct(j, i);
    }
    SetLabelKeysDiffer(name + "_bucket", labels, "le", BoundaryText[i], BoundaryText[j]);
  }

  /** The `_sum`, `_count` and bucket keys of one call are pairwise distinct:
      they already differ right after the name. */
  lemma SeriesKeysDistinct(name: string, labels: seq<Label>)
    ensures SumKey(name, labels) != CountKey(name, labels)
    ensures SumKey(name, labels) !in BucketKeys(name, labels)
    ensures CountKey(name, labels) !in BucketKeys(name, labels)
  {
    var n := |name| + 1;
    assert (name + "_sum")[n] == 's' && (name + "_count")[n] == 'c';
    KeyCharAt(name + "_sum", labels, n);
    KeyCharAt(name + "_count", labels, n);
    forall i | 0 <= i < |Boundaries|
      ensures SumKey(name, labels) != BucketKey(name, labels, i)
      ensures CountKey(name, labels) != BucketKey(name, labels, i)
    {
      assert (name + "_bucket")[n] == 'b';
      KeyCharAt(name + "_bucket", BucketLabels(labels, i), n);
    }
  }

  // ---------------------------------------------------------------------
  // Histogram observations

  predicate AllDistinct(ks: seq<string>)
  {
    forall i, j :: 0 <= i < j < |ks| ==> ks[i] != ks[j]
  }

  /** A bump leaves every other key alone. */
  lemma BumpOther(m: Store, key: string, starts: MetricValue, delta: real, k: string)
    requires k != key
    ensures var r := Bump(m, key, starts, delta);
            (k in r <==> k in m) && (k in m ==> r[k] == m[k]) && Prior(r, k) == Prior(m, k)
  {
  }

  /** A bump raises its own key by `delta`. */
  lemma BumpSelf(m: Store, key: string, starts: MetricValue, delta: real)
    requires starts.value == 0.0
    ensures var r := Bump(m, key, starts, delta);
            key in r && Prior(r, key) == Prior(m, key) + delta
  {
  }

  /** `Bump` applied to the first `n` keys, in order. */
  function BumpEach(m: Store, ks: seq<string>, starts: seq<MetricValue>, deltas: seq<real>, n: nat): Store
    requires n <= |ks| && |starts| == |ks| && |deltas| == |ks|
  {
    if n == 0 then m else Bump(BumpEach(m, ks, starts, deltas, n - 1), ks[n - 1], starts[n - 1], deltas[n - 1])
  }

  /** Bumping distinct keys one after another raises each by its own delta
      and leaves every other key alone. */
  lemma {:induction false} BumpEachEffect(m: Store, ks: seq<string>, starts: seq<MetricValue>, deltas: seq<real>, n: nat)
    requires n <= |ks| && |starts| == |ks| && |deltas| == |ks| && AllDistinct(ks)
    requires forall i :: 0 <= i < |starts| ==> starts[i].value == 0.0
    ensures var r := BumpEach(m, ks, starts, deltas, n);
            && (forall i :: 0 <= i < n ==> ks[i] in r && Prior(r, ks[i]) == Prior(m, ks[i]) + deltas[i])
            && (forall k :: k !in ks[..n] ==> (k in r <==> k in m) && (k in m ==> r[k] == m[k]))
  {
    if n > 0 {
      BumpEachEffect(m, ks, starts, deltas, n - 1);
      var prev := BumpEach(m, ks, starts, deltas, n - 1);
      var r := BumpEach(m, ks, starts, deltas, n);
      assert r == Bump(prev, ks[n - 1], starts[n - 1], deltas[n - 1]);
      assert ks[n - 1] !in ks[..n - 1];
      assert Prior(prev, ks[n - 1]) == Prior(m, ks[n - 1]);
      forall i | 0 <= i < n ensures ks[i] in r && Prior(r, ks[i]) == Prior(m, ks[i]) + deltas[i] {
        if i < n - 1 {
          assert ks[i] != ks[n - 1];
          BumpOther(prev, ks[n - 1], starts[n - 1], deltas[n - 1], ks[i]);
        } else {
          BumpSelf(prev, ks[n - 1], starts[n - 1], deltas[n - 1]);
        }
      }
      forall k | k !in ks[..n] ensures (k in r <==> k in m) && (k in m ==> r[k] == m[k]) {
        assert ks[..n] == ks[..n - 1] + [ks[n - 1]];
        assert k != ks[n - 1] && k !in ks[..n - 1];
        BumpOther(prev, ks[n - 1], starts[n - 1], deltas[n - 1], k);
      }
    }
  }

  /** Whether the value falls into each bucket, as the amount added. */
  function Hits(value: real): (d: seq<real>)
    ensures |d| == |Boundaries|
    ensures forall i :: 0 <= i < |Boundaries| ==> d[i] == if value <= Boundaries[i] then 1.0 else 0.0
    ensures forall i, j :: 0 <= i <= j < |d| ==> d[i] <= d[j]
  {
    assert forall i, j :: 0 <= i <= j < |Boundaries| ==> Boundaries[i] <= Boundaries[j] by {
      forall i, j | 0 <= i <= j < |Boundaries| ensures Boundaries[i] <= Boundaries[j] {
        BoundariesIncreasing(i, j);
      }
    }
    seq(|Boundaries|, i requires 0 <= i < |Boundaries| => if value <= Boundaries[i] then 1.0 else 0.0)
  }

  function FreshBuckets(labels: seq<Label>): (f: seq<MetricValue>)
    ensures |f| == |Boundaries|
    ensures forall i :: 0 <= i < |Boundaries| ==> f[i] == MetricValue(0.0, BucketLabels(labels, i))
  {
    seq(|Boundaries|, i requires 0 <= i < |Boundaries| => MetricValue(0.0, BucketLabels(labels, i)))
  }

  lemma BucketKeysAllDistinct(name: string, labels: seq<Label>)
    requires DistinctNames(labels)
    ensures AllDistinct(BucketKeys(name, labels))
  {
    forall i, j | 0 <= i < j < |Boundaries| ensures BucketKey(name, labels, i) != BucketKey(name, labels, j) {
      BucketKeysDistinct(name, labels, i, j);
    }
  }

  /** The shape of one observation over plain keys: distinct bucket keys
      bumped in turn, then a `_sum` and a `_count` key outside them. */
  lemma SeriesEffect(m: Store, ks: seq<string>, starts: seq<MetricValue>, deltas: seq<real>,
                     sk: string, ck: string, labels: seq<Label>, v: real)
    requires |starts| == |ks| && |deltas| == |ks| && AllDistinct(ks)
    requires forall i :: 0 <= i < |starts| ==> starts[i].value == 0.0
    requires sk != ck && sk !in ks && ck !in ks
    ensures var b := BumpEach(m, ks, starts, deltas, |ks|);
            var r := Bump(Bump(b, sk, MetricValue(0.0, labels), v), ck, MetricValue(0.0, labels), 1.0);
            && (forall i :: 0 <= i < |ks| ==> ks[i] in r && Prior(r, ks[i]) == Prior(m, ks[i]) + deltas[i])
            && sk in r && Prior(r, sk) == Prior(m, sk) + v
            && ck in r && Prior(r, ck) == Prior(m, ck) + 1.0
            && (forall k :: k !in ks && k != sk && k != ck ==> (k in r <==> k in m) && (k in m ==> r[k] == m[k]))
  {
    var b := BumpEach(m, ks, starts, deltas, |ks|);
    var withSum := Bump(b, sk, MetricValue(0.0, labels), v);
    var r := Bump(withSum, ck, MetricValue(0.0, labels), 1.0);
    BumpEachEffect(m, ks, starts, deltas, |ks|);
    assert ks[..|ks|] == ks;
    assert Prior(b, sk) == Prior(m, sk) && Prior(b, ck) == Prior(m, ck);
    BumpSelf(b, sk, MetricValue(0.0, labels), v);
    BumpOther(b, sk, MetricValue(0.0, labels), v, ck);
    BumpSelf(withSum, ck, MetricValue(0.0, labels), 1.0);
    BumpOther(withSum, ck, MetricValue(0.0, labels), 1.0, sk);
    forall i | 0 <= i < |ks| ensures ks[i] in r && Prior(r, ks[i]) == Prior(m, ks[i]) + deltas[i] {
      BumpOther(b, sk, MetricValue(0.0, labels), v, ks[i]);
      BumpOther(withSum, ck, MetricValue(0.0, labels), 1.0, ks[i]);
    }
    forall k | k !in ks && k != sk && k != ck ensures (k in r <==> k in m) && (k in m ==> r[k] == m[k]) {
      BumpOther(b, sk, MetricValue(0.0, labels), v, k);
      BumpOther(withSum, ck, MetricValue(0.0, labels), 1.0, k);
    }
  }

  /** One `record_histogram(name, v, labels)`: all eight bucket keys exist
      afterwards, a bucket goes up by 1 iff `v` is within its boundary, `_sum`
      goes up by `v`, `_count` by 1, and no other key changes. */
  lemma ObserveEffect(m: Store, name: string, labels: seq<Label>, v: real)
    requires DistinctNames(labels)
    ensures var r := Observed(m, name, labels, v);
            var ks := BucketKeys(name, labels);
            && (forall i :: 0 <= i < |Boundaries| ==>
                  ks[i] in r && Prior(r, ks[i]) == Prior(m, ks[i]) + (if v <= Boundaries[i] then 1.0 else 0.0))
            && SumKey(name, labels) in r && Prior(r, SumKey(name, labels)) == Prior(m, SumKey(name, labels)) + v
            && CountKey(name, labels) in r && Prior(r, CountKey(name, labels)) == Prior(m, CountKey(name, labels)) + 1.0
            && (forall k :: k !in ks && k != SumKey(name, labels) && k != CountKey(name, labels) ==>
                  (k in r <==> k in m) && (k in m ==> r[k] == m[k]))
  {
    var ks := BucketKeys(name, labels);
    BucketKeysAllDistinct(name, labels);
    SeriesKeysDistinct(name, labels);
    SeriesEffect(m, ks, FreshBuckets(labels), Hits(v), SumKey(name, labels), CountKey(name, labels), labels, v);
  }


  lemma BoundariesRange(i: nat)
    requires i < |Boundaries|
    ensures 0.1 <= Boundaries[i] <= 60.0
  {
  }

  lemma BoundariesIncreasing(i: nat, j: nat)
    requires i <= j < |Boundaries|
    ensures Boundaries[i] <= Boundaries[j]
  {
  }

  /** 0.05 is within every boundary, so it lands in every bucket. */
  lemma ObserveSmall(m: Store, name: string, labels: seq<Label>, i: nat)
    requires DistinctNames(labels) && i < |Boundaries|
    ensures var k := BucketKey(name, labels, i);
            Prior(Observed(m, name, labels, 0.05), k) == Prior(m, k) + 1.0
  {
    ObserveEffect(m, name, labels, 0.05);
    BoundariesRange(i);
    assert BucketKeys(name, labels)[i] == BucketKey(name, labels, i);
  }

  /** 75 is beyond the last boundary: no bucket moves, but `_count` does. */
  lemma ObserveLarge(m: Store, name: string, labels: seq<Label>, i: nat)
    requires DistinctNames(labels) && i < |Boundaries|
    ensures var k := BucketKey(name, labels, i);
            Prior(Observed(m, name, labels, 75.0), k) == Prior(m, k)
    ensures var k := CountKey(name, labels);
            Prior(Observed(m, name, labels, 75.0), k) == Prior(m, k) + 1.0
  {
    ObserveEffect(m, name, labels, 75.0);
    BoundariesRange(i);
    assert BucketKeys(name, labels)[i] == BucketKey(name, labels, i);
  }

  /** 45 exceeds every boundary but the last: only the `le="60.0"` bucket
      moves. */
  lemma ObserveBetween(m: Store, name: string, labels: seq<Label>, i: nat)
    requires DistinctNames(labels) && i < |Boundaries|
    ensures var k := BucketKey(name, labels, i);
            Prior(Observed(m, name, labels, 45.0), k) == Prior(m, k) + (if i == |Boundaries| - 1 then 1.0 else 0.0)
  {
    ObserveEffect(m, name, labels, 45.0);
    var hit := if 45.0 <= Boundaries[i] then 1.0 else 0.0;
    if i < |Boundaries| - 1 {
      BoundariesIncreasing(i, |Boundaries| - 2);
      assert Boundaries[|Boundaries| - 2] == 30.0;
      assert hit == 0.0;
    } else {
      assert Boundaries[i] == 60.0;
      assert hit == 1.0;
    }
    assert BucketKeys(name, labels)[i] == BucketKey(name, labels, i);
  }

  /** Over any sequence of observations of one series, each bucket counts
      the values within its boundary, `_count` counts them all and `_sum`
      totals them. */
  lemma {:induction false} ObservedAllTotals(m: Store, name: string, labels: seq<Label>, values: seq<real>)
    requires DistinctNames(labels)
    ensures var r := ObservedAll(m, name, labels, values);
            var ks := BucketKeys(name, labels);
            && (forall i :: 0 <= i < |Boundaries| ==>
                  Prior(r, ks[i]) == Prior(m, ks[i]) + CountAtMost(values, Boundaries[i]) as real)
            && Prior(r, SumKey(name, labels)) == Prior(m, SumKey(name, labels)) + Sum(values)
            && Prior(r, CountKey(name, labels)) == Prior(m, CountKey(name, labels)) + |values| as real
  {
    if values != [] {
      var init := values[..|values| - 1];
      ObservedAllTotals(m, name, labels, init);
      ObserveEffect(ObservedAll(m, name, labels, init), name, labels, values[|values| - 1]);
    }
  }

  /** Starting from a store without the series, bucket counts never decrease
      along the boundaries and the largest bucket never exceeds `_count`. */
  lemma BucketsCumulative(m: Store, name: string, labels: seq<Label>, values: seq<real>, i: nat, j: nat)
    requires DistinctNames(labels) && i <= j < |Boundaries|
    requires BucketKey(name, labels, i) !in m && BucketKey(name, labels, j) !in m && CountKey(name, labels) !in m
    ensures var r := ObservedAll(m, name, labels, values);
            Prior(r, BucketKey(name, labels, i)) <= Prior(r, BucketKey(name, labels, j)) <= Prior(r, CountKey(name, labels))
  {
    var ks := BucketKeys(name, labels);
    var r := ObservedAll(m, name, labels, values);
    ObservedAllTotals(m, name, labels, values);
    BoundariesIncreasing(i, j);
    CountAtMostMonotone(values, Boundaries[i], Boundaries[j]);
    assert Prior(r, ks[i]) == CountAtMost(values, Boundaries[i]) as real;
    assert Prior(r, ks[j]) == CountAtMost(values, Boundaries[j]) as real;
    assert Prior(r, CountKey(name, labels)) == |values| as real;
  }

  // ---------------------------------------------------------------------
  // Grouping by key

  datatype Family = Counter | Gauge | Histogram

  /** The rule `generate_prometheus_format` and `get_metrics_summary` share:
      by the key string only. */
  function FamilyOf(key: string): (f: Family)
    ensures f == Histogram <==> EndsWith(key, "_sum") || EndsWith(key, "_count") || EndsWith(key, "_bucket")
    ensures f == Counter <==> f != Histogram && StartsWith(key, "counter_")
    ensures f == Gauge <==> f != Histogram && !StartsWith(key, "counter_")
  {
    if EndsWith(key, "_sum") || EndsWith(key, "_count") || EndsWith(key, "_bucket") then Histogram
    else if StartsWith(key, "counter_") then Counter
    else Gauge
  }

  function Group(all: Store, f: Family): (g: Store)
    ensures g.Keys <= all.Keys
    ensures forall k :: k in g <==> k in all && FamilyOf(k) == f
    ensures forall k :: k in g ==> g[k] == all[k]
  {
    map k | k in all && FamilyOf(k) == f :: all[k]
  }

  /** `get_metrics_summary()` without its timestamps. */
  datatype Summary = Summary(totalMetrics: nat, counters: Store, gauges: Store, histograms: Store)

  /** Every key lands in exactly one group, under its own value, and
      `total_metrics` is the sum of the group sizes. */
  function MetricsSummary(all: Store): (s: Summary)
    ensures forall k :: k in s.counters <==> k in all && FamilyOf(k) == Counter
    ensures forall k :: k in s.gauges <==> k in all && FamilyOf(k) == Gauge
    ensures forall k :: k in s.histograms <==> k in all && FamilyOf(k) == Histogram
    ensures forall k :: k in s.counters ==> s.counters[k] == all[k]
    ensures forall k :: k in s.gauges ==> s.gauges[k] == all[k]
    ensures forall k :: k in s.histograms ==> s.histograms[k] == all[k]
    ensures s.counters.Keys + s.gauges.Keys + s.histograms.Keys == all.Keys
    ensures s.counters.Keys !! s.gauges.Keys && s.counters.Keys !! s.histograms.Keys
    ensures s.gauges.Keys !! s.histograms.Keys
    ensures s.totalMetrics == |all| == |s.counters| + |s.gauges| + |s.histograms|
  {
    var c, g, h := Group(all, Counter), Group(all, Gauge), Group(all, Histogram);
    GroupsCover(all);
    DisjointCard(c.Keys, g.Keys);
    DisjointCard(c.Keys + g.Keys, h.Keys);
    assert |c| == |c.Keys| && |g| == |g.Keys| && |h| == |h.Keys|;
    Summary(|all|, c, g, h)
  }

  lemma DisjointCard<T>(a: set<T>, b: set<T>)
    requires a !! b
    ensures |a + b| == |a| + |b|
  {
  }

  lemma GroupsCover(all: Store)
    ensures Group(all, Counter).Keys + Group(all, Gauge).Keys + Group(all, Histogram).Keys == all.Keys
    ensures Group(all, Counter).Keys !! Group(all, Gauge).Keys
    ensures Group(all, Counter).Keys !! Group(all, Histogram).Keys
    ensures Group(all, Gauge).Keys !! Group(all, Histogram).Keys
  {
    forall k | k in all.Keys
      ensures k in Group(all, Counter).Keys + Group(all, Gauge).Keys + Group(all, Histogram).Keys
    {
      assert FamilyOf(k) == Counter || FamilyOf(k) == Gauge || FamilyOf(k) == Histogram;
    }
  }



  /** The bucket series is never grouped as a histogram: the `le` label puts
      the boundary text, not `_bucket`, at the end of the key. */
  lemma BucketKeysNotHistogram(name: string, i: nat)
    requires i < |BoundaryText|
    ensures FamilyOf(BucketKey(name, [], i)) != Histogram
  {
    var key := BucketKey(name, [], i);
    assert BucketLabels([], i) == [("le", BoundaryText[i])];
    MetricKeyForm(name + "_bucket", BucketLabels([], i));
    assert SortLabels([("le", BoundaryText[i])]) == [("le", BoundaryText[i])];
    assert key == name + "_bucket" + "_le_" + BoundaryText[i];
    assert key[|key| - 1] == '0' || key[|key| - 1] == '1' || key[|key| - 1] == '5';
  }

  /** Unlabelled `_sum` and `_count` series are grouped as histograms. */
  lemma SeriesGrouping(name: string)
    ensures FamilyOf(SumKey(name, [])) == Histogram
    ensures FamilyOf(CountKey(name, [])) == Histogram
  {
    assert EndsWith(name + "_sum", "_sum");
    assert EndsWith(name + "_count", "_count");
  }

  /** A labelled key ends in `_` and the value of the last label in key
      order, and begins with the name. So the suffix test reads that value
      (all of it once it is six characters or longer) and the `counter_`
      test reads the name (once it is eight characters or longer): a
      labelled `_sum`, `_count` or bucket key is grouped by its last label
      value and its name, never by its own series suffix. */
  lemma LabelledKeyFamily(name: string, labels: seq<Label>)
    requires labels != []
    requires |name| >= 8
    requires |SortLabels(labels)[|labels| - 1].1| >= 6
    ensures var tail := "_" + SortLabels(labels)[|labels| - 1].1;
            FamilyOf(MetricKey(name, labels)) ==
              if EndsWith(tail, "_sum") || EndsWith(tail, "_count") || EndsWith(tail, "_bucket") then Histogram
              else if StartsWith(name, "counter_") then Counter
              else Gauge
  {
    var l := SortLabels(labels);
    var n := |l|;
    MetricKeyForm(name, labels);
    SuffixesLast(l);
    var mid := Suffixes(l[..n - 1]) + "_" + l[n - 1].0;
    assert MetricKey(name, labels) == name + mid + ("_" + l[n - 1].1);
    FamilyOfFramed(name, mid, "_" + l[n - 1].1);
  }

  /** A key that begins with eight characters of `name` and ends with seven
      of `tail` is grouped by those alone. */
  lemma FamilyOfFramed(name: string, mid: string, tail: string)
    requires |name| >= 8 && |tail| >= 7
    ensures FamilyOf(name + mid + tail) ==
              if EndsWith(tail, "_sum") || EndsWith(tail, "_count") || EndsWith(tail, "_bucket") then Histogram
              else if StartsWith(name, "counter_") then Counter
              else Gauge
  {
    var key := name + mid + tail;
    assert key[..8] == name[..8];
    assert key[|key| - 4..] == tail[|tail| - 4..];
    assert key[|key| - 6..] == tail[|tail| - 6..];
    assert key[|key| - 7..] == tail[|tail| - 7..];
  }

  lemma LoginSumKey()
    ensures SumKey("latency", [("route", "login")]) == "latency_sum" + "_rout" + "e_login"
  {
    assert SortLabels([("route", "login")]) == [("route", "login")];
    MetricKeyForm("latency_sum", [("route", "login")]);
  }

  /** With labels, the `_sum` key no longer ends in `_sum`, so a labelled
      histogram sum is grouped as a gauge. */
  lemma LabelledSumIsGauge()
    ensures FamilyOf(SumKey("latency", [("route", "login")])) == Gauge
  {
    LoginSumKey();
    FamilyOfFramed("latency_sum", "_rout", "e_login");
    var tail := "e_login";
    assert !EndsWith(tail, "_sum") by { assert tail[3..][0] == 'o'; }
    assert !EndsWith(tail, "_count") by { assert tail[1..][1] == 'l'; }
    assert !EndsWith(tail, "_bucket") by { assert tail[0..][0] == 'e'; }
    assert !StartsWith("latency_sum", "counter_") by { assert "latency_sum"[..8][0] == 'l'; }
  }


  // ---------------------------------------------------------------------
  // The collector

  /** `Observed` once the buckets are done. */
  lemma ObservedForm(m: Store, b: Store, name: string, labels: seq<Label>, v: real, sk: string, ck: string)
    requires b == BumpEach(m, BucketKeys(name, labels), FreshBuckets(labels), Hits(v), |Boundaries|)
    requires sk == MetricKey(name + "_sum", labels) && ck == MetricKey(name + "_count", labels)
    ensures Observed(m, name, labels, v)
            == Bump(Bump(b, sk, MetricValue(0.0, labels), v), ck, MetricValue(0.0, labels), 1.0)
  {
  }

  /** `_sum` and `_count` of one series are different entries. */
  lemma SumCountDiffer(name: string, labels: seq<Label>)
    ensures MetricKey(name + "_sum", labels) != MetricKey(name + "_count", labels)
  {
    SeriesKeysDistinct(name, labels);
  }

  class MetricsCollector {
    /** `self.metrics`. */
    var metrics: Store

    constructor ()
      ensures metrics == map[]
    {
      metrics := map[];
    }

    /** `increment_counter(name, labels, value)`. */
    method IncrementCounter(name: string, labels: seq<Label>, value: real)
      modifies this
      ensures metrics == Incremented(old(metrics), name, labels, value)
    {
      var key := MetricKey(name, labels);
      if key !in metrics {
        metrics := metrics[key := MetricValue(0.0, labels)];
      }
      metrics := metrics[key := metrics[key].(value := metrics[key].value + value)];
    }

    /** `set_gauge(name, value, labels)`. */
    method SetGauge(name: string, value: real, labels: seq<Label>)
      modifies this
      ensures metrics == Gauged(old(metrics), name, value, labels)
    {
      var key := MetricKey(name, labels);
      metrics := metrics[key := MetricValue(value, labels)];
    }

    /** One turn of the bucket loop: create `key` at 0 with `labels` if it
        is missing, then add 1 when the observation is within the bucket. */
    method CountInto(key: string, labels: seq<Label>, hit: bool)
      modifies this
      ensures metrics == Bump(old(metrics), key, MetricValue(0.0, labels), if hit then 1.0 else 0.0)
    {
      if key !in metrics {
        metrics := metrics[key := MetricValue(0.0, labels)];
      }
      if hit {
        metrics := metrics[key := metrics[key].(value := metrics[key].value + 1.0)];
      }
    }

    /** The `_sum` and `_count` part of `record_histogram`: both entries
        are created at 0 if missing, then `_sum` gets the observation and
        `_count` gets 1. */
    method RecordSeries(sumKey: string, countKey: string, labels: seq<Label>, value: real)
      requires sumKey != countKey
      modifies this
      ensures metrics == Bump(Bump(old(metrics), sumKey, MetricValue(0.0, labels), value), countKey, MetricValue(0.0, labels), 1.0)
    {
      if sumKey !in metrics {
        metrics := metrics[sumKey := MetricValue(0.0, labels)];
      }
      if countKey !in metrics {
        metrics := metrics[countKey := MetricValue(0.0, labels)];
      }
      metrics := metrics[sumKey := metrics[sumKey].(value := metrics[sumKey].value + value)];
      metrics := metrics[countKey := metrics[countKey].(value := metrics[countKey].value + 1.0)];
    }

    method RecordBuckets(name: string, value: real, labels: seq<Label>)
      modifies this
      ensures metrics == BumpEach(old(metrics), BucketKeys(name, labels), FreshBuckets(labels), Hits(value), |Boundaries|)
    {
      ghost var ks, st, ds := BucketKeys(name, labels), FreshBuckets(labels), Hits(value);
      for i := 0 to |Boundaries|
        invariant metrics == BumpEach(old(metrics), ks, st, ds, i)
      {
        var bucketLabels := SetLabel(labels, "le", BoundaryText[i]);
        var bucketKey := MetricKey(name + "_bucket", bucketLabels);
        assert bucketKey == ks[i] && st[i] == MetricValue(0.0, bucketLabels);
        assert ds[i] == if value <= Boundaries[i] then 1.0 else 0.0;
        CountInto(bucketKey, bucketLabels, value <= Boundaries[i]);
      }
    }

    /** `record_histogram(name, value, labels)`: the bucket loop, then `_sum`
        and `_count`, each created at 0 before being added to. */
    method RecordHistogram(name: string, value: real, labels: seq<Label>)
      modifies this
      ensures metrics == Observed(old(metrics), name, labels, value)
    {
      RecordBuckets(name, value, labels);
      ghost var buckets := metrics;
      var sumKey := MetricKey(name + "_sum", labels);
      var countKey := MetricKey(name + "_count", labels);
      SumCountDiffer(name, labels);
      RecordSeries(sumKey, countKey, labels, value);
      ObservedForm(old(metrics), buckets, name, labels, value, sumKey, countKey);
    }

    /** `get_metric(name, labels)`. */
    method GetMetric(name: string, labels: seq<Label>) returns (r: Option<MetricValue>)
      ensures r.Some? <==> MetricKey(name, labels) in metrics
      ensures r.Some? ==> r.value == metrics[MetricKey(name, labels)]
    {
      var key := MetricKey(name, labels);
      if key in metrics {
        r := Some(metrics[key]);
      } else {
        r := None;
      }
    }

    /** `get_all_metrics()`: a copy of the whole store. */
    method GetAllMetrics() returns (all: Store)
      ensures all == metrics
    {
      all := metrics;
    }

    /** `reset_metrics()`. */
    method ResetMetrics()
      modifies this
      ensures metrics == map[]
    {
      metrics := map[];
    }
  }
}
