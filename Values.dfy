/**
 * The numeric state held for one label combination of a metric, and the
 * value objects that hold it. The C++ hierarchy (MetricValue,
 * SimpleMetricValue, CounterValue, GaugeValue, HistogramMetricValue) is a
 * closed tagged union here; a MetricValue object is what a metric's
 * operator[] hands out and what the mutators update in place.
 */
module Values {
  import opened Doubles
  import opened Order

  datatype ValueState =
    | GaugeValue(value: Double)
    | CounterValue(value: Double)
      /** `buckets` maps each threshold to the number of observations at or
          below it; `count` is the number of all observations. */
    | HistogramValue(count: nat, buckets: map<real, nat>, sum: Double)

  /** HistogramMetricValue::defalut_buckets. */
  const DefaultBuckets: seq<real> :=
    [0.005, 0.01, 0.025, 0.05, 0.075, 0.1, 0.25, 0.5, 0.75, 1.0, 2.5, 5.0, 7.5, 10.0]

  /** std::map<double, unsigned long> visits thresholds in ascending order. */
  predicate RealLess(x: real, y: real)
  {
    x < y
  }

  lemma RealLessStrictTotal()
    ensures StrictTotal(RealLess)
  {
  }

  /** The ascending thresholds of a bucket map. */
  function Thresholds(buckets: map<real, nat>): (ts: seq<real>)
    ensures |ts| == |buckets|
    ensures forall t :: t in ts <==> t in buckets
    ensures Ascending(ts, RealLess)
  {
    RealLessStrictTotal();
    Elements(buckets.Keys, RealLess)
  }

  // ---------------------------------------------------------------------
  // Counter

  /** CounterValue::increment: a non-positive (or NaN) delta is ignored. */
  function Incremented(value: Double, delta: Double): Double
  {
    if IsPositive(delta) then Add(value, delta) else value
  }

  /** The counter after the increments `deltas`, applied in order. */
  function IncrementAll(value: Double, deltas: seq<Double>): Double
    decreases |deltas|
  {
    if deltas == [] then value else IncrementAll(Incremented(value, deltas[0]), deltas[1..])
  }

  /** The sum of the positive finite deltas. */
  function PositiveTotal(deltas: seq<Double>): (total: real)
    ensures total >= 0.0
    decreases |deltas|
  {
    if deltas == [] then 0.0
    else (if deltas[0].Finite? && deltas[0].r > 0.0 then deltas[0].r else 0.0) + PositiveTotal(deltas[1..])
  }

  lemma {:induction false} IncrementAllFromInfinity(deltas: seq<Double>)
    ensures IncrementAll(PosInf, deltas) == PosInf
    decreases |deltas|
  {
    if deltas != [] {
      IncrementAllFromInfinity(deltas[1..]);
    }
  }

  lemma {:induction false} IncrementAllFrom(a: real, deltas: seq<Double>)
    ensures IncrementAll(Finite(a), deltas)
            == if PosInf in deltas then PosInf else Finite(a + PositiveTotal(deltas))
    decreases |deltas|
  {
    if deltas != [] {
      var d, rest := deltas[0], deltas[1..];
      assert deltas == [d] + rest;
      assert PosInf in deltas <==> d == PosInf || PosInf in rest;
      if d == PosInf {
        IncrementAllFromInfinity(rest);
      } else {
        var a' := if d.Finite? && d.r > 0.0 then a + d.r else a;
        assert Incremented(Finite(a), d) == Finite(a');
        IncrementAllFrom(a', rest);
      }
    }
  }

  /** A counter that starts at 0 holds the sum of exactly the positive
      deltas it was given (positive infinity absorbs). */
  lemma CounterIsSumOfPositiveDeltas(deltas: seq<Double>)
    ensures IncrementAll(Zero, deltas)
            == if PosInf in deltas then PosInf else Finite(PositiveTotal(deltas))
  {
    IncrementAllFrom(0.0, deltas);
  }

  /** A finite counter never decreases. */
  lemma CounterNeverDecreases(value: real, delta: Double)
    ensures LessOrEqual(Finite(value), Incremented(Finite(value), delta))
  {
  }

  // ---------------------------------------------------------------------
  // Histogram

  /** HistogramMetricValue's constructor: one zero bucket per threshold,
      nothing observed. */
  function FreshHistogram(bounds: seq<real>): ValueState
  {
    HistogramValue(0, map t | t in bounds :: 0, Zero)
  }

  /** HistogramMetricValue::observe as a function of the previous state. */
  function Observed(h: ValueState, v: Double): (h': ValueState)
    requires h.HistogramValue?
  {
    HistogramValue(
      h.count + 1,
      ObservedBuckets(h.buckets, v),
      Add(h.sum, v))
  }

  /** The bucket map after observing `v`. */
  function ObservedBuckets(buckets: map<real, nat>, v: Double): map<real, nat>
  {
    map t | t in buckets :: Bumped(buckets[t], v, t)
  }

  /** A bucket's count after observing `v`: one more when `v` is at or below
      its threshold `t`. */
  function Bumped(n: nat, v: Double, t: real): nat
  {
    if LessOrEqual(v, Finite(t)) then n + 1 else n
  }

  /** A bucket map that holds the bumped count at every threshold of an
      enumeration of the thresholds is the bucket map of Observed. */
  lemma BumpedEverywhere(buckets: map<real, nat>, v: Double, ts: seq<real>, result: map<real, nat>)
    requires forall t :: t in ts <==> t in buckets
    requires result.Keys == buckets.Keys
    requires forall j :: 0 <= j < |ts| ==> ts[j] in result && result[ts[j]] == Bumped(buckets[ts[j]], v, ts[j])
    ensures result == ObservedBuckets(buckets, v)
  {
    forall t | t in result ensures result[t] == ObservedBuckets(buckets, v)[t] {
      var j :| 0 <= j < |ts| && ts[j] == t;
    }
  }

  /** The histogram after the observations `vs`, made in order. */
  function ObserveAll(h: ValueState, vs: seq<Double>): (h': ValueState)
    requires h.HistogramValue?
    ensures h'.HistogramValue?
    decreases |vs|
  {
    if vs == [] then h else ObserveAll(Observed(h, vs[0]), vs[1..])
  }

  /** The number of observations in `vs` at or below threshold `t`. */
  function CountAtOrBelow(vs: seq<Double>, t: real): (n: nat)
    ensures n <= |vs|
    decreases |vs|
  {
    if vs == [] then 0
    else (if LessOrEqual(vs[0], Finite(t)) then 1 else 0) + CountAtOrBelow(vs[1..], t)
  }

  /** The running sum of `vs`, added left to right to `start`. */
  function SumFrom(start: Double, vs: seq<Double>): Double
    decreases |vs|
  {
    if vs == [] then start else SumFrom(Add(start, vs[0]), vs[1..])
  }

  /** The state a histogram holds by definition after the observations
      `vs`, made on the state `h`. */
  function Summary(h: ValueState, vs: seq<Double>): ValueState
    requires h.HistogramValue?
  {
    HistogramValue(
      h.count + |vs|,
      map t | t in h.buckets :: h.buckets[t] + CountAtOrBelow(vs, t),
      SumFrom(h.sum, vs))
  }

  lemma {:induction false} ObserveAllIsSummary(h: ValueState, vs: seq<Double>)
    requires h.HistogramValue?
    ensures ObserveAll(h, vs) == Summary(h, vs)
    decreases |vs|
  {
    if vs != [] {
      var h1 := Observed(h, vs[0]);
      ObserveAllIsSummary(h1, vs[1..]);
      assert Summary(h1, vs[1..]).buckets == Summary(h, vs).buckets;
    }
  }

  /** Observing `vs` on a fresh histogram counts every observation, puts in
      each bucket exactly the observations at or below its threshold, and
      sums the observations. */
  lemma HistogramCountsObservations(bounds: seq<real>, vs: seq<Double>)
    ensures ObserveAll(FreshHistogram(bounds), vs).count == |vs|
    ensures ObserveAll(FreshHistogram(bounds), vs).buckets
            == map t | t in bounds :: CountAtOrBelow(vs, t)
    ensures ObserveAll(FreshHistogram(bounds), vs).sum == SumFrom(Zero, vs)
  {
    ObserveAllIsSummary(FreshHistogram(bounds), vs);
    FreshSummaryBuckets(bounds, vs);
  }

  lemma FreshSummaryBuckets(bounds: seq<real>, vs: seq<Double>)
    ensures Summary(FreshHistogram(bounds), vs).buckets == map t | t in bounds :: CountAtOrBelow(vs, t)
  {
    var b := Summary(FreshHistogram(bounds), vs).buckets;
    assert forall t :: t in b <==> t in bounds;
  }

  /** The histogram invariant: bucket counts are cumulative (never larger
      for a smaller threshold) and none exceeds the total count. */
  ghost predicate Cumulative(h: ValueState)
  {
    && h.HistogramValue?
    && (forall t :: t in h.buckets ==> h.buckets[t] <= h.count)
    && (forall t1, t2 :: t1 in h.buckets && t2 in h.buckets && t1 <= t2 ==> h.buckets[t1] <= h.buckets[t2])
  }

  lemma FreshHistogramCumulative(bounds: seq<real>)
    ensures Cumulative(FreshHistogram(bounds))
  {
  }

  /** One observation adds one to the count, one to exactly the buckets
      whose threshold is at or above the value, the value to the sum, and
      keeps the thresholds and the histogram invariant. */
  lemma ObservedSpec(h: ValueState, v: Double)
    requires Cumulative(h)
    ensures Cumulative(Observed(h, v))
    ensures Observed(h, v).count == h.count + 1
    ensures Observed(h, v).sum == Add(h.sum, v)
    ensures Observed(h, v).buckets.Keys == h.buckets.Keys
    ensures forall t :: t in h.buckets && LessOrEqual(v, Finite(t)) ==> Observed(h, v).buckets[t] == h.buckets[t] + 1
    ensures forall t :: t in h.buckets && !LessOrEqual(v, Finite(t)) ==> Observed(h, v).buckets[t] == h.buckets[t]
  {
    var h' := Observed(h, v);
    forall t1, t2 | t1 in h'.buckets && t2 in h'.buckets && t1 <= t2
      ensures h'.buckets[t1] <= h'.buckets[t2]
    {
      if LessOrEqual(v, Finite(t1)) {
        LessOrEqualMonotone(v, t1, t2);
      }
    }
  }

  /** With distinct thresholds, the constructor makes exactly one bucket per
      threshold. */
  lemma {:induction false} FreshHistogramBucketCount(bounds: seq<real>)
    requires forall i, j :: 0 <= i < j < |bounds| ==> bounds[i] != bounds[j]
    ensures |FreshHistogram(bounds).buckets| == |bounds|
  {
    DistinctCardinality(bounds);
    assert FreshHistogram(bounds).buckets.Keys == set t | t in bounds;
  }

  lemma {:induction false} DistinctCardinality(s: seq<real>)
    requires forall i, j :: 0 <= i < j < |s| ==> s[i] != s[j]
    ensures |set t | t in s| == |s|
    decreases |s|
  {
    if s != [] {
      var rest := s[1..];
      DistinctCardinality(rest);
      assert (set t | t in s) == {s[0]} + (set t | t in rest);
      assert s[0] !in rest;
    }
  }

  /** The loop of HistogramMetricValue::observe: visits the thresholds in
      ascending order and adds one to each bucket whose threshold is at or
      above `v`. */
  method BumpBuckets(buckets: map<real, nat>, v: Double) returns (result: map<real, nat>)
    ensures result == ObservedBuckets(buckets, v)
  {
    var ts := Thresholds(buckets);
    ThresholdsDistinct(buckets);
    result := BumpKeys(buckets, v, ts);
  }

  lemma ThresholdsDistinct(buckets: map<real, nat>)
    ensures var ts := Thresholds(buckets);
      forall j, k :: 0 <= j < |ts| && 0 <= k < |ts| && j != k ==> ts[j] != ts[k]
  {
    RealLessStrictTotal();
    AscendingDistinct(Thresholds(buckets), RealLess);
  }

  /** The loop itself, over an enumeration `ts` of the thresholds without
      repetitions. */
  method BumpKeys(buckets: map<real, nat>, v: Double, ts: seq<real>) returns (result: map<real, nat>)
    requires forall t :: t in ts <==> t in buckets
    requires forall j, k :: 0 <= j < |ts| && 0 <= k < |ts| && j != k ==> ts[j] != ts[k]
    ensures result == ObservedBuckets(buckets, v)
  {
    result := buckets;
    var i := 0;
    while i < |ts|
      invariant 0 <= i <= |ts|
      invariant BumpedUpTo(buckets, v, ts, result, i)
    {
      BumpStep(buckets, v, ts, result, i);
      var t := ts[i];
      if LessOrEqual(v, Finite(t)) {
        result := result[t := result[t] + 1];
      }
      i := i + 1;
    }
    BumpedEverywhere(buckets, v, ts, result);
  }

  /** The loop invariant: the first `i` thresholds hold their bumped count,
      the others their old one, and no threshold was added or lost. */
  ghost predicate BumpedUpTo(buckets: map<real, nat>, v: Double, ts: seq<real>, result: map<real, nat>, i: nat)
  {
    && i <= |ts|
    && (forall t :: t in ts <==> t in buckets)
    && result.Keys == buckets.Keys
    && (forall j :: 0 <= j < i ==> result[ts[j]] == Bumped(buckets[ts[j]], v, ts[j]))
    && (forall j :: i <= j < |ts| ==> result[ts[j]] == buckets[ts[j]])
  }

  /** One iteration of the loop keeps its invariant. */
  lemma BumpStep(buckets: map<real, nat>, v: Double, ts: seq<real>, result: map<real, nat>, i: nat)
    requires i < |ts|
    requires forall j, k :: 0 <= j < |ts| && 0 <= k < |ts| && j != k ==> ts[j] != ts[k]
    requires BumpedUpTo(buckets, v, ts, result, i)
    ensures var t := ts[i];
      BumpedUpTo(buckets, v, ts, if LessOrEqual(v, Finite(t)) then result[t := result[t] + 1] else result, i + 1)
  {
    var t := ts[i];
    forall j | 0 <= j < |ts| && j != i ensures ts[j] != t {
    }
  }

  // ---------------------------------------------------------------------
  // Value objects

  class MetricValue {
    var state: ValueState

    /** GaugeValue(): SimpleMetricValue starts at 0. */
    constructor Gauge()
      ensures state == GaugeValue(Zero)
    {
      state := GaugeValue(Zero);
    }

    /** CounterValue(): SimpleMetricValue starts at 0. */
    constructor Counter()
      ensures state == CounterValue(Zero)
    {
      state := CounterValue(Zero);
    }

    /** HistogramMetricValue(buckets): a zero bucket for each threshold. */
    constructor Histogram(bounds: seq<real>)
      ensures state == FreshHistogram(bounds)
    {
      var buckets: map<real, nat> := map[];
      var i := 0;
      while i < |bounds|
        invariant 0 <= i <= |bounds|
        invariant buckets == map t | t in bounds[..i] :: 0
      {
        assert bounds[..i + 1] == bounds[..i] + [bounds[i]];
        buckets := buckets[bounds[i] := 0];
        i := i + 1;
      }
      assert bounds[..i] == bounds;
      state := HistogramValue(0, buckets, Zero);
    }

    /** GaugeValue::set overwrites the value. */
    method Set(x: Double)
      requires state.GaugeValue?
      modifies this
      ensures state == GaugeValue(x)
    {
      state := GaugeValue(x);
    }

    /** CounterValue::increment adds a positive delta and ignores any other. */
    method Increment(delta: Double := Finite(1.0))
      requires state.CounterValue?
      modifies this
      ensures state == CounterValue(Incremented(old(state.value), delta))
    {
      if IsPositive(delta) {
        state := CounterValue(Add(state.value, delta));
      }
    }

    /** HistogramMetricValue::observe: bumps the buckets in ascending
        threshold order, then the sum and the count. */
    method Observe(v: Double)
      requires state.HistogramValue?
      modifies this
      ensures state == Observed(old(state), v)
    {
      var buckets := BumpBuckets(state.buckets, v);
      state := HistogramValue(state.count + 1, buckets, Add(state.sum, v));
    }
  }
}
