/**
 * The metrics store: a Registry holds the set of metrics registered with it
 * and the global labels printed on every sample; a Metric maps each label
 * set to a value object of its kind, creating values on first use.
 */
module Metrics {
  import opened Doubles
  import opened LabelSets
  import opened Values
  import opened Exposition

  /** The three metric classes: Gauge, Counter, and Histogram with the
      thresholds every one of its values is built with. */
  datatype Kind = GaugeKind | CounterKind | HistogramKind(bounds: seq<real>)

  /** A histogram built without a bucket list uses defalut_buckets. */
  const DefaultHistogram: Kind := HistogramKind(DefaultBuckets)

  /** get_prometheus_type_name of each metric class. */
  function TypeName(kind: Kind): (s: string)
    ensures kind.GaugeKind? ==> s == "gauge"
    ensures kind.CounterKind? ==> s == "counter"
    ensures kind.HistogramKind? ==> s == "histogram"
  {
    match kind
    case GaugeKind => "gauge"
    case CounterKind => "counter"
    case HistogramKind(_) => "histogram"
  }

  /** The TYPE line tells the three classes apart, whatever the buckets. */
  lemma TypeNameIdentifiesClass(a: Kind, b: Kind)
    ensures TypeName(a) == TypeName(b) <==>
            (a.GaugeKind? && b.GaugeKind?) || (a.CounterKind? && b.CounterKind?)
            || (a.HistogramKind? && b.HistogramKind?)
  {
    if a.GaugeKind? && !b.GaugeKind? {
      assert TypeName(a)[0] != TypeName(b)[0];
    } else if a.CounterKind? && !b.CounterKind? {
      assert TypeName(a)[0] != TypeName(b)[0];
    } else if a.HistogramKind? && !b.HistogramKind? {
      assert TypeName(a)[0] != TypeName(b)[0];
    }
  }

  /** The state of a freshly constructed value of each kind (construct_value). */
  function Initial(kind: Kind): ValueState
  {
    match kind
    case GaugeKind => GaugeValue(Zero)
    case CounterKind => CounterValue(Zero)
    case HistogramKind(bounds) => FreshHistogram(bounds)
  }

  /** A value state of the metric's kind; a histogram's buckets are exactly
      the metric's thresholds. */
  ghost predicate Conforms(kind: Kind, s: ValueState)
  {
    match kind
    case GaugeKind => s.GaugeValue?
    case CounterKind => s.CounterValue?
    case HistogramKind(bounds) => s.HistogramValue? && s.buckets.Keys == set t | t in bounds
  }

  /** Every value a metric constructs is of its kind; a histogram's value
      starts with no observations, every bucket at zero and a zero sum. */
  lemma InitialConforms(kind: Kind)
    ensures Conforms(kind, Initial(kind))
    ensures kind.HistogramKind? ==>
      && Initial(kind).count == 0 && Initial(kind).sum == Zero
      && forall t :: t in Initial(kind).buckets ==> Initial(kind).buckets[t] == 0
    ensures !kind.HistogramKind? ==> Initial(kind).value == Zero
  {
  }

  /** Observing keeps a histogram of its kind. */
  lemma ObservedConforms(kind: Kind, h: ValueState, v: Double)
    requires kind.HistogramKind? && Conforms(kind, h)
    ensures Conforms(kind, Observed(h, v))
  {
    assert Observed(h, v).buckets.Keys == h.buckets.Keys;
  }

  /** The entries that a non-exact remove of `labels` keeps: those whose key
      does not contain every pair of `labels`. */
  function Unmatched<V>(m: map<Labels, V>, labels: Labels): (r: map<Labels, V>)
    ensures forall k :: k in r <==> k in m && !IsSubsetOf(labels, k)
    ensures forall k :: k in r ==> r[k] == m[k]
  {
    map k | k in m && !IsSubsetOf(labels, k) :: m[k]
  }

  /** A non-exact remove of the empty label set erases every entry, and
      removing a label set erases at least the entry of that exact set. */
  lemma UnmatchedBounds<V>(m: map<Labels, V>, labels: Labels)
    ensures Unmatched(m, NoLabels) == map[]
    ensures labels !in Unmatched(m, labels)
  {
    forall k | k in m ensures IsSubsetOf(NoLabels, k) {
      SubsetBounds(k);
    }
    SubsetBounds(labels);
    assert Unmatched(m, NoLabels).Keys == {};
  }

  /** Removing `labels` also removes every entry the removal of a smaller
      label set keeps out: the larger the argument, the fewer entries go. */
  lemma UnmatchedAntitone<V>(m: map<Labels, V>, small: Labels, large: Labels)
    requires IsSubsetOf(small, large)
    ensures forall k :: k in Unmatched(m, small) ==> k in Unmatched(m, large)
  {
    forall k | k in Unmatched(m, small) ensures k in Unmatched(m, large) {
      if IsSubsetOf(large, k) {
        SubsetTransitive(small, large, k);
      }
    }
  }

  lemma SortedLabelSetsDistinct<V>(m: map<Labels, V>)
    ensures var keys := SortedLabelSets(m);
      forall j, k :: 0 <= j < |keys| && 0 <= k < |keys| && j != k ==> keys[j] != keys[k]
  {
    LabelsLessStrictTotal();
    Order.AscendingDistinct(SortedLabelSets(m), LabelsLess);
  }

  /** A map that keeps exactly the entries of `m` whose key is not a hit,
      deciding every key of `keys`, keeps every entry outside `hits`. */
  lemma ScanComplete<K, V>(m: map<K, V>, hits: set<K>, keys: seq<K>, r: map<K, V>)
    requires forall k :: k in keys <==> k in m
    requires forall k :: k in r ==> k in m && r[k] == m[k]
    requires forall j :: 0 <= j < |keys| ==> (keys[j] in r <==> keys[j] !in hits)
    ensures forall k :: k in r <==> k in m && k !in hits
  {
    forall k | k in m ensures k in r <==> k !in hits {
      var j :| 0 <= j < |keys| && keys[j] == k;
    }
  }

  /** The scan invariant of the erase loop: the first `i` keys have been
      decided (kept exactly when they are not hits), the rest are still
      present, and nothing else has changed. */
  ghost predicate Scanned<K, V>(m: map<K, V>, hits: set<K>, keys: seq<K>, r: map<K, V>, i: nat)
  {
    && i <= |keys|
    && (forall k :: k in r ==> k in m && r[k] == m[k])
    && (forall j :: 0 <= j < i ==> (keys[j] in r <==> keys[j] !in hits))
    && (forall j :: i <= j < |keys| ==> keys[j] in r)
  }

  /** One iteration of the erase loop keeps the scan invariant. */
  lemma ScanStep<K, V>(m: map<K, V>, hits: set<K>, keys: seq<K>, r: map<K, V>, i: nat)
    requires i < |keys|
    requires forall j, k :: 0 <= j < |keys| && 0 <= k < |keys| && j != k ==> keys[j] != keys[k]
    requires Scanned(m, hits, keys, r, i)
    ensures Scanned(m, hits, keys, if keys[i] in hits then r - {keys[i]} else r, i + 1)
  {
    var r' := if keys[i] in hits then r - {keys[i]} else r;
    forall j | 0 <= j < |keys| && j != i ensures keys[j] in r' <==> keys[j] in r {
      assert keys[j] != keys[i];
    }
  }

  /** The keys of `m` that the removal of `labels` erases. */
  ghost function Hits<V>(m: map<Labels, V>, labels: Labels): (h: set<Labels>)
    ensures forall k :: k in h <==> k in m && IsSubsetOf(labels, k)
  {
    set k | k in m && IsSubsetOf(labels, k)
  }

  lemma UnmatchedFromHits<V>(m: map<Labels, V>, labels: Labels, r: map<Labels, V>)
    requires forall k :: k in r <==> k in m && k !in Hits(m, labels)
    requires forall k :: k in r ==> r[k] == m[k]
    ensures r == Unmatched(m, labels)
  {
  }

  /** The erase loop of Metric::remove: visits the keys in ascending order
      and erases each one that contains every pair of `labels`. */
  method EraseMatching<V>(m: map<Labels, V>, labels: Labels) returns (r: map<Labels, V>)
    ensures r == Unmatched(m, labels)
  {
    var keys := SortedLabelSets(m);
    SortedLabelSetsDistinct(m);
    r := EraseKeys(m, labels, keys);
    UnmatchedFromHits(m, labels, r);
  }

  /** The loop itself, over an enumeration `keys` of the keys of `m`
      without repetitions. */
  method EraseKeys<V>(m: map<Labels, V>, labels: Labels, keys: seq<Labels>) returns (r: map<Labels, V>)
    requires forall k :: k in keys <==> k in m
    requires forall j, k :: 0 <= j < |keys| && 0 <= k < |keys| && j != k ==> keys[j] != keys[k]
    ensures forall k :: k in r <==> k in m && k !in Hits(m, labels)
    ensures forall k :: k in r ==> r[k] == m[k]
  {
    ghost var hits := Hits(m, labels);
    r := m;
    var i := 0;
    while i < |keys|
      invariant 0 <= i <= |keys|
      invariant Scanned(m, hits, keys, r, i)
    {
      ScanStep(m, hits, keys, r, i);
      if IsSubsetOf(labels, keys[i]) {
        r := r - {keys[i]};
      }
      i := i + 1;
    }
    ScanComplete(m, hits, keys, r);
  }

  class Registry {
    /** The global labels printed on every sample of every metric. */
    var labels: Labels
    /** The registered metrics (a std::set of pointers). */
    var metrics: set<Metric>

    /** Every registered metric belongs to this registry. */
    ghost predicate Valid()
      reads this
    {
      forall m :: m in metrics ==> m.registry == this
    }

    constructor(labels: Labels := map[])
      ensures this.labels == labels && metrics == {} && Valid()
    {
      this.labels := labels;
      metrics := {};
    }

    /** Registry::printTo, the metrics taken in `order`, an enumeration of
        the registered set (pointer order is not modelled): it writes
        nothing exactly when no registered metric holds a value. */
    function Text(order: seq<Metric>, fmt: FiniteFormat): (s: string)
      requires Valid()
      requires |order| == |metrics| && (set i | 0 <= i < |order| :: order[i]) == metrics
      reads this, metrics, set m, v | m in metrics && v in m.values.Values :: v
      reads set m | m in metrics :: m.registry
      ensures s == RegistryText(MetricTexts(order, fmt))
      ensures forall i :: 0 <= i < |order| ==>
        MetricTexts(order, fmt)[i]
        == MetricText(order[i].name, order[i].help, TypeName(order[i].kind), labels, order[i].Snapshot(), fmt)
      ensures s == "" <==> forall i :: 0 <= i < |order| ==> order[i].values == map[]
    {
      var texts := MetricTexts(order, fmt);
      ConcatEmpty(texts);
      forall i | 0 <= i < |order| ensures texts[i] == "" <==> order[i].values == map[] {
        order[i].TextEmpty(fmt);
      }
      TextsUseGlobalLabels(order, fmt);
      RegistryText(texts)
    }

    /** Each metric of the enumeration is rendered with this registry's
        global labels. */
    lemma TextsUseGlobalLabels(order: seq<Metric>, fmt: FiniteFormat)
      requires Valid()
      requires (set i | 0 <= i < |order| :: order[i]) == metrics
      ensures forall i :: 0 <= i < |order| ==>
        MetricTexts(order, fmt)[i]
        == MetricText(order[i].name, order[i].help, TypeName(order[i].kind), labels, order[i].Snapshot(), fmt)
    {
      forall i | 0 <= i < |order|
        ensures MetricTexts(order, fmt)[i]
                == MetricText(order[i].name, order[i].help, TypeName(order[i].kind), labels, order[i].Snapshot(), fmt)
      {
        var m := order[i];
        assert m in (set j | 0 <= j < |order| :: order[j]) by {
          assert 0 <= i < |order| && order[i] == m;
        }
        assert m.registry == this;
      }
    }
  }

  /** The texts of the metrics `ms`, in order. */
  function MetricTexts(ms: seq<Metric>, fmt: FiniteFormat): (ts: seq<string>)
    reads set m | m in ms, set m, v | m in ms && v in m.values.Values :: v
    reads set m | m in ms :: m.registry
    ensures |ts| == |ms|
    ensures forall i :: 0 <= i < |ms| ==> ts[i] == ms[i].Text(fmt)
  {
    seq(|ms|, i requires 0 <= i < |ms|
                reads set m | m in ms, set m, v | m in ms && v in m.values.Values :: v
                reads set m | m in ms :: m.registry
              => ms[i].Text(fmt))
  }

  class Metric {
    const name: string
    const help: string
    const kind: Kind
    const registry: Registry
    /** The values by label set; each one is a distinct object. */
    var values: map<Labels, MetricValue>

    /** Distinct label sets hold distinct value objects, and every value is
        of the metric's kind. */
    ghost predicate Valid()
      reads this, values.Values
    {
      && (forall a, b :: a in values && b in values && a != b ==> values[a] != values[b])
      && forall l :: l in values ==> Conforms(kind, values[l].state)
    }

    /** The current state of every value, by label set. */
    function Snapshot(): (s: map<Labels, ValueState>)
      reads this, values.Values
      ensures s.Keys == values.Keys
      ensures forall l :: l in s ==> s[l] == values[l].state
    {
      map l | l in values :: values[l].state
    }

    /** The state the value for `labels` has, or will have once operator[]
        creates it. */
    function Current(labels: Labels): (s: ValueState)
      reads this, values.Values
      ensures labels in values ==> s == values[labels].state
      ensures labels !in values ==> s == Initial(kind)
    {
      if labels in values then values[labels].state else Initial(kind)
    }

    /** Metric(registry, name, help): registers the new metric. */
    constructor(registry: Registry, name: string, help: string, kind: Kind)
      requires registry.Valid()
      modifies registry
      ensures this.registry == registry && this.name == name && this.help == help && this.kind == kind
      ensures values == map[] && Valid()
      ensures registry.metrics == old(registry.metrics) + {this} && registry.Valid()
      ensures registry.labels == old(registry.labels)
    {
      this.registry := registry;
      this.name := name;
      this.help := help;
      this.kind := kind;
      values := map[];
      new;
      registry.metrics := registry.metrics + {this};
    }

    /** ~Metric(): unregisters the metric. */
    method Destroy()
      requires registry.Valid()
      modifies registry
      ensures registry.metrics == old(registry.metrics) - {this} && registry.Valid()
      ensures registry.labels == old(registry.labels)
    {
      registry.metrics := registry.metrics - {this};
    }

    /** construct_value: a new value object of the metric's kind. */
    method ConstructValue() returns (v: MetricValue)
      ensures fresh(v) && v.state == Initial(kind)
    {
      if kind.GaugeKind? {
        v := new MetricValue.Gauge();
      } else if kind.CounterKind? {
        v := new MetricValue.Counter();
      } else {
        v := new MetricValue.Histogram(kind.bounds);
      }
    }

    /** operator[] / get: the value stored for `labels`, created on first
        use; an existing value is returned as it is. */
    method Get(labels: Labels) returns (v: MetricValue)
      requires Valid()
      modifies this
      ensures Valid()
      ensures labels in values && values[labels] == v
      ensures labels in old(values) ==> values == old(values)
      ensures labels !in old(values) ==> fresh(v) && values == old(values)[labels := v]
      ensures Snapshot() == old(Snapshot())[labels := old(Current(labels))]
    {
      if labels in values {
        v := values[labels];
      } else {
        v := ConstructValue();
        InitialConforms(kind);
        values := values[labels := v];
      }
    }

    /** get_default_metric: the value of the empty label set. */
    method GetDefault() returns (v: MetricValue)
      requires Valid()
      modifies this
      ensures Valid()
      ensures NoLabels in values && values[NoLabels] == v
      ensures NoLabels in old(values) ==> values == old(values)
      ensures NoLabels !in old(values) ==> fresh(v) && values == old(values)[NoLabels := v]
      ensures Snapshot() == old(Snapshot())[NoLabels := old(Current(NoLabels))]
    {
      v := Get(NoLabels);
    }

    /** After the value `v` of the empty label set changed in place, only
        that entry of the snapshot changed. */
    twostate lemma SnapshotAfter(v: MetricValue)
      requires old(Valid()) && values == old(values) && NoLabels in values && values[NoLabels] == v
      requires forall o :: o in old(values.Values) && o != v ==> unchanged(o)
      ensures Snapshot() == old(Snapshot())[NoLabels := v.state]
    {
      forall l | l in values ensures Snapshot()[l] == old(Snapshot())[NoLabels := v.state][l] {
        if l != NoLabels {
          assert values[l] != v && values[l] in old(values.Values);
        }
      }
    }

    /** Metric::remove: with `exactMatch`, erases the entry of `labels` only;
        otherwise erases every entry whose key contains all of `labels`. */
    method Remove(labels: Labels, exactMatch: bool := true)
      requires Valid()
      modifies this
      ensures Valid()
      ensures exactMatch ==> values == old(values) - {labels}
      ensures !exactMatch ==> values == Unmatched(old(values), labels)
    {
      if exactMatch {
        values := values - {labels};
      } else {
        values := EraseMatching(values, labels);
      }
    }

    /** Metric::clear: erases every entry. */
    method Clear()
      modifies this
      ensures values == map[] && Valid()
    {
      values := map[];
    }

    /** PrometheusGauge::set: sets the default value only. */
    method Set(x: Double)
      requires Valid() && kind.GaugeKind?
      modifies this, values.Values
      ensures Valid()
      ensures Snapshot() == old(Snapshot())[NoLabels := GaugeValue(x)]
      ensures NoLabels in old(values) ==> values == old(values)
      ensures NoLabels !in old(values) ==> fresh(values[NoLabels]) && values == old(values)[NoLabels := values[NoLabels]]
      ensures forall o :: o in old(values.Values) && o != values[NoLabels] ==> unchanged(o)
    {
      ghost var before := Snapshot();
      var v := GetDefault();
      label Mid:
      v.Set(x);
      SnapshotAfter@Mid(v);
      UpdateTwice(before, NoLabels, old(Current(NoLabels)), v.state);
    }

    /** PrometheusCounter::increment: increments the default value only. */
    method Increment(delta: Double := Finite(1.0))
      requires Valid() && kind.CounterKind?
      modifies this, values.Values
      ensures Valid()
      ensures Snapshot() == old(Snapshot())[NoLabels := CounterValue(Incremented(old(Current(NoLabels)).value, delta))]
      ensures NoLabels in old(values) ==> values == old(values)
      ensures NoLabels !in old(values) ==> fresh(values[NoLabels]) && values == old(values)[NoLabels := values[NoLabels]]
      ensures forall o :: o in old(values.Values) && o != values[NoLabels] ==> unchanged(o)
    {
      ghost var before := Snapshot();
      var v := GetDefault();
      assert v.state == old(Current(NoLabels));
      label Mid:
      v.Increment(delta);
      SnapshotAfter@Mid(v);
      UpdateTwice(before, NoLabels, old(Current(NoLabels)), v.state);
    }

    /** PrometheusHistogram::observe: observes into the default value only. */
    method Observe(x: Double)
      requires Valid() && kind.HistogramKind?
      modifies this, values.Values
      ensures Valid()
      ensures Snapshot() == old(Snapshot())[NoLabels := Observed(old(Current(NoLabels)), x)]
      ensures NoLabels in old(values) ==> values == old(values)
      ensures NoLabels !in old(values) ==> fresh(values[NoLabels]) && values == old(values)[NoLabels := values[NoLabels]]
      ensures forall o :: o in old(values.Values) && o != values[NoLabels] ==> unchanged(o)
    {
      ghost var before := Snapshot();
      var v := GetDefault();
      assert v.state == old(Current(NoLabels));
      ObservedConforms(kind, v.state, x);
      label Mid:
      v.Observe(x);
      SnapshotAfter@Mid(v);
      UpdateTwice(before, NoLabels, old(Current(NoLabels)), v.state);
    }

    /** Metric::printTo: the rendering of the current values with the
        registry's global labels. */
    function Text(fmt: FiniteFormat): (s: string)
      reads this, registry, values.Values
    {
      MetricText(name, help, TypeName(kind), registry.labels, Snapshot(), fmt)
    }

    /** A metric writes nothing exactly when it holds no value. */
    lemma TextEmpty(fmt: FiniteFormat)
      ensures Text(fmt) == "" <==> values == map[]
    {
      MetricTextShape(name, help, TypeName(kind), registry.labels, Snapshot(), fmt);
    }
  }
}
