/**
 * The older API of the library (prometheus.h / prometheus.cpp): a registry
 * without global labels, gauges and counters only, values formatted with
 * std::to_string, and output written through a writer callback, here
 * returned as the text the callback receives.
 */
module Legacy {
  import opened Doubles
  import opened LabelSets
  import opened Values
  import opened Exposition

  /** std::to_string(double); its digits are not modelled. */
  type NumberFormat = Double -> string

  datatype Kind = GaugeKind | CounterKind

  /** get_prometheus_type_name of the two metric classes. */
  function TypeName(kind: Kind): (s: string)
    ensures kind.GaugeKind? ==> s == "gauge"
    ensures kind.CounterKind? ==> s == "counter"
  {
    match kind
    case GaugeKind => "gauge"
    case CounterKind => "counter"
  }

  /** The two type names differ. */
  lemma TypeNamesDistinct()
    ensures TypeName(GaugeKind) != TypeName(CounterKind)
  {
    assert TypeName(GaugeKind)[0] != TypeName(CounterKind)[0];
  }

  // ---------------------------------------------------------------------
  // Rendering

  /** dump_labels: nothing for an empty label set, otherwise the pairs in
      key order inside braces, with the same first-flag loop as
      print_labels. */
  function DumpLabels(labels: Labels): string
  {
    if labels == map[] then "" else "{" + PrintPairs(Entries(labels), true) + "}"
  }

  /** The legacy label block is the current one without global labels and
      without `le`, whatever the number formatter; so it is empty exactly for
      an empty label set, and otherwise the comma-separated pairs in key
      order inside braces. */
  lemma DumpLabelsIsPrintLabels(labels: Labels, fmt: FiniteFormat)
    ensures DumpLabels(labels) == PrintLabels(NoLabels, labels, NaN, fmt)
    ensures DumpLabels(labels) == "" <==> labels == map[]
    ensures labels != map[] ==> DumpLabels(labels) == "{" + Join(Entries(labels)) + "}"
  {
    PrintLabelsShape(NoLabels, labels, NaN, fmt);
    if labels != map[] {
      var l := Entries(labels);
      assert Entries(NoLabels) == [];
      PrintPairsIsJoin(l);
      assert LePairs(NaN, fmt) == [];
      assert Entries(NoLabels) + l + LePairs(NaN, fmt) == l;
    }
  }

  /** PrometheusSimpleMetricValue::dump: name, label block, a space, the
      formatted value and a newline. */
  function SimpleLine(name: string, labels: Labels, value: Double, toString: NumberFormat): string
  {
    name + DumpLabels(labels) + " " + toString(value) + "\n"
  }

  /** A legacy sample line is a current sample line without global labels,
      except that the value goes through std::to_string. */
  lemma SimpleLineMatchesCurrent(name: string, labels: Labels, value: Double, toString: NumberFormat, fmt: FiniteFormat)
    ensures SimpleLine(name, labels, value, toString)
            == name + PrintLabels(NoLabels, labels, NaN, fmt) + " " + toString(value) + "\n"
    ensures toString(value) == ToStr(value, fmt) ==>
            SimpleLine(name, labels, value, toString) == Line(name, NoLabels, labels, NaN, value, fmt)
  {
    DumpLabelsIsPrintLabels(labels, fmt);
  }

  /** The lines of the entries `keys`, one line each. */
  function EntryTexts(name: string, values: map<Labels, Double>, keys: seq<Labels>, toString: NumberFormat): (lines: seq<string>)
    requires forall k :: k in keys ==> k in values
    ensures |lines| == |keys|
    ensures forall i :: 0 <= i < |keys| ==> lines[i] == SimpleLine(name, keys[i], values[keys[i]], toString)
  {
    seq(|keys|, i requires 0 <= i < |keys| => SimpleLine(name, keys[i], values[keys[i]], toString))
  }

  /** PrometheusMetric::dump: nothing for a metric without values;
      otherwise the HELP and TYPE lines and one line per entry in key
      order. */
  function DumpText(name: string, help: string, typeName: string, values: map<Labels, Double>, toString: NumberFormat): string
  {
    if values == map[] then ""
    else
      Concat([HeaderLine("HELP", name, help), HeaderLine("TYPE", name, typeName)]
             + EntryTexts(name, values, SortedLabelSets(values), toString))
  }

  /** A metric without values writes nothing; otherwise it writes its HELP
      line, its TYPE line, and one line per entry, the entries in the order
      of SortedLabelSets (strictly ascending label-set order, each exactly
      once). */
  lemma DumpTextShape(name: string, help: string, typeName: string, values: map<Labels, Double>, toString: NumberFormat)
    ensures values == map[] <==> DumpText(name, help, typeName, values, toString) == ""
    ensures values != map[] ==>
      DumpText(name, help, typeName, values, toString)
      == HeaderLine("HELP", name, help) + HeaderLine("TYPE", name, typeName)
         + Concat(EntryTexts(name, values, SortedLabelSets(values), toString))
  {
    if values != map[] {
      var help1, type1 := HeaderLine("HELP", name, help), HeaderLine("TYPE", name, typeName);
      ConcatTwoHeads(help1, type1, EntryTexts(name, values, SortedLabelSets(values), toString));
      assert |help1| > 0;
    }
  }

  // ---------------------------------------------------------------------
  // Values, metrics and the registry

  /** PrometheusGaugeValue / PrometheusCounterValue: one double; `kind`
      says which of the two classes the object is, and so which mutator it
      has. */
  class SimpleValue {
    const kind: Kind
    var value: Double

    /** `new T()`: a fresh value of either class is 0. */
    constructor(kind: Kind)
      ensures this.kind == kind && value == Zero
    {
      this.kind := kind;
      value := Zero;
    }

    /** PrometheusGaugeValue::set overwrites the value; only a gauge value
        has it. */
    method Set(x: Double)
      requires kind.GaugeKind?
      modifies this
      ensures value == x
    {
      value := x;
    }

    /** PrometheusCounterValue::increment adds a positive delta and ignores
        any other; only a counter value has it. */
    method Increment(delta: Double := Finite(1.0))
      requires kind.CounterKind?
      modifies this
      ensures value == Incremented(old(value), delta)
      ensures !IsPositive(delta) ==> value == old(value)
    {
      if IsPositive(delta) {
        value := Add(value, delta);
      }
    }
  }

  class Prometheus {
    /** The registered metrics (a std::set of pointers). */
    var metrics: set<Metric>

    constructor()
      ensures metrics == {}
    {
      metrics := {};
    }

    /** Prometheus::dump, the metrics taken in `order`, an enumeration of
        the registered set: nothing is written exactly when no registered
        metric holds a value. */
    function Text(order: seq<Metric>, toString: NumberFormat): (s: string)
      requires |order| == |metrics| && (set i | 0 <= i < |order| :: order[i]) == metrics
      reads this, metrics, set m, v | m in metrics && v in m.values.Values :: v
      ensures s == "" <==> forall i :: 0 <= i < |order| ==> order[i].values == map[]
    {
      DumpAll(order, toString)
    }
  }

  /** The dumps of the metrics `ms`, one after the other. */
  function DumpAll(ms: seq<Metric>, toString: NumberFormat): (s: string)
    reads set m | m in ms, set m, v | m in ms && v in m.values.Values :: v
    ensures s == "" <==> forall i :: 0 <= i < |ms| ==> ms[i].values == map[]
    decreases |ms|
  {
    if ms == [] then ""
    else
      var rest := DumpAll(ms[1..], toString);
      ms[0].TextEmpty(toString);
      assert forall i :: 0 < i < |ms| ==> ms[1..][i - 1] == ms[i];
      ms[0].Text(toString) + rest
  }

  class Metric {
    const name: string
    const help: string
    const kind: Kind
    const prometheus: Prometheus
    /** The values by label set; each one is a distinct object. */
    var values: map<Labels, SimpleValue>

    /** Distinct label sets hold distinct value objects, each of the
        metric's own value class. */
    ghost predicate Valid()
      reads this
    {
      && (forall a, b :: a in values && b in values && a != b ==> values[a] != values[b])
      && (forall l :: l in values ==> values[l].kind == kind)
    }

    /** The current value of every entry, by label set. */
    function Snapshot(): (s: map<Labels, Double>)
      reads this, values.Values
      ensures s.Keys == values.Keys
      ensures forall l :: l in s ==> s[l] == values[l].value
    {
      map l | l in values :: values[l].value
    }

    /** The value the entry for `labels` has, or will have once created. */
    function Current(labels: Labels): (d: Double)
      reads this, values.Values
      ensures labels in values ==> d == values[labels].value
      ensures labels !in values ==> d == Zero
    {
      if labels in values then values[labels].value else Zero
    }

    /** PrometheusMetric(prometheus, name, help): registers the metric. */
    constructor(prometheus: Prometheus, name: string, help: string, kind: Kind)
      modifies prometheus
      ensures this.prometheus == prometheus && this.name == name && this.help == help && this.kind == kind
      ensures values == map[] && Valid()
      ensures prometheus.metrics == old(prometheus.metrics) + {this}
    {
      this.prometheus := prometheus;
      this.name := name;
      this.help := help;
      this.kind := kind;
      values := map[];
      new;
      prometheus.metrics := prometheus.metrics + {this};
    }

    /** ~PrometheusMetric(): unregisters the metric. */
    method Destroy()
      modifies prometheus
      ensures prometheus.metrics == old(prometheus.metrics) - {this}
    {
      prometheus.metrics := prometheus.metrics - {this};
    }

    /** operator[] / get: the value stored for `labels`, constructed with
        `new T()` only when absent; an existing value is returned as it
        is. */
    method Get(labels: Labels) returns (v: SimpleValue)
      requires Valid()
      modifies this
      ensures Valid()
      ensures labels in values && values[labels] == v && v.kind == kind
      ensures labels in old(values) ==> values == old(values)
      ensures labels !in old(values) ==> fresh(v) && values == old(values)[labels := v]
      ensures Snapshot() == old(Snapshot())[labels := old(Current(labels))]
    {
      if labels in values {
        v := values[labels];
      } else {
        v := new SimpleValue(kind);
        values := values[labels := v];
      }
    }

    /** get_default_metric: the value of the empty label set. */
    method GetDefault() returns (v: SimpleValue)
      requires Valid()
      modifies this
      ensures Valid()
      ensures NoLabels in values && values[NoLabels] == v
      ensures NoLabels in old(values) ==> values == old(values)
      ensures NoLabels !in old(values) ==> fresh(v) && values == old(values)[NoLabels := v]
      ensures Snapshot() == old(Snapshot())[NoLabels := old(Current(NoLabels))]
    {
      v := Get(NoLabels);
    }

    /** After the value `v` of the empty label set changed in place, only
        that entry of the snapshot changed. */
    twostate lemma SnapshotAfter(v: SimpleValue)
      requires old(Valid()) && values == old(values) && NoLabels in values && values[NoLabels] == v
      requires forall o :: o in old(values.Values) && o != v ==> unchanged(o)
      ensures Snapshot() == old(Snapshot())[NoLabels := v.value]
    {
      forall l | l in values ensures Snapshot()[l] == old(Snapshot())[NoLabels := v.value][l] {
        if l != NoLabels {
          assert values[l] != v && values[l] in old(values.Values);
        }
      }
    }

    /** PrometheusGauge::set: sets the default value only. */
    method Set(x: Double)
      requires Valid() && kind.GaugeKind?
      modifies this, values.Values
      ensures Valid()
      ensures Snapshot() == old(Snapshot())[NoLabels := x]
      ensures NoLabels in old(values) ==> values == old(values)
      ensures NoLabels !in old(values) ==> fresh(values[NoLabels]) && values == old(values)[NoLabels := values[NoLabels]]
      ensures forall o :: o in old(values.Values) && o != values[NoLabels] ==> unchanged(o)
    {
      ghost var before := Snapshot();
      var v := GetDefault();
      label Mid:
      v.Set(x);
      SnapshotAfter@Mid(v);
      UpdateTwice(before, NoLabels, old(Current(NoLabels)), v.value);
    }

    /** PrometheusCounter::increment: increments the default value only. */
    method Increment(delta: Double := Finite(1.0))
      requires Valid() && kind.CounterKind?
      modifies this, values.Values
      ensures Valid()
      ensures Snapshot() == old(Snapshot())[NoLabels := Incremented(old(Current(NoLabels)), delta)]
      ensures NoLabels in old(values) ==> values == old(values)
      ensures NoLabels !in old(values) ==> fresh(values[NoLabels]) && values == old(values)[NoLabels := values[NoLabels]]
      ensures forall o :: o in old(values.Values) && o != values[NoLabels] ==> unchanged(o)
    {
      ghost var before := Snapshot();
      var v := GetDefault();
      assert v.value == old(Current(NoLabels));
      label Mid:
      v.Increment(delta);
      SnapshotAfter@Mid(v);
      UpdateTwice(before, NoLabels, old(Current(NoLabels)), v.value);
    }

    /** PrometheusMetric::dump: the text the writer receives. */
    function Text(toString: NumberFormat): string
      reads this, values.Values
    {
      DumpText(name, help, TypeName(kind), Snapshot(), toString)
    }

    /** A metric writes nothing exactly when it holds no value. */
    lemma TextEmpty(toString: NumberFormat)
      ensures Text(toString) == "" <==> values == map[]
    {
      DumpTextShape(name, help, TypeName(kind), Snapshot(), toString);
    }
  }
}
