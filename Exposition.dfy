/**
 * The renderer for the Prometheus text-based exposition format (version
 * 0.0.4). Every printTo of the library writes its output to a Print sink
 * piece by piece; here each one is a function that returns the text it
 * writes, as a sequence of lines where the output is line-structured.
 */
module Exposition {
  import opened Doubles
  import opened LabelSets
  import opened Values

  /** The concatenation of `parts`, in order. */
  function Concat(parts: seq<string>): (s: string)
    ensures parts == [] ==> s == []
    decreases |parts|
  {
    if parts == [] then "" else parts[0] + Concat(parts[1..])
  }

  lemma SeqAssoc<T>(x: seq<T>, y: seq<T>, z: seq<T>)
    ensures x + (y + z) == (x + y) + z
  {
  }

  lemma SliceIndex<T>(s: seq<T>, k: nat)
    requires k <= |s|
    ensures forall i :: 0 <= i < |s| - k ==> s[k..][i] == s[k + i]
  {
  }

  lemma AppendIndex<T>(x: seq<T>, y: seq<T>)
    ensures |x + y| == |x| + |y|
    ensures forall i :: 0 <= i < |x| ==> (x + y)[i] == x[i]
    ensures forall i :: |x| <= i < |x| + |y| ==> (x + y)[i] == y[i - |x|]
  {
  }

  lemma {:induction false} ConcatAppend(a: seq<string>, b: seq<string>)
    ensures Concat(a + b) == Concat(a) + Concat(b)
    decreases |a|
  {
    if a != [] {
      assert (a + b)[0] == a[0];
      assert (a + b)[1..] == a[1..] + b;
      ConcatAppend(a[1..], b);
      calc {
        Concat(a + b);
        (a + b)[0] + Concat((a + b)[1..]);
        a[0] + (Concat(a[1..]) + Concat(b));
        { SeqAssoc(a[0], Concat(a[1..]), Concat(b)); }
        (a[0] + Concat(a[1..])) + Concat(b);
      }
    } else {
      assert a + b == b;
    }
  }

  /** The concatenation is empty exactly when every part is. */
  lemma {:induction false} ConcatEmpty(parts: seq<string>)
    ensures Concat(parts) == "" <==> forall i :: 0 <= i < |parts| ==> parts[i] == ""
    decreases |parts|
  {
    if parts != [] {
      ConcatEmpty(parts[1..]);
      assert forall i :: 1 <= i < |parts| ==> parts[i] == parts[1..][i - 1];
    }
  }

  // ---------------------------------------------------------------------
  // Label blocks

  /** The `name="value"` text of one label; the value is not escaped. */
  function Pair(p: (string, string)): string
  {
    p.0 + "=\"" + p.1 + "\""
  }

  /** The print_label helper: a comma unless this is the first label. */
  function PrintLabel(p: (string, string), first: bool): string
  {
    (if first then "" else ",") + Pair(p)
  }

  /** The emission loop over `pairs`, threading the `first` flag. */
  function PrintPairs(pairs: seq<(string, string)>, first: bool): string
    decreases |pairs|
  {
    if pairs == [] then "" else PrintLabel(pairs[0], first) + PrintPairs(pairs[1..], false)
  }

  /** The reference rendering of a label list: the pairs separated by
      commas, with no comma before the first or after the last. */
  function Join(pairs: seq<(string, string)>): string
    decreases |pairs|
  {
    if pairs == [] then ""
    else if |pairs| == 1 then Pair(pairs[0])
    else Pair(pairs[0]) + "," + Join(pairs[1..])
  }

  lemma {:induction false} PrintPairsAfterFirst(pairs: seq<(string, string)>)
    ensures pairs != [] ==> PrintPairs(pairs, false) == "," + Join(pairs)
    decreases |pairs|
  {
    if |pairs| > 1 {
      PrintPairsAfterFirst(pairs[1..]);
    }
  }

  /** The emission loop, started with the first flag set, writes exactly
      the comma-separated list. */
  lemma PrintPairsIsJoin(pairs: seq<(string, string)>)
    ensures PrintPairs(pairs, true) == Join(pairs)
  {
    if pairs != [] {
      PrintPairsAfterFirst(pairs[1..]);
    }
  }

  /** Emitting two lists one after the other with the flag threaded through
      is emitting their concatenation. */
  lemma {:induction false} PrintPairsAppend(a: seq<(string, string)>, b: seq<(string, string)>, first: bool)
    ensures PrintPairs(a, first) + PrintPairs(b, first && a == []) == PrintPairs(a + b, first)
    decreases |a|
  {
    if a != [] {
      assert (a + b)[0] == a[0];
      assert (a + b)[1..] == a[1..] + b;
      PrintPairsAppend(a[1..], b, false);
      calc {
        PrintPairs(a + b, first);
        PrintLabel(a[0], first) + PrintPairs(a[1..] + b, false);
        PrintLabel(a[0], first) + (PrintPairs(a[1..], false) + PrintPairs(b, false));
        { SeqAssoc(PrintLabel(a[0], first), PrintPairs(a[1..], false), PrintPairs(b, false)); }
        (PrintLabel(a[0], first) + PrintPairs(a[1..], false)) + PrintPairs(b, false);
      }
    } else {
      assert a + b == b;
    }
  }

  /** The `le` pseudo-label, present unless `le` is NaN. */
  function LePairs(le: Double, fmt: FiniteFormat): seq<(string, string)>
  {
    if le.NaN? then [] else [("le", ToStr(le, fmt))]
  }

  /** print_labels: nothing when there are no global labels, no local labels
      and no `le`; otherwise a brace block of the global labels, then the
      local labels, then `le`, each list in iteration order. */
  function PrintLabels(global: Labels, labels: Labels, le: Double, fmt: FiniteFormat): string
  {
    if global == map[] && labels == map[] && le.NaN? then ""
    else
      var g, l := Entries(global), Entries(labels);
      "{"
      + PrintPairs(g, true)
      + PrintPairs(l, g == [])
      + (if le.NaN? then "" else PrintLabel(("le", ToStr(le, fmt)), g == [] && l == []))
      + "}"
  }

  /** The label block is empty exactly when there is nothing to print, and
      otherwise it is the comma-separated list of the global pairs, the local
      pairs and the `le` pair, inside braces. */
  lemma PrintLabelsShape(global: Labels, labels: Labels, le: Double, fmt: FiniteFormat)
    ensures PrintLabels(global, labels, le, fmt) == ""
            <==> global == map[] && labels == map[] && le.NaN?
    ensures !(global == map[] && labels == map[] && le.NaN?) ==>
            PrintLabels(global, labels, le, fmt)
            == "{" + Join(Entries(global) + Entries(labels) + LePairs(le, fmt)) + "}"
  {
    if !(global == map[] && labels == map[] && le.NaN?) {
      var g, l, e := Entries(global), Entries(labels), LePairs(le, fmt);
      var x := if le.NaN? then "" else PrintLabel(("le", ToStr(le, fmt)), g == [] && l == []);
      assert PrintPairs(e, g + l == []) == x by {
        assert g + l == [] <==> g == [] && l == [];
      }
      PrintPairsAppend(g, l, true);
      PrintPairsAppend(g + l, e, true);
      PrintPairsIsJoin(g + l + e);
      calc {
        PrintLabels(global, labels, le, fmt);
        "{" + PrintPairs(g, true) + PrintPairs(l, g == []) + x + "}";
        { SeqAssoc("{", PrintPairs(g, true), PrintPairs(l, g == [])); }
        "{" + PrintPairs(g + l, true) + x + "}";
        { SeqAssoc("{", PrintPairs(g + l, true), x); }
        "{" + PrintPairs(g + l + e, true) + "}";
        "{" + Join(g + l + e) + "}";
      }
    }
  }

  /** `s` ends with `suffix`. */
  ghost predicate EndsWith(s: string, suffix: string)
  {
    |suffix| <= |s| && s[|s| - |suffix|..] == suffix
  }

  lemma EndsWithAppend(x: string, y: string, suffix: string)
    requires EndsWith(y, suffix)
    ensures EndsWith(x + y, suffix)
  {
    assert (x + y)[|x + y| - |suffix|..] == y[|y| - |suffix|..];
  }

  lemma {:induction false} JoinEndsWithLast(pairs: seq<(string, string)>)
    requires pairs != []
    ensures EndsWith(Join(pairs), Pair(pairs[|pairs| - 1]))
    decreases |pairs|
  {
    if |pairs| > 1 {
      JoinEndsWithLast(pairs[1..]);
      EndsWithAppend(Pair(pairs[0]) + ",", Join(pairs[1..]), Pair(pairs[|pairs| - 1]));
    }
  }

  lemma EndsWithExtend(x: string, suffix: string, y: string)
    requires EndsWith(x, suffix)
    ensures EndsWith(x + y, suffix + y)
  {
    assert (x + y)[|x + y| - |suffix + y|..] == x[|x| - |suffix|..] + y;
  }

  /** When `le` is present it is the last label of the block, right before
      the closing brace. */
  lemma LeIsLast(global: Labels, labels: Labels, le: Double, fmt: FiniteFormat)
    requires !le.NaN?
    ensures EndsWith(PrintLabels(global, labels, le, fmt), Pair(("le", ToStr(le, fmt))) + "}")
  {
    PrintLabelsShape(global, labels, le, fmt);
    var all := Entries(global) + Entries(labels) + LePairs(le, fmt);
    assert all[|all| - 1] == ("le", ToStr(le, fmt));
    JoinEndsWithLast(all);
    EndsWithAppend("{", Join(all), Pair(("le", ToStr(le, fmt))));
    EndsWithExtend("{" + Join(all), Pair(("le", ToStr(le, fmt))), "}");
  }

  // ---------------------------------------------------------------------
  // Sample lines

  /** One sample line: the series name, the label block, a space, the
      formatted value and a newline. */
  function Line(name: string, global: Labels, labels: Labels, le: Double, value: Double, fmt: FiniteFormat): string
  {
    name + PrintLabels(global, labels, le, fmt) + " " + ToStr(value, fmt) + "\n"
  }

  /** A bucket count as the double it is converted to. */
  function AsDouble(n: nat): Double
  {
    Finite(n as real)
  }

  /** The lines one value writes: SimpleMetricValue::printTo writes one line,
      HistogramMetricValue::printTo writes `_count`, the `+Inf` bucket,
      `_sum`, then one `_bucket` line per threshold in ascending order. */
  function ValueLines(name: string, global: Labels, labels: Labels, state: ValueState, fmt: FiniteFormat): seq<string>
  {
    match state
    case GaugeValue(v) => [Line(name, global, labels, NaN, v, fmt)]
    case CounterValue(v) => [Line(name, global, labels, NaN, v, fmt)]
    case HistogramValue(count, buckets, sum) =>
      HistogramHead(name, global, labels, count, sum, fmt)
      + BucketLines(name, global, labels, buckets, Thresholds(buckets), fmt)
  }

  /** The first three histogram lines: `_count`, the `+Inf` bucket, `_sum`. */
  function HistogramHead(name: string, global: Labels, labels: Labels, count: nat, sum: Double, fmt: FiniteFormat): (lines: seq<string>)
    ensures |lines| == 3
    ensures lines[0] == Line(name + "_count", global, labels, NaN, AsDouble(count), fmt)
    ensures lines[1] == Line(name + "_bucket", global, labels, PosInf, AsDouble(count), fmt)
    ensures lines[2] == Line(name + "_sum", global, labels, NaN, sum, fmt)
  {
    [ Line(name + "_count", global, labels, NaN, AsDouble(count), fmt),
      Line(name + "_bucket", global, labels, PosInf, AsDouble(count), fmt),
      Line(name + "_sum", global, labels, NaN, sum, fmt) ]
  }

  /** The finite `_bucket` lines, one per threshold of `ts`, in that order. */
  function BucketLines(name: string, global: Labels, labels: Labels, buckets: map<real, nat>, ts: seq<real>, fmt: FiniteFormat): (lines: seq<string>)
    requires forall t :: t in ts ==> t in buckets
    ensures |lines| == |ts|
    ensures forall i :: 0 <= i < |ts| ==>
              lines[i] == Line(name + "_bucket", global, labels, Finite(ts[i]), AsDouble(buckets[ts[i]]), fmt)
  {
    seq(|ts|, i requires 0 <= i < |ts| =>
          Line(name + "_bucket", global, labels, Finite(ts[i]), AsDouble(buckets[ts[i]]), fmt))
  }

  /** A histogram writes three lines plus one per threshold: `_count` and
      the `+Inf` bucket both carry the number of observations (the `+Inf`
      label block ends with `le="+Inf"}`, InfBucketLabel), then `_sum`, then
      one `_bucket` line per threshold, in the strictly ascending order of
      Thresholds, each with its own cumulative count. */
  lemma HistogramLinesShape(name: string, global: Labels, labels: Labels, h: ValueState, fmt: FiniteFormat)
    requires h.HistogramValue?
    ensures var lines, ts := ValueLines(name, global, labels, h, fmt), Thresholds(h.buckets);
      && |lines| == 3 + |ts|
      && lines[0] == Line(name + "_count", global, labels, NaN, AsDouble(h.count), fmt)
      && lines[1] == Line(name + "_bucket", global, labels, PosInf, AsDouble(h.count), fmt)
      && lines[2] == Line(name + "_sum", global, labels, NaN, h.sum, fmt)
      && forall i :: 0 <= i < |ts| ==>
           lines[3 + i] == Line(name + "_bucket", global, labels, Finite(ts[i]), AsDouble(h.buckets[ts[i]]), fmt)
  {
    HistogramLineCount(name, global, labels, h, fmt);
    HistogramHeadLines(name, global, labels, h, fmt);
    HistogramBucketLines(name, global, labels, h, fmt);
    SliceIndex(ValueLines(name, global, labels, h, fmt), 3);
  }

  lemma HistogramHeadLines(name: string, global: Labels, labels: Labels, h: ValueState, fmt: FiniteFormat)
    requires h.HistogramValue?
    ensures var lines := ValueLines(name, global, labels, h, fmt);
      && |lines| >= 3
      && lines[0] == Line(name + "_count", global, labels, NaN, AsDouble(h.count), fmt)
      && lines[1] == Line(name + "_bucket", global, labels, PosInf, AsDouble(h.count), fmt)
      && lines[2] == Line(name + "_sum", global, labels, NaN, h.sum, fmt)
  {
    var head := HistogramHead(name, global, labels, h.count, h.sum, fmt);
    HistogramSplit(name, global, labels, h, fmt);
    AppendIndex(head, BucketLines(name, global, labels, h.buckets, Thresholds(h.buckets), fmt));
  }

  lemma HistogramBucketLines(name: string, global: Labels, labels: Labels, h: ValueState, fmt: FiniteFormat)
    requires h.HistogramValue?
    ensures var lines := ValueLines(name, global, labels, h, fmt);
      |lines| >= 3 && lines[3..] == BucketLines(name, global, labels, h.buckets, Thresholds(h.buckets), fmt)
  {
    var head := HistogramHead(name, global, labels, h.count, h.sum, fmt);
    var tail := BucketLines(name, global, labels, h.buckets, Thresholds(h.buckets), fmt);
    HistogramSplit(name, global, labels, h, fmt);
    assert (head + tail)[3..] == tail;
  }

  lemma HistogramSplit(name: string, global: Labels, labels: Labels, h: ValueState, fmt: FiniteFormat)
    requires h.HistogramValue?
    ensures ValueLines(name, global, labels, h, fmt)
            == HistogramHead(name, global, labels, h.count, h.sum, fmt)
               + BucketLines(name, global, labels, h.buckets, Thresholds(h.buckets), fmt)
  {
  }

  /** The label block of the `+Inf` bucket line ends with `le="+Inf"}`. */
  lemma InfBucketLabel(global: Labels, labels: Labels, fmt: FiniteFormat)
    ensures EndsWith(PrintLabels(global, labels, PosInf, fmt), "le=\"+Inf\"}")
  {
    LeIsLast(global, labels, PosInf, fmt);
    InfPairText(fmt);
  }

  lemma InfPairText(fmt: FiniteFormat)
    ensures Pair(("le", ToStr(PosInf, fmt))) + "}" == "le=\"+Inf\"}"
  {
  }

  lemma SingleLabelBlock(k: string, v: string, fmt: FiniteFormat)
    ensures PrintLabels(map[k := v], NoLabels, NaN, fmt) == "{" + Pair((k, v)) + "}"
  {
    var e := Entries(map[k := v]);
    assert e[0].0 in map[k := v];
    assert e == [(k, v)];
    assert Entries(NoLabels) == [];
    PrintLabelsShape(map[k := v], NoLabels, NaN, fmt);
    assert e + Entries(NoLabels) + LePairs(NaN, fmt) == [(k, v)];
  }

  /** A registry with the global label instance="dev" and a counter `bar`
      without labels, incremented three times by one: its sample line is
      `bar{instance="dev"} 3`, the 3 formatted by the finite formatter. */
  lemma GlobalLabelExample(fmt: FiniteFormat)
    ensures Line("bar", map["instance" := "dev"], NoLabels, NaN,
                 IncrementAll(Zero, [Finite(1.0), Finite(1.0), Finite(1.0)]), fmt)
            == "bar" + "{" + "instance" + "=\"" + "dev" + "\"" + "}" + " " + fmt(3.0) + "\n"
  {
    SingleLabelBlock("instance", "dev", fmt);
    var three := IncrementAll(Zero, [Finite(1.0), Finite(1.0), Finite(1.0)]);
    assert three == Finite(3.0) by {
      CounterIsSumOfPositiveDeltas([Finite(1.0), Finite(1.0), Finite(1.0)]);
      assert PositiveTotal([Finite(1.0), Finite(1.0), Finite(1.0)]) == 3.0;
    }
    var block := "{" + Pair(("instance", "dev")) + "}";
    calc {
      Line("bar", map["instance" := "dev"], NoLabels, NaN, three, fmt);
      "bar" + block + " " + fmt(3.0) + "\n";
      { SeqAssoc("bar", "{" + Pair(("instance", "dev")), "}");
        SeqAssoc("bar", "{", Pair(("instance", "dev"))); }
      "bar" + "{" + Pair(("instance", "dev")) + "}" + " " + fmt(3.0) + "\n";
    }
  }

  // ---------------------------------------------------------------------
  // Metrics and the registry

  /** One header line: `# HELP name help` or `# TYPE name type`. */
  function HeaderLine(prefix: string, name: string, value: string): string
  {
    "# " + prefix + " " + name + " " + value + "\n"
  }

  /** The lines of the entries `keys` of `values`, one entry after the
      other. */
  function EntryLines(name: string, global: Labels, values: map<Labels, ValueState>, keys: seq<Labels>, fmt: FiniteFormat): seq<string>
    requires forall k :: k in keys ==> k in values
    decreases |keys|
  {
    if keys == [] then []
    else ValueLines(name, global, keys[0], values[keys[0]], fmt) + EntryLines(name, global, values, keys[1..], fmt)
  }

  /** Metric::printTo, line by line: nothing for a metric without values;
      otherwise the HELP and TYPE lines, then every entry's lines in
      ascending label-set order. */
  function MetricLines(name: string, help: string, typeName: string, global: Labels,
                       values: map<Labels, ValueState>, fmt: FiniteFormat): seq<string>
  {
    if values == map[] then []
    else
      [HeaderLine("HELP", name, help), HeaderLine("TYPE", name, typeName)]
      + EntryLines(name, global, values, SortedLabelSets(values), fmt)
  }

  /** The text Metric::printTo writes. */
  function MetricText(name: string, help: string, typeName: string, global: Labels,
                      values: map<Labels, ValueState>, fmt: FiniteFormat): string
  {
    Concat(MetricLines(name, help, typeName, global, values, fmt))
  }

  /** Two leading parts followed by the rest concatenate to the two parts
      followed by the concatenation of the rest. */
  lemma ConcatTwoHeads(x: string, y: string, rest: seq<string>)
    ensures Concat([x, y] + rest) == x + y + Concat(rest)
  {
    ConcatAppend([x, y], rest);
    assert Concat([y]) == y + "";
    assert y + "" == y;
  }

  /** A metric without values writes nothing; one with values writes its
      HELP line, then its TYPE line, then the lines of its entries taken in
      the order of SortedLabelSets (strictly ascending label-set order, each
      entry exactly once). */
  lemma MetricTextShape(name: string, help: string, typeName: string, global: Labels,
                        values: map<Labels, ValueState>, fmt: FiniteFormat)
    ensures values == map[] <==> MetricText(name, help, typeName, global, values, fmt) == ""
    ensures values != map[] ==>
      MetricText(name, help, typeName, global, values, fmt)
      == HeaderLine("HELP", name, help) + HeaderLine("TYPE", name, typeName)
         + Concat(EntryLines(name, global, values, SortedLabelSets(values), fmt))
  {
    if values != map[] {
      var help1, type1 := HeaderLine("HELP", name, help), HeaderLine("TYPE", name, typeName);
      MetricLinesSplit(name, help, typeName, global, values, fmt);
      ConcatTwoHeads(help1, type1, EntryLines(name, global, values, SortedLabelSets(values), fmt));
      assert |help1| > 0;
    }
  }

  /** `s` begins with `prefix`. */
  ghost predicate StartsWith(s: string, prefix: string)
  {
    |prefix| <= |s| && s[..|prefix|] == prefix
  }

  lemma StartsWithAppend(x: string, y: string, prefix: string)
    requires StartsWith(x, prefix)
    ensures StartsWith(x + y, prefix)
  {
    assert (x + y)[..|prefix|] == x[..|prefix|];
  }

  lemma LineStartsWithName(name: string, suffix: string, global: Labels, labels: Labels, le: Double, value: Double, fmt: FiniteFormat)
    ensures StartsWith(Line(name + suffix, global, labels, le, value, fmt), name)
  {
    var a := name + suffix;
    var b := a + PrintLabels(global, labels, le, fmt);
    var c := b + " ";
    var d := c + ToStr(value, fmt);
    assert StartsWith(name, name);
    StartsWithAppend(name, suffix, name);
    StartsWithAppend(a, PrintLabels(global, labels, le, fmt), name);
    StartsWithAppend(b, " ", name);
    StartsWithAppend(c, ToStr(value, fmt), name);
    StartsWithAppend(d, "\n", name);
  }

  /** Every line a value writes begins with the metric name. */
  lemma ValueLinesStartWithName(name: string, global: Labels, labels: Labels, state: ValueState, fmt: FiniteFormat)
    ensures forall line :: line in ValueLines(name, global, labels, state, fmt) ==> StartsWith(line, name)
  {
    match state
    case GaugeValue(v) =>
      LineStartsWithName(name, "", global, labels, NaN, v, fmt);
      assert name + "" == name;
    case CounterValue(v) =>
      LineStartsWithName(name, "", global, labels, NaN, v, fmt);
      assert name + "" == name;
    case HistogramValue(count, buckets, sum) =>
      var head := HistogramHead(name, global, labels, count, sum, fmt);
      var tail := BucketLines(name, global, labels, buckets, Thresholds(buckets), fmt);
      HistogramSplit(name, global, labels, state, fmt);
      HeadStartsWithName(name, global, labels, count, sum, fmt);
      BucketLinesStartWithName(name, global, labels, buckets, Thresholds(buckets), fmt);
      AllStartWithAppend(head, tail, name);
  }

  ghost predicate AllStartWith(lines: seq<string>, name: string)
  {
    forall line :: line in lines ==> StartsWith(line, name)
  }

  lemma AllStartWithAppend(x: seq<string>, y: seq<string>, name: string)
    requires AllStartWith(x, name) && AllStartWith(y, name)
    ensures AllStartWith(x + y, name)
  {
  }

  lemma HeadStartsWithName(name: string, global: Labels, labels: Labels, count: nat, sum: Double, fmt: FiniteFormat)
    ensures AllStartWith(HistogramHead(name, global, labels, count, sum, fmt), name)
  {
    LineStartsWithName(name, "_count", global, labels, NaN, AsDouble(count), fmt);
    LineStartsWithName(name, "_bucket", global, labels, PosInf, AsDouble(count), fmt);
    LineStartsWithName(name, "_sum", global, labels, NaN, sum, fmt);
  }

  lemma BucketLinesStartWithName(name: string, global: Labels, labels: Labels, buckets: map<real, nat>, ts: seq<real>, fmt: FiniteFormat)
    requires forall t :: t in ts ==> t in buckets
    ensures AllStartWith(BucketLines(name, global, labels, buckets, ts, fmt), name)
  {
    var lines := BucketLines(name, global, labels, buckets, ts, fmt);
    forall i | 0 <= i < |lines| ensures StartsWith(lines[i], name) {
      LineStartsWithName(name, "_bucket", global, labels, Finite(ts[i]), AsDouble(buckets[ts[i]]), fmt);
    }
  }

  lemma {:induction false} EntryLinesStartWithName(name: string, global: Labels, values: map<Labels, ValueState>,
                                                   keys: seq<Labels>, fmt: FiniteFormat)
    requires forall k :: k in keys ==> k in values
    ensures forall line :: line in EntryLines(name, global, values, keys, fmt) ==> StartsWith(line, name)
    decreases |keys|
  {
    if keys != [] {
      ValueLinesStartWithName(name, global, keys[0], values[keys[0]], fmt);
      EntryLinesStartWithName(name, global, values, keys[1..], fmt);
    }
  }

  lemma ValueLinesNonEmpty(name: string, global: Labels, labels: Labels, state: ValueState, fmt: FiniteFormat)
    ensures ValueLines(name, global, labels, state, fmt) != []
  {
    if state.HistogramValue? {
      HistogramLineCount(name, global, labels, state, fmt);
    }
  }

  lemma EntryLinesNonEmpty(name: string, global: Labels, values: map<Labels, ValueState>,
                           keys: seq<Labels>, fmt: FiniteFormat)
    requires forall k :: k in keys ==> k in values
    requires keys != []
    ensures EntryLines(name, global, values, keys, fmt) != []
  {
    ValueLinesNonEmpty(name, global, keys[0], values[keys[0]], fmt);
  }

  lemma NotComment(line: string, name: string)
    requires name != [] && name[0] != '#'
    requires StartsWith(line, name)
    ensures line[0] != '#'
  {
    assert line[0] == line[..|name|][0];
  }

  lemma EntryLinesNotComments(name: string, global: Labels, values: map<Labels, ValueState>,
                              keys: seq<Labels>, fmt: FiniteFormat)
    requires name != [] && name[0] != '#'
    requires forall k :: k in keys ==> k in values
    ensures var rest := EntryLines(name, global, values, keys, fmt);
      forall i :: 0 <= i < |rest| ==> StartsWith(rest[i], name) && rest[i][0] != '#'
  {
    var rest := EntryLines(name, global, values, keys, fmt);
    EntryLinesStartWithName(name, global, values, keys, fmt);
    forall i | 0 <= i < |rest| ensures StartsWith(rest[i], name) && rest[i][0] != '#' {
      assert rest[i] in rest;
      NotComment(rest[i], name);
    }
  }

  /** With a metric name that does not start with `#`, the HELP and TYPE
      lines are the only comment lines, and they come first; every other
      line begins with the metric name. */
  lemma OneHeaderPerMetric(name: string, help: string, typeName: string, global: Labels,
                           values: map<Labels, ValueState>, fmt: FiniteFormat)
    requires name != [] && name[0] != '#'
    requires values != map[]
    ensures var lines := MetricLines(name, help, typeName, global, values, fmt);
      && |lines| >= 3
      && lines[0] == HeaderLine("HELP", name, help)
      && lines[1] == HeaderLine("TYPE", name, typeName)
      && forall i :: 2 <= i < |lines| ==> StartsWith(lines[i], name) && lines[i][0] != '#'
  {
    var keys := SortedLabelSets(values);
    var k :| k in values;
    assert k in keys;
    EntryLinesNonEmpty(name, global, values, keys, fmt);
    EntryLinesNotComments(name, global, values, keys, fmt);
    var head := [HeaderLine("HELP", name, help), HeaderLine("TYPE", name, typeName)];
    MetricLinesSplit(name, help, typeName, global, values, fmt);
    AppendIndex(head, EntryLines(name, global, values, keys, fmt));
  }

  lemma MetricLinesSplit(name: string, help: string, typeName: string, global: Labels,
                         values: map<Labels, ValueState>, fmt: FiniteFormat)
    requires values != map[]
    ensures MetricLines(name, help, typeName, global, values, fmt)
            == [HeaderLine("HELP", name, help), HeaderLine("TYPE", name, typeName)]
               + EntryLines(name, global, values, SortedLabelSets(values), fmt)
  {
  }

  /** The entries' lines are the first entry's lines followed by the rest's. */
  lemma EntryLinesLength(name: string, global: Labels, values: map<Labels, ValueState>, keys: seq<Labels>, fmt: FiniteFormat)
    requires keys != [] && forall k :: k in keys ==> k in values
    ensures |EntryLines(name, global, values, keys, fmt)|
            == |ValueLines(name, global, keys[0], values[keys[0]], fmt)| + |EntryLines(name, global, values, keys[1..], fmt)|
  {
  }

  lemma MulStep(k: nat, j: nat, m: nat)
    requires k == j + 1
    ensures m + j * m == k * m
  {
  }

  /** When every entry writes `m` lines, the entries write `m` per entry. */
  lemma {:induction false} UniformEntryLineCount(name: string, global: Labels, values: map<Labels, ValueState>,
                                                 keys: seq<Labels>, m: nat, fmt: FiniteFormat)
    requires forall k :: k in keys ==> k in values && |ValueLines(name, global, k, values[k], fmt)| == m
    ensures |EntryLines(name, global, values, keys, fmt)| == |keys| * m
    decreases |keys|
  {
    if keys != [] {
      var rest := keys[1..];
      assert keys[0] in keys;
      EntryLinesLength(name, global, values, keys, fmt);
      UniformEntryLineCount(name, global, values, rest, m, fmt);
      MulStep(|keys|, |rest|, m);
    }
  }

  /** The number of lines of the entries `keys` when every value is a
      counter or a gauge: one per entry. */
  lemma SimpleEntryLineCount(name: string, global: Labels, values: map<Labels, ValueState>,
                             keys: seq<Labels>, fmt: FiniteFormat)
    requires forall k :: k in keys ==> k in values && !values[k].HistogramValue?
    ensures |EntryLines(name, global, values, keys, fmt)| == |keys|
  {
    UniformEntryLineCount(name, global, values, keys, 1, fmt);
  }

  /** A histogram value writes three lines plus one per bucket. */
  lemma HistogramLineCount(name: string, global: Labels, labels: Labels, h: ValueState, fmt: FiniteFormat)
    requires h.HistogramValue?
    ensures |ValueLines(name, global, labels, h, fmt)| == 3 + |h.buckets|
  {
    var ts := Thresholds(h.buckets);
  }

  /** The number of lines of the entries `keys` when every value is a
      histogram with `n` buckets: three plus `n` per entry. */
  lemma HistogramEntryLineCount(name: string, global: Labels, values: map<Labels, ValueState>,
                                keys: seq<Labels>, n: nat, fmt: FiniteFormat)
    requires forall k :: k in keys ==> k in values && values[k].HistogramValue? && |values[k].buckets| == n
    ensures |EntryLines(name, global, values, keys, fmt)| == |keys| * (3 + n)
  {
    forall k | k in keys
      ensures |ValueLines(name, global, k, values[k], fmt)| == 3 + n
    {
      HistogramLineCount(name, global, k, values[k], fmt);
    }
    UniformEntryLineCount(name, global, values, keys, 3 + n, fmt);
  }

  /** Registry::printTo: the texts of the registered metrics, one after the
      other, with nothing before, between or after them. */
  function RegistryText(metricTexts: seq<string>): string
  {
    Concat(metricTexts)
  }

  /** A metric that writes nothing can be dropped from the registry's
      output wherever it stands. */
  lemma SilentMetricInvisible(before: seq<string>, after: seq<string>)
    ensures RegistryText(before + [""] + after) == RegistryText(before + after)
  {
    ConcatAppend(before + [""], after);
    ConcatAppend(before, [""]);
    ConcatAppend(before, after);
  }
}
