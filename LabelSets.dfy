/**
 * Label sets: `Labels` is a std::map from label name to label value, so a
 * name has at most one value and iteration visits the names in ascending
 * std::string order. Label sets are themselves the keys of each metric's
 * std::map, ordered by std::map's lexicographic comparison of their
 * (name, value) pairs.
 */
module LabelSets {
  import opened Order

  type Labels = map<string, string>

  /** The empty label set: the key of a metric's default value. */
  const NoLabels: Labels := map[]

  /** std::string comparison, character by character. */
  predicate CharLess(x: char, y: char)
  {
    x < y
  }

  predicate StrLess(a: string, b: string)
  {
    LexLess(a, b, CharLess)
  }

  /** std::pair comparison of two (name, value) entries. */
  predicate EntryLess(p: (string, string), q: (string, string))
  {
    StrLess(p.0, q.0) || (p.0 == q.0 && StrLess(p.1, q.1))
  }

  lemma StrLessStrictTotal()
    ensures StrictTotal(StrLess)
  {
    assert StrictTotal(CharLess);
    forall a: string ensures !StrLess(a, a) {
      LexIrreflexive(a, CharLess);
    }
    forall a: string, b: string, c: string | StrLess(a, b) && StrLess(b, c)
      ensures StrLess(a, c)
    {
      LexTransitive(a, b, c, CharLess);
    }
    forall a: string, b: string | a != b ensures StrLess(a, b) || StrLess(b, a) {
      LexConnected(a, b, CharLess);
    }
  }

  lemma EntryLessStrictTotal()
    ensures StrictTotal(EntryLess)
  {
    StrLessStrictTotal();
  }

  /** The label names of `l` in iteration order. */
  function Names(l: Labels): (ks: seq<string>)
    ensures |ks| == |l|
    ensures forall k :: k in ks <==> k in l
    ensures Ascending(ks, StrLess)
  {
    StrLessStrictTotal();
    Elements(l.Keys, StrLess)
  }

  /** The (name, value) pairs of `l` in iteration order. */
  function Entries(l: Labels): (es: seq<(string, string)>)
    ensures |es| == |l|
    ensures forall i :: 0 <= i < |es| ==> es[i].0 in l && l[es[i].0] == es[i].1
  {
    var ks := Names(l);
    seq(|ks|, i requires 0 <= i < |ks| => (ks[i], l[ks[i]]))
  }

  /** A label block never repeats a label name: the entries of a label set
      have pairwise distinct names, in strictly ascending order. */
  lemma EntriesDistinctNames(l: Labels)
    ensures forall i, j :: 0 <= i < j < |Entries(l)| ==> StrLess(Entries(l)[i].0, Entries(l)[j].0)
    ensures forall i, j :: 0 <= i < j < |Entries(l)| ==> Entries(l)[i].0 != Entries(l)[j].0
  {
    var ks := Names(l);
    StrLessStrictTotal();
    AscendingDistinct(ks, StrLess);
    assert forall i :: 0 <= i < |ks| ==> Entries(l)[i].0 == ks[i];
  }

  /** A pair occurs among the entries exactly when the label set maps its
      name to its value. */
  lemma EntriesMembership(l: Labels, k: string, v: string)
    ensures (k, v) in Entries(l) <==> k in l && l[k] == v
  {
    var ks := Names(l);
    if k in l && l[k] == v {
      var i :| 0 <= i < |ks| && ks[i] == k;
      assert Entries(l)[i] == (k, v);
    }
  }

  lemma EntriesInjective(a: Labels, b: Labels)
    requires Entries(a) == Entries(b)
    ensures a == b
  {
    forall k | k in a ensures k in b && b[k] == a[k] {
      EntriesMembership(a, k, a[k]);
      EntriesMembership(b, k, a[k]);
    }
    forall k | k in b ensures k in a {
      EntriesMembership(b, k, b[k]);
      EntriesMembership(a, k, b[k]);
    }
  }

  /** std::map<Labels, …> ordering of label sets. */
  predicate LabelsLess(a: Labels, b: Labels)
  {
    LexLess(Entries(a), Entries(b), EntryLess)
  }

  lemma LabelsLessStrictTotal()
    ensures StrictTotal(LabelsLess)
  {
    EntryLessStrictTotal();
    forall a: Labels ensures !LabelsLess(a, a) {
      LexIrreflexive(Entries(a), EntryLess);
    }
    forall a: Labels, b: Labels, c: Labels | LabelsLess(a, b) && LabelsLess(b, c)
      ensures LabelsLess(a, c)
    {
      LexTransitive(Entries(a), Entries(b), Entries(c), EntryLess);
    }
    forall a: Labels, b: Labels | a != b ensures LabelsLess(a, b) || LabelsLess(b, a) {
      if Entries(a) == Entries(b) {
        EntriesInjective(a, b);
      }
      LexConnected(Entries(a), Entries(b), EntryLess);
    }
  }

  /** The keys of a metric's map of values in iteration order. */
  function SortedLabelSets<V>(m: map<Labels, V>): (ks: seq<Labels>)
    ensures |ks| == |m|
    ensures forall k :: k in ks <==> k in m
    ensures Ascending(ks, LabelsLess)
  {
    LabelsLessStrictTotal();
    Elements(m.Keys, LabelsLess)
  }

  /** Whether every entry of `es` is present in `other` with an equal value,
      checked entry by entry as the loop of Labels::is_subset_of does. */
  function AllPresent(es: seq<(string, string)>, other: Labels): (r: bool)
    ensures r <==> forall i :: 0 <= i < |es| ==> es[i].0 in other && other[es[i].0] == es[i].1
  {
    if es == [] then true
    else if es[0].0 !in other then false
    else if other[es[0].0] != es[0].1 then false
    else AllPresent(es[1..], other)
  }

  /** Labels::is_subset_of: every (name, value) pair of `l` also occurs in
      `other`. */
  function IsSubsetOf(l: Labels, other: Labels): (r: bool)
    ensures r <==> forall k :: k in l ==> k in other && other[k] == l[k]
  {
    var es := Entries(l);
    var r := AllPresent(es, other);
    assert forall k :: k in l ==> (k, l[k]) in es by {
      forall k | k in l ensures (k, l[k]) in es {
        EntriesMembership(l, k, l[k]);
      }
    }
    r
  }

  /** Writing the entry of one label set twice leaves the second value. */
  lemma UpdateTwice<V>(m: map<Labels, V>, k: Labels, a: V, b: V)
    ensures m[k := a][k := b] == m[k := b]
  {
  }

  /** The empty label set is a subset of every label set, and every label set
      is a subset of itself. */
  lemma SubsetBounds(l: Labels)
    ensures IsSubsetOf(NoLabels, l)
    ensures IsSubsetOf(l, l)
  {
  }

  /** Being a subset is transitive. */
  lemma SubsetTransitive(a: Labels, b: Labels, c: Labels)
    requires IsSubsetOf(a, b) && IsSubsetOf(b, c)
    ensures IsSubsetOf(a, c)
  {
  }
}
