/**
 * Orders used by the ordered containers of the library: a std::map (and a
 * std::set) visits its keys in ascending order of a strict total order.
 * This module defines strict total orders, the lexicographic order that
 * std::string and std::map comparison use, and the ascending enumeration of a
 * finite set of keys.
 */
module Order {

  /** `less` is irreflexive, transitive and relates any two distinct values. */
  ghost predicate StrictTotal<T(!new)>(less: (T, T) -> bool)
  {
    && (forall x :: !less(x, x))
    && (forall x, y, z :: less(x, y) && less(y, z) ==> less(x, z))
    && (forall x, y :: x != y ==> less(x, y) || less(y, x))
  }

  /** `m` is the least element of `s`. */
  predicate IsLeast<T>(m: T, s: set<T>, less: (T, T) -> bool)
  {
    m in s && forall x :: x in s && x != m ==> less(m, x)
  }

  /** `r` lists its elements in strictly ascending order. */
  ghost predicate Ascending<T>(r: seq<T>, less: (T, T) -> bool)
  {
    forall i, j :: 0 <= i < j < |r| ==> less(r[i], r[j])
  }

  /** An ascending sequence has no repeated element. */
  lemma AscendingDistinct<T(!new)>(r: seq<T>, less: (T, T) -> bool)
    requires StrictTotal(less)
    requires Ascending(r, less)
    ensures forall j, k :: 0 <= j < |r| && 0 <= k < |r| && j != k ==> r[j] != r[k]
  {
    forall j, k | 0 <= j < |r| && 0 <= k < |r| && j != k ensures r[j] != r[k] {
      if j < k {
        assert less(r[j], r[k]);
      } else {
        assert less(r[k], r[j]);
      }
    }
  }

  lemma {:induction false} LeastExists<T(!new)>(s: set<T>, less: (T, T) -> bool)
    requires StrictTotal(less)
    requires s != {}
    ensures exists m :: IsLeast(m, s, less)
    decreases |s|
  {
    var x :| x in s;
    if s == {x} {
      assert IsLeast(x, s, less);
    } else {
      LeastExists(s - {x}, less);
      var m :| IsLeast(m, s - {x}, less);
      if less(m, x) {
        assert IsLeast(m, s, less);
      } else {
        assert IsLeast(x, s, less);
      }
    }
  }

  /** The least element of a non-empty finite set. */
  function Least<T(!new)>(s: set<T>, less: (T, T) -> bool): (m: T)
    requires StrictTotal(less)
    requires s != {}
    ensures m in s
    ensures forall x :: x in s && x != m ==> less(m, x)
  {
    LeastExists(s, less);
    var m :| IsLeast(m, s, less);
    m
  }

  /** The elements of `s` in ascending order: the order in which an ordered
      container visits its keys. */
  function Elements<T(!new)>(s: set<T>, less: (T, T) -> bool): (r: seq<T>)
    requires StrictTotal(less)
    ensures |r| == |s|
    ensures forall x :: x in r <==> x in s
    ensures Ascending(r, less)
    decreases |s|
  {
    if s == {} then []
    else
      var m := Least(s, less);
      var rest := Elements(s - {m}, less);
      assert forall j :: 0 <= j < |rest| ==> rest[j] in s - {m};
      [m] + rest
  }

  /** std::lexicographical_compare: the first position at which one side is
      less than the other decides; a proper prefix is less. */
  function LexLess<T>(a: seq<T>, b: seq<T>, less: (T, T) -> bool): bool
    decreases |a|
  {
    if |b| == 0 then false
    else if |a| == 0 then true
    else if less(a[0], b[0]) then true
    else if less(b[0], a[0]) then false
    else LexLess(a[1..], b[1..], less)
  }

  lemma {:induction false} LexIrreflexive<T(!new)>(a: seq<T>, less: (T, T) -> bool)
    requires StrictTotal(less)
    ensures !LexLess(a, a, less)
    decreases |a|
  {
    if |a| > 0 {
      LexIrreflexive(a[1..], less);
    }
  }

  lemma {:induction false} LexTransitive<T(!new)>(a: seq<T>, b: seq<T>, c: seq<T>, less: (T, T) -> bool)
    requires StrictTotal(less)
    requires LexLess(a, b, less) && LexLess(b, c, less)
    ensures LexLess(a, c, less)
    decreases |a|
  {
    if |a| > 0 && |b| > 0 && |c| > 0 {
      if !less(a[0], b[0]) && !less(b[0], c[0]) {
        LexTransitive(a[1..], b[1..], c[1..], less);
      }
    }
  }

  lemma {:induction false} LexConnected<T(!new)>(a: seq<T>, b: seq<T>, less: (T, T) -> bool)
    requires StrictTotal(less)
    requires a != b
    ensures LexLess(a, b, less) || LexLess(b, a, less)
    decreases |a|
  {
    if |a| > 0 && |b| > 0 && !less(a[0], b[0]) && !less(b[0], a[0]) {
      assert a[0] == b[0];
      assert a == [a[0]] + a[1..] && b == [b[0]] + b[1..];
      LexConnected(a[1..], b[1..], less);
    }
  }
}
