/**
 * The C++ `double` as the library uses it: a finite value (a real number,
 * without IEEE-754 rounding or overflow), NaN, or one of the two infinities.
 * Only the comparisons and the addition the library performs are defined,
 * with IEEE-754 semantics for the non-finite values.
 */
module Doubles {

  datatype Double = Finite(r: real) | NaN | PosInf | NegInf

  /** Formats a finite value, as snprintf "%g" does; the digits are not
      modelled, so the formatter is a parameter of every renderer. */
  type FiniteFormat = real -> string

  const Zero: Double := Finite(0.0)

  /** `value > 0.0`: false for NaN and for negative infinity. */
  predicate IsPositive(d: Double)
  {
    match d
    case Finite(r) => r > 0.0
    case PosInf => true
    case _ => false
  }

  /** `a <= b`: false whenever one side is NaN. */
  predicate LessOrEqual(a: Double, b: Double)
  {
    match (a, b)
    case (NaN, _) => false
    case (_, NaN) => false
    case (NegInf, _) => true
    case (_, PosInf) => true
    case (Finite(x), Finite(y)) => x <= y
    case _ => false
  }

  /** `a + b`: NaN absorbs, opposite infinities give NaN, an infinity absorbs
      a finite value. */
  function Add(a: Double, b: Double): Double
  {
    match (a, b)
    case (NaN, _) => NaN
    case (_, NaN) => NaN
    case (PosInf, NegInf) => NaN
    case (NegInf, PosInf) => NaN
    case (PosInf, _) => PosInf
    case (_, PosInf) => PosInf
    case (NegInf, _) => NegInf
    case (_, NegInf) => NegInf
    case (Finite(x), Finite(y)) => Finite(x + y)
  }

  /** double_to_str: NaN first, then the two infinities by sign, then the
      "%g" formatting of a finite value. */
  function ToStr(d: Double, fmt: FiniteFormat): (s: string)
    ensures d.NaN? ==> s == "NaN"
    ensures d.PosInf? ==> s == "+Inf"
    ensures d.NegInf? ==> s == "-Inf"
    ensures d.Finite? ==> s == fmt(d.r)
  {
    match d
    case NaN => "NaN"
    case PosInf => "+Inf"
    case NegInf => "-Inf"
    case Finite(r) => fmt(r)
  }

  /** A threshold comparison is monotone in the threshold: a value at or
      below `t1` is at or below every `t2 >= t1`. */
  lemma LessOrEqualMonotone(v: Double, t1: real, t2: real)
    requires t1 <= t2
    requires LessOrEqual(v, Finite(t1))
    ensures LessOrEqual(v, Finite(t2))
  {
  }

  /** Whatever the finite formatter produces, the three non-finite values
      print as three distinct tokens, so a reader of the output can tell
      them apart. */
  lemma NonFiniteTokensDistinct(fmt: FiniteFormat, a: Double, b: Double)
    requires !a.Finite? && !b.Finite? && a != b
    ensures ToStr(a, fmt) != ToStr(b, fmt)
  {
    var sa, sb := ToStr(a, fmt), ToStr(b, fmt);
    assert sa[0] != sb[0];
  }
}
