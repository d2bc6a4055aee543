/**
 * JavaScript numbers as the workout form produces them: a finite real value,
 * or one of the three non-finite IEEE-754 values. Rounding is not modelled:
 * finite results are exact reals. Signed zero is not distinguished.
 */
module Numbers {

  datatype Num = Finite(r: real) | NaN | Infinity | NegInfinity

  /** `Number.isFinite(x)`. */
  predicate IsFinite(x: Num)
    ensures IsFinite(x) <==> !(x.NaN? || x.Infinity? || x.NegInfinity?)
  {
    x.Finite?
  }

  /** JavaScript's `x > 0`: true for +Infinity, false for NaN and -Infinity. */
  predicate IsPositive(x: Num)
    ensures IsPositive(x) ==> !x.NaN? && !x.NegInfinity?
    ensures x.Finite? ==> (IsPositive(x) <==> x.r > 0.0)
    ensures IsFinite(x) && IsPositive(x) <==> IsFinitePositive(x)
  {
    match x
    case Finite(v) => v > 0.0
    case Infinity => true
    case _ => false
  }

  /** A finite value strictly greater than zero. */
  predicate IsFinitePositive(x: Num) {
    x.Finite? && x.r > 0.0
  }

  /**
   * JavaScript's `a / b`. A zero divisor counts as +0, so `x / 0` is
   * +Infinity, -Infinity or NaN according to the sign of `x`.
   */
  function Divide(a: Num, b: Num): (q: Num)
    ensures a.NaN? || b.NaN? ==> q.NaN?
    ensures a.Finite? && b.Finite? && b.r != 0.0 ==> q.Finite? && q.r * b.r == a.r
    ensures IsPositive(a) && IsFinitePositive(b) ==> IsPositive(q)
    ensures IsFinitePositive(a) && IsFinitePositive(b) ==> IsFinitePositive(q)
    ensures a.Finite? && !b.Finite? && !b.NaN? ==> q == Finite(0.0)
  {
    match (a, b)
    case (NaN, _) => NaN
    case (_, NaN) => NaN
    case (Finite(x), Finite(y)) =>
      if y != 0.0 then Finite(x / y)
      else if x > 0.0 then Infinity
      else if x < 0.0 then NegInfinity
      else NaN
    case (Finite(_), _) => Finite(0.0)
    case (_, Finite(y)) => if a.Infinity? == (y >= 0.0) then Infinity else NegInfinity
    case _ => NaN
  }
}
