/**
 * Java's numeric conventions that the models rely on: the int bounds, and
 * the IEEE 754 outcomes of a double division that Java produces instead of
 * failing.
 */
module Numbers {

  /** Java's Integer.MAX_VALUE and Integer.MIN_VALUE. */
  const IntMax: int := 0x7fff_ffff
  const IntMin: int := -0x8000_0000

  function Min(a: int, b: int): int { if a <= b then a else b }
  function Max(a: int, b: int): int { if a >= b then a else b }

  /**
   * A Java double, as a real number or one of the IEEE 754 special values
   * (rounding is not modelled).
   */
  datatype Double = Finite(value: real) | PositiveInfinity | NegativeInfinity | NaN

  /**
   * x / y for a double x and an int divisor y, which Java widens to a
   * double: a division by zero gives an infinity of the sign of x, or NaN
   * for 0 / 0.
   */
  function Divide(x: real, y: int): (r: Double)
    ensures r.Finite? <==> y != 0
    ensures r.Finite? ==> r.value * (y as real) == x
    ensures r == NaN <==> y == 0 && x == 0.0
    ensures r == PositiveInfinity <==> y == 0 && x > 0.0
  {
    Quotient(x, Finite(y as real))
  }

  /**
   * x / h for a finite x and any double h: a zero divisor gives an
   * infinity of the sign of x, or NaN for 0 / 0; an infinite divisor gives
   * 0 (the sign of a zero is not modelled); NaN stays NaN.
   */
  function Quotient(x: real, h: Double): (r: Double)
    ensures h.Finite? && h.value != 0.0 ==> r.Finite? && r.value * h.value == x
    ensures (h == PositiveInfinity || h == NegativeInfinity) ==> r == Finite(0.0)
    ensures h == NaN ==> r == NaN
    ensures h == Finite(0.0) ==> r == (if x > 0.0 then PositiveInfinity else if x < 0.0 then NegativeInfinity else NaN)
  {
    match h
    case Finite(y) =>
      if y != 0.0 then Finite(x / y)
      else if x > 0.0 then PositiveInfinity
      else if x < 0.0 then NegativeInfinity
      else NaN
    case PositiveInfinity => Finite(0.0)
    case NegativeInfinity => Finite(0.0)
    case NaN => NaN
  }

  /** q * |q| for a double q: the square, carrying the sign of q. */
  function SignedSquare(q: Double): (r: Double)
    ensures q.Finite? ==> r.Finite? && (q.value >= 0.0 ==> r.value == q.value * q.value) && (q.value < 0.0 ==> r.value == -(q.value * q.value))
    ensures !q.Finite? ==> r == q
  {
    match q
    case Finite(v) => Finite(if v >= 0.0 then v * v else -(v * v))
    case _ => q
  }

  /** Java's Math.max of a double h and a finite w: NaN wins, an infinity is compared as one. */
  function MaxDouble(h: Double, w: real): (r: Double)
    ensures h.Finite? ==> r == Finite(if h.value >= w then h.value else w)
    ensures h == NegativeInfinity ==> r == Finite(w)
    ensures h == PositiveInfinity || h == NaN ==> r == h
  {
    match h
    case Finite(v) => Finite(if v >= w then v else w)
    case NegativeInfinity => Finite(w)
    case _ => h
  }
}
