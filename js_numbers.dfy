/** JavaScript numbers as the parser sees them: a finite value (an exact
    real here), the two infinities, or NaN; with JavaScript's truthiness,
    `||` and `Math.min`/`Math.max`. */
module JsNumbers {

  datatype Num = Finite(value: real) | PosInfinity | NegInfinity | NaN

  /** The number counts as false in a boolean context (0, -0 or NaN). */
  predicate Falsy(x: Num)
  {
    x == Finite(0.0) || x == NaN
  }

  /** `x || fallback` for a number. */
  function OrElse(x: Num, fallback: Num): Num
  {
    if Falsy(x) then fallback else x
  }

  /** Position of a non-NaN number on the extended line, used to compare
      an infinity with a finite value. */
  predicate AtMost(x: Num, y: Num)
    requires !x.NaN? && !y.NaN?
  {
    match (x, y)
    case (NegInfinity, _) => true
    case (_, PosInfinity) => true
    case (Finite(a), Finite(b)) => a <= b
    case _ => false
  }

  /** `Math.min(x, y)`: NaN when either argument is NaN, otherwise the
      smaller of the two. */
  function MathMin(x: Num, y: Num): (r: Num)
    ensures r.NaN? <==> x.NaN? || y.NaN?
    ensures !r.NaN? ==> (r == x || r == y) && AtMost(r, x) && AtMost(r, y)
  {
    if x.NaN? || y.NaN? then NaN else if AtMost(x, y) then x else y
  }

  /** `Math.max(x, y)`: NaN when either argument is NaN, otherwise the
      larger of the two. */
  function MathMax(x: Num, y: Num): (r: Num)
    ensures r.NaN? <==> x.NaN? || y.NaN?
    ensures !r.NaN? ==> (r == x || r == y) && AtMost(x, r) && AtMost(y, r)
  {
    if x.NaN? || y.NaN? then NaN else if AtMost(x, y) then y else x
  }
}
