// Value types shared by every component: an optional value and the
// floating-point numbers of the worker, with their IEEE equality.

module Base {

  datatype Option<+T> = None | Some(value: T) {
    function GetOr(default: T): T {
      match this
      case Some(v) => v
      case None => default
    }
  }

  /** A Python float: a finite real, an infinity, or NaN.
      Rounding to the nearest double is not modelled. */
  datatype Num = Finite(r: real) | Inf(negative: bool) | NaN

  /** Python's `==` on floats: NaN is equal to nothing, itself included. */
  predicate FloatEq(a: Num, b: Num)
  {
    match (a, b)
    case (Finite(x), Finite(y)) => x == y
    case (Inf(n), Inf(m)) => n == m
    case _ => false
  }

  /** Float equality is structural equality on every value but NaN. */
  lemma FloatEqIsEqualityExceptNaN(a: Num, b: Num)
    ensures FloatEq(a, b) <==> a == b && !a.NaN?
  {
  }

  function Max(a: int, b: int): (m: int)
    ensures m >= a && m >= b && (m == a || m == b)
  {
    if a >= b then a else b
  }
}
