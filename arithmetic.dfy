/** Facts about integer multiplication and Euclidean division used by the other modules. */
module Arithmetic {

  lemma MulMonotone(a: int, b: int, n: int)
    requires a <= b && 0 <= n
    ensures a * n <= b * n
  {
    assert (b - a) * n >= 0;
  }

  /** A quotient and remainder with the remainder in [0, d) are the ones `/` and `%` give. */
  lemma DivModUnique(x: int, d: int, q: int, r: int)
    requires d > 0 && 0 <= r < d && x == q * d + r
    ensures x / d == q && x % d == r
  {
    var q', r' := x / d, x % d;
    assert d * q' + r' == d * q + r;
    assert d * (q' - q) == r - r';
    if q' - q >= 1 {
      MulMonotone(1, q' - q, d);
      assert false;
    } else if q' - q <= -1 {
      MulMonotone(q' - q, -1, d);
      assert false;
    }
  }

  /** The Euclidean quotient of a non-negative number brackets it between multiples of the divisor. */
  lemma DivBracket(a: int, b: int)
    requires a >= 0 && b > 0
    ensures 0 <= a / b && 0 <= (a / b) * b <= a < (a / b) * b + b
  {
    assert a == (a / b) * b + a % b;
    MulMonotone(0, a / b, b);
  }
}
