/**
 * Integer division and remainder as C performs them on `int`: the quotient
 * is truncated toward zero and the remainder takes the sign of the dividend
 * (section 6.5.5 of ISO/IEC 9899:1999). Dafny's own `/` and `%` are
 * Euclidean, so the engine's uses of `/` and `%` on possibly negative
 * offsets go through these two functions.
 */
module CInt {

  /** C's `a / b` for a positive divisor. */
  function Div(a: int, b: int): int
    requires b > 0
  {
    if a >= 0 then a / b else -((-a) / b)
  }

  /** C's `a % b` for a positive divisor. */
  function Rem(a: int, b: int): int
    requires b > 0
  {
    a - b * Div(a, b)
  }

  /** The defining laws of C division: `(a/b)*b + a%b == a`, the remainder is
      smaller than the divisor in magnitude and never has the opposite sign of
      the dividend. */
  lemma TruncatedDivision(a: int, b: int)
    requires b > 0
    ensures Div(a, b) * b + Rem(a, b) == a
    ensures a >= 0 ==> 0 <= Rem(a, b) < b && Div(a, b) == a / b && Rem(a, b) == a % b
    ensures a < 0 ==> -b < Rem(a, b) <= 0 && Div(a, b) <= 0
  {
    if a < 0 {
      var q, r := (-a) / b, (-a) % b;
      assert -a == q * b + r && 0 <= r < b;
      assert Div(a, b) == -q;
      assert Rem(a, b) == a + b * q;
      assert a + b * q == -r;
    }
  }
}
