/** Go's integer division and remainder. Dafny's `/` and `%` on `int` are
    Euclidean; Go truncates the quotient toward zero, and the remainder takes
    the sign of the dividend. The pagination code divides record counts and
    page sizes that may be negative, so the Go operators are written out here. */
module GoInt {

  function Abs(x: int): int
  {
    if x < 0 then -x else x
  }

  /** Go's `a / b`: the quotient truncated toward zero. What is left over is
      smaller than the divisor in magnitude and never has the opposite sign
      of the dividend. */
  function Quot(a: int, b: int): (q: int)
    requires b != 0
    ensures a >= 0 ==> 0 <= a - q * b < Abs(b)
    ensures a < 0 ==> -Abs(b) < a - q * b <= 0
    ensures (a >= 0 && b > 0) || (a <= 0 && b < 0) ==> q >= 0
    ensures (a >= 0 && b < 0) || (a <= 0 && b > 0) ==> q <= 0
  {
    var m := Abs(a) / Abs(b);
    var q := if (a >= 0) == (b > 0) then m else -m;
    TruncatedQuotient(a, b, m, q);
    q
  }

  /** The quotient of the magnitudes, given the sign the operands agree on,
      leaves a remainder with the dividend's sign. */
  lemma TruncatedQuotient(a: int, b: int, m: int, q: int)
    requires b != 0 && m == Abs(a) / Abs(b)
    requires q == if (a >= 0) == (b > 0) then m else -m
    ensures a >= 0 ==> 0 <= a - q * b < Abs(b)
    ensures a < 0 ==> -Abs(b) < a - q * b <= 0
    ensures m >= 0
  {
    EuclidOnNaturals(Abs(a), Abs(b));
    var r0 := Abs(a) - m * Abs(b);
    if a >= 0 && b > 0 {
      assert a - q * b == r0;
    } else if a >= 0 {
      assert q * b == m * Abs(b);
    } else if b > 0 {
      assert q * b == -(m * Abs(b));
    } else {
      assert q * b == -(m * Abs(b));
    }
  }

  lemma EuclidOnNaturals(a: int, b: int)
    requires a >= 0 && b > 0
    ensures 0 <= a - (a / b) * b < b && a / b >= 0
  {
  }

  /** Go's `a % b`: together with `Quot` it satisfies Go's law
      `(a / b) * b + a % b == a`. */
  function Rem(a: int, b: int): (r: int)
    requires b != 0
    ensures Quot(a, b) * b + r == a
    ensures Abs(r) < Abs(b)
    ensures r == 0 || (r < 0 <==> a < 0)
  {
    if a >= 0 then a % Abs(b) else -((-a) % Abs(b))
  }
}
