/** C `int` semantics that the line library relies on: the limits of a 32-bit
    `int` and the truncating `/` and `%` operators (Dafny's own are Euclidean). */
module CInt {

  const INT_MAX: int := 0x7fff_ffff
  const INT_MIN: int := -0x8000_0000

  function Abs(a: int): (r: nat)
    ensures r == a || r == -a
  {
    if a < 0 then -a else a
  }

  /** C's `a / b`: the quotient of the magnitudes, negated when the signs
      differ, so it is truncated toward zero. */
  function CDiv(a: int, b: int): (q: int)
    requires b != 0
    ensures Abs(q) == Abs(a) / Abs(b)
    ensures q == 0 || ((q < 0) <==> ((a < 0) != (b < 0)))
  {
    DivFloor(Abs(a), Abs(b));
    if (a < 0) == (b < 0) then Abs(a) / Abs(b) else -(Abs(a) / Abs(b))
  }

  /** The truncating quotient is the one whose remainder `a - q * b` is
      smaller than `b` in magnitude and is zero or carries the sign of `a`. */
  lemma CDivTruncates(a: int, b: int)
    requires b != 0
    ensures Abs(a - CDiv(a, b) * b) < Abs(b)
    ensures a - CDiv(a, b) * b == 0 || ((a - CDiv(a, b) * b < 0) == (a < 0))
  {
    var n, m := Abs(a) / Abs(b), Abs(a) % Abs(b);
    var q := CDiv(a, b);
    assert Abs(a) == n * Abs(b) + m && 0 <= m < Abs(b);
    MulNeg(n, b);
    if (a < 0) == (b < 0) {
      assert q == n;
    } else {
      assert q == -n;
    }
    assert a - q * b == if a < 0 then -m else m;
  }

  lemma MulNeg(x: int, y: int)
    ensures (-x) * y == -(x * y) && x * (-y) == -(x * y)
  {
  }

  /** C's `a % b`: the remainder left by the truncating quotient. */
  function CMod(a: int, b: int): (r: int)
    requires b != 0
    ensures a == CDiv(a, b) * b + r
    ensures Abs(r) < Abs(b)
    ensures r == 0 || ((r < 0) == (a < 0))
  {
    CDivTruncates(a, b);
    a - CDiv(a, b) * b
  }

  /** A multiple of `b` divides back exactly, whatever the signs. */
  lemma CDivExact(q: int, b: int)
    requires b != 0
    ensures CDiv(q * b, b) == q
  {
    var n := Abs(q * b);
    assert n == Abs(q) * Abs(b);
    DivUnique(n, Abs(b), Abs(q), 0);
  }

  /** On a non-negative dividend and a positive divisor, C and Dafny agree. */
  lemma CDivModNonNegative(a: int, b: int)
    requires 0 <= a && 0 < b
    ensures CDiv(a, b) == a / b && CMod(a, b) == a % b
  {
  }

  /** Euclidean division is determined by its quotient-remainder equation. */
  lemma DivUnique(a: int, b: int, q: int, r: int)
    requires 0 < b && a == q * b + r && 0 <= r < b
    ensures a / b == q && a % b == r
  {
    var q0, r0 := a / b, a % b;
    assert (q - q0) * b == r0 - r;
    MulAwayFromZero(q - q0, b);
  }

  lemma MulAwayFromZero(d: int, b: int)
    requires 0 < b
    ensures 1 <= d ==> b <= d * b
    ensures d <= -1 ==> d * b <= -b
  {
  }

  lemma DivFloor(a: nat, b: int)
    requires 0 < b
    ensures 0 <= a / b && (a / b) * b <= a
  {
  }

  lemma MulLeft(a: int, b: int, c: int)
    requires a <= b && 0 <= c
    ensures a * c <= b * c
  {
  }

  lemma MulGrows(n: nat, k: int)
    requires 1 <= k
    ensures n <= n * k
  {
  }

  lemma ModAddDivisor(a: int, b: int)
    requires 0 < b
    ensures (a + b) % b == a % b
  {
    assert a + b == (a / b + 1) * b + a % b;
    DivUnique(a + b, b, a / b + 1, a % b);
  }

  lemma ModSmall(a: int, b: int)
    requires 0 <= a < b
    ensures a % b == a
  {
    DivUnique(a, b, 0, a);
  }
}
