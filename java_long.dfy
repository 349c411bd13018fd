/** Java's 64-bit `long`: two's-complement wrap-around and the truncating
    `/` and `%` operators, written out over Dafny's unbounded `int`. */
module JavaLong {
  import Divisibility

  const MIN: int := -0x8000_0000_0000_0000   // Long.MIN_VALUE
  const MAX: int := 0x7FFF_FFFF_FFFF_FFFF    // Long.MAX_VALUE
  const MODULUS: int := 0x1_0000_0000_0000_0000

  /** x is a value a `long` can hold. */
  predicate InLong(x: int) {
    MIN <= x <= MAX
  }

  /** x is a `long` whose negation is again a `long`: every `long` except MIN. */
  predicate Fits(x: int) {
    -MAX <= x <= MAX
  }

  /** The magnitude of an exact integer (no wrap-around). */
  function Magnitude(x: int): nat {
    if x < 0 then -x else x
  }

  /** What a `long` operation keeps of its exact result: the representative of
      x modulo 2^64 in [MIN, MAX]. */
  function Wrap(x: int): (r: int)
    ensures InLong(r)
    ensures InLong(x) ==> r == x
    ensures (x - r) % MODULUS == 0
  {
    (x - MIN) % MODULUS + MIN
  }

  /** Two integers that differ by a multiple of 2^64 wrap to the same `long`. */
  lemma WrapCongruent(x: int, y: int)
    requires (x - y) % MODULUS == 0
    ensures Wrap(x) == Wrap(y)
  {
    var k := (x - y) / MODULUS;
    Divisibility.ExactQuotient(x - y, MODULUS);
    var q, r := (y - MIN) / MODULUS, (y - MIN) % MODULUS;
    assert y - MIN == MODULUS * q + r;
    assert x - MIN == MODULUS * (q + k) + r;
    Divisibility.DivModUnique(x - MIN, MODULUS, q + k, r);
  }

  /** Adding two wrapped values wraps to the wrapped exact sum: a chain of `long`
      additions is exact whenever its final result is a `long`. */
  lemma AddOfWrapped(x: int, y: int)
    ensures Add(Wrap(x), Wrap(y)) == Wrap(x + y)
  {
    var kx := (x - Wrap(x)) / MODULUS;
    var ky := (y - Wrap(y)) / MODULUS;
    assert x == Wrap(x) + kx * MODULUS;
    assert y == Wrap(y) + ky * MODULUS;
    assert (Wrap(x) + Wrap(y) - (x + y)) == -(kx + ky) * MODULUS;
    WrapCongruent(Wrap(x) + Wrap(y), x + y);
  }

  /** The same for subtraction. */
  lemma SubOfWrapped(x: int, y: int)
    ensures Sub(Wrap(x), Wrap(y)) == Wrap(x - y)
  {
    var kx := (x - Wrap(x)) / MODULUS;
    var ky := (y - Wrap(y)) / MODULUS;
    assert x == Wrap(x) + kx * MODULUS;
    assert y == Wrap(y) + ky * MODULUS;
    assert (Wrap(x) - Wrap(y) - (x - y)) == -(kx - ky) * MODULUS;
    WrapCongruent(Wrap(x) - Wrap(y), x - y);
  }

  /** An exact result just above MAX (at most twice MAX) wraps to a negative `long`. */
  lemma WrapAboveMaxIsNegative(x: int)
    requires MAX < x <= 2 * MAX
    ensures Wrap(x) == x - MODULUS && Wrap(x) < 0
  {
    WrapCongruent(x, x - MODULUS);
  }

  /** Java `a + b`, `a - b`, `a * b` and unary `-a` on `long`. */
  function Add(a: int, b: int): int { Wrap(a + b) }
  function Sub(a: int, b: int): int { Wrap(a - b) }
  function Mul(a: int, b: int): int { Wrap(a * b) }
  function Neg(a: int): int { Wrap(-a) }

  /** Negating a non-zero `long` never gives 0 (MIN negates to itself). */
  lemma NegNonZero(a: int)
    requires InLong(a) && a != 0
    ensures Neg(a) != 0
    ensures a == MIN ==> Neg(a) == MIN
  {
    if a == MIN {
      WrapCongruent(-a, a);
    }
  }

  /** Math.abs(long): the magnitude, except that Math.abs(MIN) is MIN. */
  function Abs(a: int): (r: int)
    requires InLong(a)
    ensures Fits(a) ==> r == Magnitude(a)
    ensures a == MIN ==> r == MIN
  {
    if a < 0 then Neg(a) else a
  }

  /** The exact quotient rounded toward zero, as Java's `/` rounds it. */
  function TruncDiv(a: int, b: int): int
    requires b != 0
  {
    if (a < 0) == (b < 0) then Magnitude(a) / Magnitude(b) else -(Magnitude(a) / Magnitude(b))
  }

  /** Java `a / b` on `long` (b != 0): truncating; only MIN / -1 wraps. */
  function Div(a: int, b: int): int
    requires b != 0
  {
    Wrap(TruncDiv(a, b))
  }

  /** Java `a % b` on `long` (b != 0): the sign of the dividend and a magnitude
      below that of the divisor. */
  function Rem(a: int, b: int): (r: int)
    requires b != 0
    ensures Magnitude(r) < Magnitude(b)
    ensures a >= 0 && b > 0 ==> r == a % b
  {
    if a < 0 then -(Magnitude(a) % Magnitude(b)) else Magnitude(a) % Magnitude(b)
  }

  /** Java's division identity (a / b) * b + a % b == a, for the exact quotient. */
  lemma {:induction false} DivRemIdentity(a: int, b: int)
    requires b != 0
    ensures TruncDiv(a, b) * b + Rem(a, b) == a
  {
    var A: int, B: int := Magnitude(a), Magnitude(b);
    var q: int, m: int := A / B, A % B;
    assert A == q * B + m;
    SignedProduct(q, B);
    if a < 0 && b < 0 {
      assert TruncDiv(a, b) * b == -(q * B);
    } else if a < 0 {
      assert TruncDiv(a, b) * b == -(q * B);
    } else if b < 0 {
      assert TruncDiv(a, b) * b == q * B;
    } else {
      assert TruncDiv(a, b) * b == q * B;
    }
  }

  /** How a product changes when a factor changes sign. */
  lemma SignedProduct(x: int, y: int)
    ensures (-x) * y == -(x * y) && x * (-y) == -(x * y) && (-x) * (-y) == x * y
  {
  }
}
