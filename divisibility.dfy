/** The greatest common divisor on natural numbers, and the facts about it that
    canonical fractions rest on. Divisibility is stated with `%`:
    `x % c == 0` reads "c divides x". */
module Divisibility {

  /** Euclid's algorithm on natural numbers. */
  function Gcd(a: nat, b: nat): nat
    decreases b
  {
    if b == 0 then a else Gcd(b, a % b)
  }

  /** x*k >= x for a non-negative x and k >= 1. */
  lemma MulAtLeast(x: int, k: int)
    requires x >= 0 && k >= 1
    ensures x * k >= x
  {
    assert x * k == x + x * (k - 1);
  }

  /** The quotient of x >= 0 by y > 0 is the floor of x/y, and no larger than x. */
  lemma FloorQuotient(x: int, y: int)
    requires x >= 0 && y > 0
    ensures 0 <= x / y <= x
    ensures (x / y) * y <= x < (x / y + 1) * y
  {
    var q, r := x / y, x % y;
    assert x == y * q + r && 0 <= r < y;
    if q > 0 {
      MulAtLeast(q, y);
    }
    assert (q + 1) * y == y * q + y;
  }

  /** The only multiple of d strictly between -d and d is 0. */
  lemma SmallMultiple(d: int, k: int)
    requires d > 0 && -d < d * k < d
    ensures k == 0
  {
    if k > 0 {
      MulAtLeast(d, k);
      assert false;
    } else if k < 0 {
      MulAtLeast(d, -k);
      MulNegate(d, k);
      assert false;
    }
  }

  lemma MulNegate(d: int, k: int)
    ensures d * (-k) == -(d * k)
  {
  }

  /** A multiple of c is c times its quotient. */
  lemma ExactQuotient(a: int, c: int)
    requires c > 0 && a % c == 0
    ensures a == c * (a / c)
  {
  }

  /** A positive factor cancels. */
  lemma MulCancel(g: int, x: int, y: int)
    requires g > 0 && g * x == g * y
    ensures x == y
  {
    assert g * (x - y) == 0;
    SmallMultiple(g, x - y);
  }

  /** If a == d*q + r with 0 <= r < d, then q and r are the quotient and remainder. */
  lemma DivModUnique(a: int, d: int, q: int, r: int)
    requires d > 0 && 0 <= r < d && a == d * q + r
    ensures a / d == q && a % d == r
  {
    var q', r' := a / d, a % d;
    assert a == d * q' + r';
    assert d * (q - q') == r' - r;
    SmallMultiple(d, q - q');
  }

  lemma MultipleMod(c: int, k: int)
    requires c > 0
    ensures (c * k) % c == 0 && (c * k) / c == k
  {
    DivModUnique(c * k, c, k, 0);
  }

  /** A divisor of x and of y divides x + m*y. */
  lemma DividesCombination(c: int, x: int, y: int, m: int)
    requires c > 0 && x % c == 0 && y % c == 0
    ensures (x + m * y) % c == 0
  {
    var i, j := x / c, y / c;
    assert x == c * i && y == c * j;
    assert x + m * y == c * (i + m * j);
    MultipleMod(c, i + m * j);
  }

  lemma GcdPositive(a: nat, b: nat)
    requires a > 0 || b > 0
    ensures Gcd(a, b) > 0
    decreases b
  {
    if b > 0 {
      GcdPositive(b, a % b);
    }
  }


  /** The gcd divides both arguments. */
  lemma {:induction false} GcdDivides(a: nat, b: nat)
    requires a > 0 || b > 0
    ensures Gcd(a, b) > 0 && a % Gcd(a, b) == 0 && b % Gcd(a, b) == 0
    decreases b
  {
    GcdPositive(a, b);
    var g := Gcd(a, b);
    if b == 0 {
      MultipleMod(a, 1);
    } else {
      GcdDivides(b, a % b);
      assert a == (a % b) + (a / b) * b;
      DividesCombination(g, a % b, b, a / b);
    }
  }

  /** Every common divisor of a and b divides their gcd. */
  lemma {:induction false} GcdGreatest(a: nat, b: nat, c: nat)
    requires c > 0 && a % c == 0 && b % c == 0
    ensures Gcd(a, b) % c == 0
    decreases b
  {
    if b > 0 {
      assert a % b == a + (-(a / b)) * b;
      DividesCombination(c, a, b, -(a / b));
      GcdGreatest(b, a % b, c);
    }
  }

  /** Scaling both arguments scales the remainder. */
  lemma ModScale(a: nat, b: nat, k: nat)
    requires b > 0 && k > 0
    ensures (k * a) % (k * b) == k * (a % b)
  {
    var q, r := a / b, a % b;
    assert a == b * q + r;
    assert k * a == (k * b) * q + k * r;
    assert k * r < k * b;
    DivModUnique(k * a, k * b, q, k * r);
  }

  /** gcd(k*a, k*b) == k * gcd(a, b). */
  lemma {:induction false} GcdScale(a: nat, b: nat, k: nat)
    requires k > 0
    ensures Gcd(k * a, k * b) == k * Gcd(a, b)
    decreases b
  {
    if b > 0 {
      ModScale(a, b, k);
      GcdScale(b, a % b, k);
    }
  }

  /** Dividing a and b by their gcd leaves two coprime numbers. */
  lemma GcdOfQuotients(a: nat, b: nat)
    requires b > 0
    ensures Gcd(a, b) > 0
    ensures Gcd(a / Gcd(a, b), b / Gcd(a, b)) == 1
  {
    GcdDivides(a, b);
    var g := Gcd(a, b);
    var p, q := a / g, b / g;
    ExactQuotient(a, g);
    ExactQuotient(b, g);
    GcdScale(p, q, g);
    assert Gcd(g * p, g * q) == g;
    MulCancel(g, Gcd(p, q), 1);
  }

  /** Euclid's lemma: if c divides x*y and shares no factor with x, it divides y. */
  lemma EuclidDivides(c: nat, x: nat, y: nat)
    requires c > 0 && (x * y) % c == 0 && Gcd(x, c) == 1
    ensures y % c == 0
  {
    if y > 0 {
      GcdScale(x, c, y);
      assert Gcd(y * x, y * c) == y;
      MultipleMod(c, y);
      assert y * x == x * y && y * c == c * y;
      GcdGreatest(y * x, y * c, c);
    }
  }

  /** Two positive numbers that divide each other are equal. */
  lemma MutualDivisorsEqual(a: nat, b: nat)
    requires a > 0 && b > 0 && a % b == 0 && b % a == 0
    ensures a == b
  {
    var i, j := a / b, b / a;
    assert a == b * i && b == a * j;
    MulAtLeast(b, i);
    MulAtLeast(a, j);
  }
}
