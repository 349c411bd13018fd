/** Rational.java: a fraction numerator/denominator of two `long`s that every
    operation rebuilds through one constructor, which moves the sign to the
    numerator and divides out the gcd. The fields are `int`s holding `long`
    values; every `long` operation of the code is written out with its
    wrap-around (module JavaLong). */
module RationalNumbers {
  import opened Outcomes
  import Divisibility
  import JavaLong
  import JavaText

  datatype Rational = Rational(numerator: int, denominator: int)

  /** Both fields hold `long` values. */
  predicate IsLong(r: Rational) {
    JavaLong.InLong(r.numerator) && JavaLong.InLong(r.denominator)
  }

  /** Lowest terms with a positive denominator. */
  predicate Canonical(r: Rational) {
    r.denominator > 0 && Divisibility.Gcd(JavaLong.Magnitude(r.numerator), r.denominator) == 1
  }

  /** The invariant every Rational is meant to keep. */
  predicate Valid(r: Rational) {
    IsLong(r) && Canonical(r)
  }

  /** r stands for the same number as n/d. */
  predicate HasValue(r: Rational, n: int, d: int) {
    r.numerator * d == n * r.denominator
  }

  // ---------------------------------------------------------------------------
  // gcd

  /** Rational.gcd, read as a recursive definition over `long`s with Java's
      truncating `%` (the loop in method Gcd computes exactly this). */
  function LongGcd(a: int, b: int): (g: int)
    requires JavaLong.InLong(a) && JavaLong.InLong(b)
    ensures JavaLong.InLong(g)
    ensures b != 0 ==> g != 0
    ensures a >= 0 && b >= 0 ==> g == Divisibility.Gcd(a, b)
    decreases JavaLong.Magnitude(b)
  {
    if b == 0 then a else LongGcd(b, JavaLong.Rem(a, b))
  }

  /** Rational.gcd: the Euclid loop. For non-negative arguments the result is
      the greatest common divisor: it divides both, and every common divisor
      divides it. */
  method Gcd(a: int, b: int) returns (g: int)
    requires JavaLong.InLong(a) && JavaLong.InLong(b)
    ensures g == LongGcd(a, b)
    ensures b != 0 ==> g != 0
    ensures a >= 0 && b >= 0 ==> g == Divisibility.Gcd(a, b)
    ensures a == 0 && b >= 0 ==> g == b
  {
    var x, y := a, b;
    while y != 0
      invariant JavaLong.InLong(x) && JavaLong.InLong(y)
      invariant LongGcd(x, y) == LongGcd(a, b)
      decreases JavaLong.Magnitude(y)
    {
      var t := JavaLong.Rem(x, y);
      x := y;
      y := t;
    }
    g := x;
  }

  /** What the loop promises for non-negative arguments, in terms of divisibility. */
  lemma GcdIsGreatestCommonDivisor(a: nat, b: nat, c: nat)
    requires a > 0 || b > 0
    ensures Divisibility.Gcd(a, b) > 0
    ensures a % Divisibility.Gcd(a, b) == 0 && b % Divisibility.Gcd(a, b) == 0
    ensures c > 0 && a % c == 0 && b % c == 0 ==> Divisibility.Gcd(a, b) % c == 0
  {
    Divisibility.GcdDivides(a, b);
    if c > 0 && a % c == 0 && b % c == 0 {
      Divisibility.GcdGreatest(a, b, c);
    }
  }

  // ---------------------------------------------------------------------------
  // Canonical form, computed exactly

  /** Exact division by a divisor of the magnitude. */
  lemma ExactQuotient(x: int, g: nat)
    requires g > 0 && JavaLong.Magnitude(x) % g == 0
    ensures x % g == 0 && x == g * (x / g)
    ensures JavaLong.Magnitude(x / g) == JavaLong.Magnitude(x) / g <= JavaLong.Magnitude(x)
    ensures JavaLong.TruncDiv(x, g) == x / g
  {
    var m := JavaLong.Magnitude(x);
    var q := m / g;
    Divisibility.ExactQuotient(m, g);
    Divisibility.MulAtLeast(q, g);
    assert m == g * q;
    if x < 0 {
      assert x == g * (-q) + 0;
      Divisibility.DivModUnique(x, g, -q, 0);
    } else {
      Divisibility.DivModUnique(x, g, q, 0);
    }
  }

  /** The canonical form of n/d computed without overflow: the sign moved to
      the numerator, then both divided by the gcd of their magnitudes. This is
      what the constructor computes whenever its `long` arithmetic does not
      wrap. */
  function Reduce(n: int, d: int): (r: Rational)
    requires d != 0
    ensures Canonical(r)
    ensures HasValue(r, n, d)
    ensures JavaLong.Magnitude(r.numerator) <= JavaLong.Magnitude(n)
    ensures r.denominator <= JavaLong.Magnitude(d)
  {
    var n1 := if d < 0 then -n else n;
    var d1 := JavaLong.Magnitude(d);
    QuotientsCoprime(n1, d1);
    var g := Divisibility.Gcd(JavaLong.Magnitude(n1), d1);
    SignedQuotients(n, d, n1 / g, d1 / g, g);
    Rational(n1 / g, d1 / g)
  }

  /** Dividing x and y > 0 by the gcd of their magnitudes leaves two coprime
      numbers that are no larger. */
  lemma QuotientsCoprime(x: int, y: int)
    requires y > 0
    ensures Divisibility.Gcd(JavaLong.Magnitude(x), y) > 0
    ensures var g := Divisibility.Gcd(JavaLong.Magnitude(x), y);
            x == g * (x / g) && y == g * (y / g) && 0 < y / g <= y &&
            JavaLong.Magnitude(x / g) == JavaLong.Magnitude(x) / g <= JavaLong.Magnitude(x) &&
            Divisibility.Gcd(JavaLong.Magnitude(x / g), y / g) == 1
  {
    var m := JavaLong.Magnitude(x);
    Divisibility.GcdDivides(m, y);
    Divisibility.GcdOfQuotients(m, y);
    var g := Divisibility.Gcd(m, y);
    ExactQuotient(x, g);
    ExactQuotient(y, g);
    assert y / g != 0;
  }

  /** Moving the sign and dividing by a common factor keeps the value. */
  lemma SignedQuotients(n: int, d: int, p: int, q: int, g: int)
    requires d != 0
    requires (if d < 0 then -n else n) == g * p && JavaLong.Magnitude(d) == g * q
    ensures p * d == n * q
  {
    assert p * (g * q) == (g * p) * q;
    if d < 0 {
      assert d == -(g * q) && n == -(g * p);
      assert p * d == -(p * (g * q));
      assert n * q == -((g * p) * q);
    }
  }

  /** A canonical fraction is its own canonical form. */
  lemma ReduceOfCanonical(r: Rational)
    requires Canonical(r)
    ensures Reduce(r.numerator, r.denominator) == r
  {
  }

  /** |x * k| == |x| * k for k >= 0. */
  lemma MagnitudeOfProduct(x: int, k: int)
    requires k >= 0
    ensures JavaLong.Magnitude(x * k) == JavaLong.Magnitude(x) * k
  {
    if x < 0 {
      assert x * k == -((-x) * k);
    }
  }

  lemma CancelNonZero(c: int, x: int, y: int)
    requires c != 0 && c * x == c * y
    ensures x == y
  {
    if c > 0 {
      Divisibility.MulCancel(c, x, y);
    } else {
      assert (-c) * x == -(c * x) && (-c) * y == -(c * y);
      Divisibility.MulCancel(-c, x, y);
    }
  }

  /** Two canonical fractions with the same value have the same fields. */
  lemma {:induction false} CanonicalUnique(x: Rational, y: Rational)
    requires Canonical(x) && Canonical(y)
    requires HasValue(x, y.numerator, y.denominator)
    ensures x == y
  {
    var xn, xd, yn, yd := x.numerator, x.denominator, y.numerator, y.denominator;
    var mx, my := JavaLong.Magnitude(xn), JavaLong.Magnitude(yn);
    MagnitudeOfProduct(xn, yd);
    MagnitudeOfProduct(yn, xd);
    assert mx * yd == my * xd;
    Divisibility.MultipleMod(xd, my);
    assert (mx * yd) % xd == 0 by { assert mx * yd == xd * my; }
    Divisibility.EuclidDivides(xd, mx, yd);
    Divisibility.MultipleMod(yd, mx);
    assert (my * xd) % yd == 0 by { assert my * xd == yd * mx; }
    Divisibility.EuclidDivides(yd, my, xd);
    Divisibility.MutualDivisorsEqual(xd, yd);
    assert xd * xn == xd * yn;
    Divisibility.MulCancel(xd, xn, yn);
  }

  /** Two fractions equal in value to two fractions of equal value are equal in value. */
  lemma TransferValue(xn: int, xd: int, yn: int, yd: int, n1: int, d1: int, n2: int, d2: int)
    requires d1 != 0 && d2 != 0
    requires xn * d1 == n1 * xd && yn * d2 == n2 * yd && n1 * d2 == n2 * d1
    ensures xn * yd == yn * xd
  {
    Regroup(xn, yd, d1, d2);
    Regroup(n1, xd, yd, d2);
    Regroup(yn, xd, d1, d2);
    Regroup(n2, yd, xd, d1);
    assert (xn * yd) * (d1 * d2) == (n1 * d2) * (xd * yd);
    assert (yn * xd) * (d1 * d2) == (n2 * d1) * (yd * xd);
    assert xd * yd == yd * xd;
    NonZeroProduct(d1, d2);
    CancelRight(d1 * d2, xn * yd, yn * xd);
  }

  /** Two ways to regroup a product of four factors. */
  lemma Regroup(a: int, b: int, c: int, d: int)
    ensures (a * b) * (c * d) == (a * c) * (b * d)
    ensures (a * b) * (c * d) == (a * d) * (b * c)
  {
  }

  lemma NonZeroProduct(a: int, b: int)
    requires a != 0 && b != 0
    ensures a * b != 0
  {
  }

  lemma CancelRight(c: int, x: int, y: int)
    requires c != 0 && x * c == y * c
    ensures x == y
  {
    assert c * x == x * c && c * y == y * c;
    CancelNonZero(c, x, y);
  }

  /** Fractions with the same value have the same canonical form. */
  lemma ReduceRespectsValue(n1: int, d1: int, n2: int, d2: int)
    requires d1 != 0 && d2 != 0 && n1 * d2 == n2 * d1
    ensures Reduce(n1, d1) == Reduce(n2, d2)
  {
    var x, y := Reduce(n1, d1), Reduce(n2, d2);
    TransferValue(x.numerator, x.denominator, y.numerator, y.denominator, n1, d1, n2, d2);
    CanonicalUnique(x, y);
  }

  // ---------------------------------------------------------------------------
  // The constructor

  /** The constructor Rational(long, long), as a value: an ArithmeticException
      for a zero denominator; otherwise both parts negated when the denominator
      is negative, then divided by gcd(Math.abs(numerator), denominator), all in
      `long` arithmetic. Whenever neither argument is Long.MIN_VALUE this is
      exactly the canonical form of numerator/denominator. */
  function Construct(n: int, d: int): (r: Result<Rational>)
    requires JavaLong.InLong(n) && JavaLong.InLong(d)
    ensures r.Err? <==> d == 0
    ensures r.Err? ==> r.error == ArithmeticError("Denominator must not be zero")
    ensures r.Ok? ==> IsLong(r.value)
    ensures d != 0 && JavaLong.Fits(n) && JavaLong.Fits(d) ==> r == Ok(Reduce(n, d))
  {
    if d == 0 then Err(ArithmeticError("Denominator must not be zero"))
    else
      var n1 := if d < 0 then JavaLong.Neg(n) else n;
      var d1 := if d < 0 then JavaLong.Neg(d) else d;
      JavaLong.NegNonZero(d);
      var g := LongGcd(JavaLong.Abs(n1), d1);
      ConstructExact(n, d);
      Ok(Rational(JavaLong.Div(n1, g), JavaLong.Div(d1, g)))
  }

  /** Without MIN among the arguments, the constructor's `long` arithmetic is exact. */
  lemma ConstructExact(n: int, d: int)
    requires JavaLong.InLong(n) && JavaLong.InLong(d) && d != 0
    ensures JavaLong.Fits(n) && JavaLong.Fits(d) ==>
            var n1 := if d < 0 then JavaLong.Neg(n) else n;
            var d1 := if d < 0 then JavaLong.Neg(d) else d;
            d1 > 0 && JavaLong.InLong(n1) &&
            var g := LongGcd(JavaLong.Abs(n1), d1);
            g > 0 && Rational(JavaLong.Div(n1, g), JavaLong.Div(d1, g)) == Reduce(n, d)
  {
    if JavaLong.Fits(n) && JavaLong.Fits(d) {
      var n1 := if d < 0 then -n else n;
      var d1 := JavaLong.Magnitude(d);
      assert (if d < 0 then JavaLong.Neg(n) else n) == n1;
      assert (if d < 0 then JavaLong.Neg(d) else d) == d1;
      ExactParts(n1, d1);
    }
  }

  /** For n1 other than MIN and 0 < d1, the constructor's gcd and divisions
      are the exact ones of Reduce. */
  lemma ExactParts(n1: int, d1: int)
    requires JavaLong.Fits(n1) && 0 < d1 <= JavaLong.MAX
    ensures var g := LongGcd(JavaLong.Abs(n1), d1);
            g == Divisibility.Gcd(JavaLong.Magnitude(n1), d1) && g > 0 &&
            JavaLong.Div(n1, g) == n1 / g && JavaLong.Div(d1, g) == d1 / g
  {
    var m := JavaLong.Magnitude(n1);
    assert JavaLong.Abs(n1) == m;
    var g := Divisibility.Gcd(m, d1);
    Divisibility.GcdPositive(m, d1);
    Divisibility.GcdDivides(m, d1);
    ExactDiv(n1, g);
    ExactDiv(d1, g);
  }

  /** A `long` divided by a divisor of its magnitude: Java's `/` is exact. */
  lemma ExactDiv(x: int, g: nat)
    requires JavaLong.InLong(x) && g > 0 && JavaLong.Magnitude(x) % g == 0
    ensures JavaLong.Div(x, g) == x / g
  {
    ExactQuotient(x, g);
  }

  /** Rational(long, long): the constructor body, reassigning its parameters
      before it sets the fields. A zero denominator throws; otherwise, unless an
      argument is Long.MIN_VALUE, the fields are in lowest terms with a positive
      denominator and keep the value numerator/denominator. */
  method New(numerator: int, denominator: int) returns (r: Result<Rational>)
    requires JavaLong.InLong(numerator) && JavaLong.InLong(denominator)
    ensures r == Construct(numerator, denominator)
    ensures r.Err? <==> denominator == 0
    ensures denominator != 0 && JavaLong.Fits(numerator) && JavaLong.Fits(denominator) ==>
              r.Ok? && Valid(r.value) && HasValue(r.value, numerator, denominator)
  {
    if denominator == 0 {
      return Err(ArithmeticError("Denominator must not be zero"));
    }
    JavaLong.NegNonZero(denominator);
    var n, d := numerator, denominator;
    if d < 0 {
      n := JavaLong.Neg(n);
      d := JavaLong.Neg(d);
    }
    var g := Gcd(JavaLong.Abs(n), d);
    r := Ok(Rational(JavaLong.Div(n, g), JavaLong.Div(d, g)));
  }

  /** With both arguments other than Long.MIN_VALUE, arguments of equal value
      give identical fields. */
  lemma ConstructCanonicalUnique(n1: int, d1: int, n2: int, d2: int)
    requires JavaLong.Fits(n1) && JavaLong.Fits(d1) && JavaLong.Fits(n2) && JavaLong.Fits(d2)
    requires d1 != 0 && d2 != 0 && n1 * d2 == n2 * d1
    ensures Construct(n1, d1) == Construct(n2, d2)
  {
    ReduceRespectsValue(n1, d1, n2, d2);
  }

  /** Zero over any non-zero denominator becomes 0/1 (so does the default
      constructor Rational(), which is Rational(0, 1)). For MIN the sign flip
      wraps back to MIN, the gcd loop stops at MIN, and MIN / MIN is 1. */
  lemma ConstructZero(d: int)
    requires JavaLong.InLong(d) && d != 0
    ensures Construct(0, d) == Ok(Rational(0, 1))
  {
    if d == JavaLong.MIN {
      assert JavaLong.Neg(JavaLong.MIN) == JavaLong.MIN by {
        JavaLong.NegNonZero(JavaLong.MIN);
      }
      assert JavaLong.Rem(0, JavaLong.MIN) == 0;
      assert LongGcd(0, JavaLong.MIN) == JavaLong.MIN;
      assert JavaLong.Div(0, JavaLong.MIN) == 0;
      assert JavaLong.Div(JavaLong.MIN, JavaLong.MIN) == 1;
    } else {
      assert Divisibility.Gcd(0, 1) == 1;
      ReduceRespectsValue(0, d, 0, 1);
      ReduceOfCanonical(Rational(0, 1));
    }
  }

  /** new Rational(1, Long.MIN_VALUE): negating MIN wraps back to MIN, so the
      denominator stays negative and the result is not canonical. */
  lemma ConstructMinDenominator()
    ensures Construct(1, JavaLong.MIN) == Ok(Rational(-1, JavaLong.MIN))
    ensures !Canonical(Construct(1, JavaLong.MIN).value)
  {
    assert JavaLong.Neg(JavaLong.MIN) == JavaLong.MIN by {
      JavaLong.WrapCongruent(-JavaLong.MIN, JavaLong.MIN);
    }
    assert JavaLong.Neg(1) == -1;
    assert JavaLong.Abs(-1) == 1;
    assert JavaLong.Rem(1, JavaLong.MIN) == 1;
    assert JavaLong.Rem(JavaLong.MIN, 1) == 0;
    assert LongGcd(1, JavaLong.MIN) == 1;
  }

  /** new Rational(Long.MIN_VALUE, 6): Math.abs(MIN) is MIN, so gcd(MIN, 6)
      ends at -2, and dividing by it turns the denominator negative. The value
      MIN/6 is kept, but the fields are 2^62 / -3, not canonical. */
  lemma ConstructMinNumerator()
    ensures Construct(JavaLong.MIN, 6) == Ok(Rational(0x4000_0000_0000_0000, -3))
    ensures !Canonical(Construct(JavaLong.MIN, 6).value)
  {
    assert JavaLong.Abs(JavaLong.MIN) == JavaLong.MIN by {
      JavaLong.NegNonZero(JavaLong.MIN);
    }
    assert JavaLong.Rem(JavaLong.MIN, 6) == -2;
    assert JavaLong.Rem(6, -2) == 0;
    assert LongGcd(JavaLong.MIN, 6) == -2;
    assert JavaLong.Div(JavaLong.MIN, -2) == 0x4000_0000_0000_0000;
    assert JavaLong.Div(6, -2) == -3;
  }

  // ---------------------------------------------------------------------------
  // Arithmetic

  /** Rational.add: the cross-multiplied sum in `long` arithmetic, rebuilt by
      the constructor. When the exact numerator and denominator are `long`s
      other than MIN, the result is the canonical form of the exact sum. */
  function Add(a: Rational, b: Rational): (r: Result<Rational>)
    requires IsLong(a) && IsLong(b)
    ensures r.Ok? ==> IsLong(r.value)
    ensures Valid(a) && Valid(b) &&
            JavaLong.Fits(a.numerator * b.denominator + b.numerator * a.denominator) &&
            JavaLong.Fits(a.denominator * b.denominator) ==>
              r == Ok(Reduce(a.numerator * b.denominator + b.numerator * a.denominator,
                             a.denominator * b.denominator))
  {
    var n := JavaLong.Add(JavaLong.Mul(a.numerator, b.denominator), JavaLong.Mul(b.numerator, a.denominator));
    var d := JavaLong.Mul(a.denominator, b.denominator);
    JavaLong.AddOfWrapped(a.numerator * b.denominator, b.numerator * a.denominator);
    Construct(n, d)
  }

  /** Rational.subtract: as Add, with the difference. */
  function Subtract(a: Rational, b: Rational): (r: Result<Rational>)
    requires IsLong(a) && IsLong(b)
    ensures r.Ok? ==> IsLong(r.value)
    ensures Valid(a) && Valid(b) &&
            JavaLong.Fits(a.numerator * b.denominator - b.numerator * a.denominator) &&
            JavaLong.Fits(a.denominator * b.denominator) ==>
              r == Ok(Reduce(a.numerator * b.denominator - b.numerator * a.denominator,
                             a.denominator * b.denominator))
  {
    var n := JavaLong.Sub(JavaLong.Mul(a.numerator, b.denominator), JavaLong.Mul(b.numerator, a.denominator));
    var d := JavaLong.Mul(a.denominator, b.denominator);
    JavaLong.SubOfWrapped(a.numerator * b.denominator, b.numerator * a.denominator);
    Construct(n, d)
  }

  /** Rational.multiply: numerators times numerators over denominators times
      denominators, in `long` arithmetic, rebuilt by the constructor. */
  function Multiply(a: Rational, b: Rational): (r: Result<Rational>)
    requires IsLong(a) && IsLong(b)
    ensures r.Ok? ==> IsLong(r.value)
    ensures Valid(a) && Valid(b) &&
            JavaLong.Fits(a.numerator * b.numerator) && JavaLong.Fits(a.denominator * b.denominator) ==>
              r == Ok(Reduce(a.numerator * b.numerator, a.denominator * b.denominator))
  {
    Construct(JavaLong.Mul(a.numerator, b.numerator), JavaLong.Mul(a.denominator, b.denominator))
  }

  /** Rational.divide: an ArithmeticException for a zero divisor, checked before
      any arithmetic; otherwise a * (1/b) in `long` arithmetic, rebuilt by the
      constructor, which makes the denominator positive even for a negative
      divisor. */
  function Divide(a: Rational, b: Rational): (r: Result<Rational>)
    requires IsLong(a) && IsLong(b)
    ensures b.numerator == 0 ==> r == Err(ArithmeticError("Division by zero"))
    ensures r.Ok? ==> IsLong(r.value)
    ensures Valid(a) && Valid(b) && b.numerator != 0 &&
            JavaLong.Fits(a.numerator * b.denominator) && JavaLong.Fits(a.denominator * b.numerator) ==>
              r == Ok(Reduce(a.numerator * b.denominator, a.denominator * b.numerator))
  {
    if b.numerator == 0 then Err(ArithmeticError("Division by zero"))
    else Construct(JavaLong.Mul(a.numerator, b.denominator), JavaLong.Mul(a.denominator, b.numerator))
  }

  /** Dividing and multiplying back: the quotient times the divisor is the
      dividend, as values and, when the products fit, as Rational fields. */
  lemma DivideThenMultiply(a: Rational, b: Rational)
    requires Valid(a) && Valid(b) && b.numerator != 0
    requires JavaLong.Fits(a.numerator * b.denominator) && JavaLong.Fits(a.denominator * b.numerator)
    ensures Divide(a, b).Ok?
    ensures var q := Divide(a, b).value;
            q.denominator > 0 &&
            (q.numerator * b.numerator) * a.denominator == a.numerator * (q.denominator * b.denominator) &&
            (JavaLong.Fits(q.numerator * b.numerator) && JavaLong.Fits(q.denominator * b.denominator) ==>
               Multiply(q, b) == Ok(a))
  {
    var q := Divide(a, b).value;
    assert q == Reduce(a.numerator * b.denominator, a.denominator * b.numerator);
    QuotientTimesDivisor(q.numerator, q.denominator, a.numerator, a.denominator, b.numerator, b.denominator);
    if JavaLong.Fits(q.numerator * b.numerator) && JavaLong.Fits(q.denominator * b.denominator) {
      assert q.denominator * b.denominator != 0;
      ReduceRespectsValue(q.numerator * b.numerator, q.denominator * b.denominator, a.numerator, a.denominator);
      ReduceOfCanonical(a);
    }
  }

  lemma QuotientTimesDivisor(qn: int, qd: int, an: int, ad: int, bn: int, bd: int)
    requires qn * (ad * bn) == (an * bd) * qd
    ensures (qn * bn) * ad == an * (qd * bd)
  {
    assert (qn * bn) * ad == qn * (ad * bn);
    assert (an * bd) * qd == an * (qd * bd);
  }

  lemma SumMinusAddend(sn: int, sd: int, an: int, ad: int, bn: int, bd: int)
    requires sn * (ad * bd) == (an * bd + bn * ad) * sd
    ensures (sn * bd - bn * sd) * ad == an * (sd * bd)
  {
    calc {
      (sn * bd - bn * sd) * ad;
      sn * (ad * bd) - bn * sd * ad;
      (an * bd + bn * ad) * sd - bn * sd * ad;
      an * (sd * bd);
    }
  }

  /** If s == a + b as fractions, the canonical form of s - b is a. */
  lemma ReduceOfDifference(sn: int, sd: int, an: int, ad: int, bn: int, bd: int)
    requires sd > 0 && bd > 0 && Canonical(Rational(an, ad))
    requires sn * (ad * bd) == (an * bd + bn * ad) * sd
    ensures Reduce(sn * bd - bn * sd, sd * bd) == Rational(an, ad)
  {
    SumMinusAddend(sn, sd, an, ad, bn, bd);
    NonZeroProduct(sd, bd);
    ReduceRespectsValue(sn * bd - bn * sd, sd * bd, an, ad);
    ReduceOfCanonical(Rational(an, ad));
  }

  /** Adding b and then subtracting it gives back a, when nothing overflows. */
  lemma AddThenSubtract(a: Rational, b: Rational)
    requires Valid(a) && Valid(b)
    requires JavaLong.Fits(a.numerator * b.denominator + b.numerator * a.denominator)
    requires JavaLong.Fits(a.denominator * b.denominator)
    ensures Add(a, b).Ok?
    ensures var s := Add(a, b).value;
            JavaLong.Fits(s.numerator * b.denominator - b.numerator * s.denominator) &&
            JavaLong.Fits(s.denominator * b.denominator) ==>
              Subtract(s, b) == Ok(a)
  {
    var s := Add(a, b).value;
    assert Valid(s) && HasValue(s, a.numerator * b.denominator + b.numerator * a.denominator,
                                a.denominator * b.denominator);
    SubtractOfSum(a, b, s);
  }

  /** A valid s equal in value to a + b gives back a when b is subtracted. */
  lemma SubtractOfSum(a: Rational, b: Rational, s: Rational)
    requires Valid(a) && Valid(b) && Valid(s)
    requires HasValue(s, a.numerator * b.denominator + b.numerator * a.denominator, a.denominator * b.denominator)
    ensures JavaLong.Fits(s.numerator * b.denominator - b.numerator * s.denominator) &&
            JavaLong.Fits(s.denominator * b.denominator) ==>
              Subtract(s, b) == Ok(a)
  {
    var an, ad, bn, bd := a.numerator, a.denominator, b.numerator, b.denominator;
    var sn, sd := s.numerator, s.denominator;
    if JavaLong.Fits(sn * bd - bn * sd) && JavaLong.Fits(sd * bd) {
      assert Subtract(s, b) == Ok(Reduce(sn * bd - bn * sd, sd * bd));
      ReduceOfDifference(sn, sd, an, ad, bn, bd);
    }
  }

  /** 1/2^32 + 1/2^32: the `long` product of the denominators wraps to 0, so
      add throws "Denominator must not be zero" although both operands are
      valid and the sum, 1/2^31, is representable. */
  lemma AddDenominatorWraps()
    ensures Add(Rational(1, 0x1_0000_0000), Rational(1, 0x1_0000_0000)) ==
            Err(ArithmeticError("Denominator must not be zero"))
  {
    assert JavaLong.Mul(0x1_0000_0000, 0x1_0000_0000) == 0 by {
      JavaLong.WrapCongruent(0x1_0000_0000 * 0x1_0000_0000, 0);
    }
  }

  // ---------------------------------------------------------------------------
  // Text

  /** Rational.toString: "n" when the denominator is 1, "n/d" otherwise. */
  function ToString(r: Rational): (s: string)
    ensures '/' in s <==> r.denominator != 1
  {
    if r.denominator == 1 then JavaText.IntToString(r.numerator)
    else JavaText.IntToString(r.numerator) + "/" + JavaText.IntToString(r.denominator)
  }

  /** Rational.parse: trim; with a '/', split on it and parse the first two
      pieces (trimmed) as `long`s; without one, parse the whole text with
      denominator 1; then the constructor. A missing piece is an index error,
      a bad number a NumberFormatException, a zero denominator the
      constructor's ArithmeticException. */
  function Parse(s: string): (r: Result<Rational>)
    ensures r.Ok? ==> IsLong(r.value)
    ensures r.Err? ==> r.error == NumberFormat || r.error == IndexOutOfBounds ||
                       r.error == ArithmeticError("Denominator must not be zero")
  {
    var t := JavaText.Trim(s);
    if '/' in t then
      var parts := JavaText.Split(t, '/');
      if |parts| == 0 then Err(IndexOutOfBounds)
      else
        var n := JavaText.ParseLong(JavaText.Trim(parts[0]));
        if n.Err? then Err(n.error)
        else if |parts| < 2 then Err(IndexOutOfBounds)
        else
          var d := JavaText.ParseLong(JavaText.Trim(parts[1]));
          if d.Err? then Err(d.error)
          else Construct(n.value, d.value)
    else
      var n := JavaText.ParseLong(t);
      if n.Err? then Err(n.error) else Construct(n.value, 1)
  }

  /** "5/" splits into the single piece "5", so reading the denominator
      indexes past the end of the array: parse throws an index error, not the
      NumberFormatException its documentation promises for malformed text. */
  lemma ParseMissingDenominator()
    ensures Parse("5/") == Err(IndexOutOfBounds)
  {
    assert JavaText.Trim("5/") == "5/";
    JavaText.SplitAllOneSeparator("5", "", '/');
    assert "5" + ['/'] + "" == "5/";
    assert JavaText.Split("5/", '/') == ["5"];
    assert JavaText.ParseLong("5") == Ok(5);
  }

  /** parse with every malformed text reported as a NumberFormatException:
      it agrees with Parse wherever Parse succeeds, and fails only with a
      NumberFormatException or the constructor's zero-denominator error. */
  function ParseChecked(s: string): (r: Result<Rational>)
    ensures r.Ok? <==> Parse(s).Ok?
    ensures r.Ok? ==> r == Parse(s) && IsLong(r.value)
    ensures r.Err? ==> r.error == NumberFormat || r.error == ArithmeticError("Denominator must not be zero")
  {
    var r := Parse(s);
    if r == Err(IndexOutOfBounds) then Err(NumberFormat) else r
  }

  /** Parsing the text of a valid Rational gives it back (numerator other than
      Long.MIN_VALUE). */
  lemma ParseOfToString(r: Rational)
    requires Valid(r) && JavaLong.Fits(r.numerator)
    ensures Parse(ToString(r)) == Ok(r)
  {
    var sn, sd := JavaText.IntToString(r.numerator), JavaText.IntToString(r.denominator);
    JavaText.ParseLongOfToString(r.numerator);
    JavaText.ParseLongOfToString(r.denominator);
    JavaText.TrimVisible(sn);
    ReduceOfCanonical(r);
    if r.denominator == 1 {
      assert ToString(r) == sn;
    } else {
      var s := sn + "/" + sd;
      assert ToString(r) == s;
      JavaText.TrimVisible(sd);
      JavaText.TrimVisible(s);
      JavaText.SplitOneSeparator(sn, sd, '/');
      assert JavaText.Split(s, '/') == [sn, sd];
    }
  }

  /** The round-trip fails for a valid numerator MIN: the text of MIN/5 parses,
      but Math.abs(MIN) is MIN, the gcd loop on (MIN, 5) ends at -1, and the
      constructor returns the fields MIN / -5. The constructor itself never
      produces MIN/5, which is why the program does not meet this value. */
  lemma ParseOfToStringMinNumerator()
    ensures Valid(Rational(JavaLong.MIN, 5))
    ensures Parse(ToString(Rational(JavaLong.MIN, 5))) == Ok(Rational(JavaLong.MIN, -5))
  {
    var r := Rational(JavaLong.MIN, 5);
    assert Divisibility.Gcd(-JavaLong.MIN, 5) == 1 by {
      assert Divisibility.Gcd(5, 3) == 1;
    }
    var sn, sd := JavaText.IntToString(r.numerator), JavaText.IntToString(r.denominator);
    JavaText.ParseLongOfToString(r.numerator);
    JavaText.ParseLongOfToString(r.denominator);
    JavaText.TrimVisible(sn);
    var s := sn + "/" + sd;
    assert ToString(r) == s;
    JavaText.TrimVisible(sd);
    JavaText.TrimVisible(s);
    JavaText.SplitOneSeparator(sn, sd, '/');
    assert JavaText.Split(s, '/') == [sn, sd];
    assert JavaLong.Abs(JavaLong.MIN) == JavaLong.MIN by {
      JavaLong.NegNonZero(JavaLong.MIN);
    }
    assert LongGcd(JavaLong.MIN, 5) == -1;
    assert JavaLong.Div(JavaLong.MIN, -1) == JavaLong.MIN;
    assert JavaLong.Div(5, -1) == -5;
  }
}
