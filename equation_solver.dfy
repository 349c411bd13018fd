/** EquationSolver.java: a x + b = 0 over Rationals, and a x^2 + b x + c = 0
    over reals with Math.sqrt passed in as a function. */
module EquationSolver {
  import opened Outcomes
  import JavaLong
  import RationalNumbers
  import JavaMath

  /** The tolerance 1e-12 under which the discriminant counts as zero. */
  const TOLERANCE: real := 0.000000000001

  // ---------------------------------------------------------------------------
  // Linear equations

  /** a*x + b == 0 as an equation between fractions, multiplied out. */
  predicate SolvesLinear(a: RationalNumbers.Rational, b: RationalNumbers.Rational, x: RationalNumbers.Rational) {
    a.numerator * x.numerator * b.denominator + b.numerator * a.denominator * x.denominator == 0
  }

  /** EquationSolver.solveLinear: an ArithmeticException when a is zero;
      otherwise (-b) / a, with -b built by the Rational constructor. When the
      `long` products fit, the result is a valid Rational solving a x + b = 0. */
  function SolveLinear(a: RationalNumbers.Rational, b: RationalNumbers.Rational): (r: Result<RationalNumbers.Rational>)
    requires RationalNumbers.IsLong(a) && RationalNumbers.IsLong(b)
    ensures a.numerator == 0 ==> r == Err(ArithmeticError("Coefficient a must not be zero"))
    ensures r.Ok? ==> RationalNumbers.IsLong(r.value)
    ensures RationalNumbers.Valid(a) && RationalNumbers.Valid(b) && a.numerator != 0 &&
            JavaLong.Fits(b.numerator) &&
            JavaLong.Fits(b.numerator * a.denominator) && JavaLong.Fits(b.denominator * a.numerator) ==>
              r.Ok? && RationalNumbers.Valid(r.value) && SolvesLinear(a, b, r.value)
  {
    if a.numerator == 0 then Err(ArithmeticError("Coefficient a must not be zero"))
    else
      var minusB := RationalNumbers.Construct(JavaLong.Neg(b.numerator), b.denominator);
      if minusB.Err? then minusB
      else
        LinearSolution(a, b);
        RationalNumbers.Divide(minusB.value, a)
  }

  lemma LinearSolution(a: RationalNumbers.Rational, b: RationalNumbers.Rational)
    requires RationalNumbers.IsLong(a) && RationalNumbers.IsLong(b)
    ensures RationalNumbers.Valid(a) && RationalNumbers.Valid(b) && a.numerator != 0 &&
            JavaLong.Fits(b.numerator) &&
            JavaLong.Fits(b.numerator * a.denominator) && JavaLong.Fits(b.denominator * a.numerator) ==>
              var minusB := RationalNumbers.Construct(JavaLong.Neg(b.numerator), b.denominator);
              minusB == Ok(RationalNumbers.Rational(-b.numerator, b.denominator)) &&
              var x := RationalNumbers.Divide(minusB.value, a);
              x.Ok? && RationalNumbers.Valid(x.value) && SolvesLinear(a, b, x.value)
  {
    if RationalNumbers.Valid(a) && RationalNumbers.Valid(b) && a.numerator != 0 &&
       JavaLong.Fits(b.numerator) &&
       JavaLong.Fits(b.numerator * a.denominator) && JavaLong.Fits(b.denominator * a.numerator) {
      var nb := RationalNumbers.Rational(-b.numerator, b.denominator);
      assert JavaLong.Neg(b.numerator) == -b.numerator;
      RationalNumbers.ReduceOfCanonical(nb);
      assert -b.numerator * a.denominator == -(b.numerator * a.denominator);
      var x := RationalNumbers.Divide(nb, a).value;
      assert x.numerator * (b.denominator * a.numerator) == (-b.numerator * a.denominator) * x.denominator;
      LinearIdentity(a.numerator, a.denominator, b.numerator, b.denominator, x.numerator, x.denominator);
    }
  }

  lemma LinearIdentity(an: int, ad: int, bn: int, bd: int, xn: int, xd: int)
    requires xn * (bd * an) == (-bn * ad) * xd
    ensures an * xn * bd + bn * ad * xd == 0
  {
    assert an * xn * bd == xn * (bd * an);
    assert bn * ad * xd == -((-bn * ad) * xd);
  }

  // ---------------------------------------------------------------------------
  // Quadratic equations

  function Discriminant(a: real, b: real, c: real): real {
    b * b - 4.0 * a * c
  }

  /** The value of a x^2 + b x + c. */
  function Quadratic(a: real, b: real, c: real, x: real): real {
    a * x * x + b * x + c
  }

  /** s is a square root of d, the contract assumed of Math.sqrt. */
  predicate IsSqrt(d: real, s: real) {
    s >= 0.0 && s * s == d
  }

  /** EquationSolver.solveQuadratic. With a == 0: no root when b == 0 too,
      otherwise the root of the linear equation b x + c = 0. With a != 0: no
      root for a negative discriminant, one root (the vertex -b/(2a)) when the
      discriminant is below 1e-12, otherwise two roots, the "+ sqrt" one first.
      What the roots satisfy is stated by VertexOfSmallDiscriminant and
      TwoRootsSolve. */
  function SolveQuadratic(a: real, b: real, c: real, sqrt: real -> real): (roots: seq<real>)
    ensures |roots| <= 2
    ensures a == 0.0 && b == 0.0 ==> roots == []
    ensures a == 0.0 && b != 0.0 ==> |roots| == 1 && Quadratic(a, b, c, roots[0]) == 0.0
    ensures a != 0.0 ==> (roots == [] <==> Discriminant(a, b, c) < 0.0)
    ensures a != 0.0 && 0.0 <= Discriminant(a, b, c) < TOLERANCE ==> |roots| == 1
    ensures a != 0.0 && Discriminant(a, b, c) >= TOLERANCE ==> |roots| == 2
  {
    if a == 0.0 then
      if b == 0.0 then []
      else
        LinearRoot(b, c);
        [-c / b]
    else
      var d := b * b - 4.0 * a * c;
      if d < 0.0 then []
      else if JavaMath.Abs(d) < TOLERANCE then [-b / (2.0 * a)]
      else
        var s := sqrt(d);
        [(-b + s) / (2.0 * a), (-b - s) / (2.0 * a)]
  }

  /** The single root returned for a discriminant d in [0, 1e-12) is the vertex:
      it misses the equation by exactly -d/(4a), so it is an exact root when d
      is 0 and an approximate one otherwise. */
  lemma VertexOfSmallDiscriminant(a: real, b: real, c: real, sqrt: real -> real)
    requires a != 0.0 && 0.0 <= Discriminant(a, b, c) < TOLERANCE
    ensures var roots := SolveQuadratic(a, b, c, sqrt);
            |roots| == 1 && 4.0 * a * Quadratic(a, b, c, roots[0]) == -Discriminant(a, b, c)
  {
    VertexResidual(a, b, c, -b / (2.0 * a));
  }

  /** For a discriminant of at least 1e-12: the first returned value is the
      "+ sqrt" root and the second the "- sqrt" one. When `sqrt` returns a true
      square root, both solve the equation, they satisfy Vieta's formulas, and
      for a > 0 the first is the larger. */
  lemma TwoRootsSolve(a: real, b: real, c: real, sqrt: real -> real)
    requires a != 0.0 && Discriminant(a, b, c) >= TOLERANCE
    requires IsSqrt(Discriminant(a, b, c), sqrt(Discriminant(a, b, c)))
    ensures var roots := SolveQuadratic(a, b, c, sqrt);
            |roots| == 2 &&
            2.0 * a * roots[0] == -b + sqrt(Discriminant(a, b, c)) &&
            2.0 * a * roots[1] == -b - sqrt(Discriminant(a, b, c)) &&
            Quadratic(a, b, c, roots[0]) == 0.0 && Quadratic(a, b, c, roots[1]) == 0.0 &&
            a * (roots[0] + roots[1]) == -b && a * roots[0] * roots[1] == c &&
            (a > 0.0 ==> roots[0] >= roots[1])
  {
    var s := sqrt(Discriminant(a, b, c));
    var x1, x2 := (-b + s) / (2.0 * a), (-b - s) / (2.0 * a);
    assert SolveQuadratic(a, b, c, sqrt) == [x1, x2];
    RootOfQuadratic(a, b, c, s, x1);
    RootOfQuadratic(a, b, c, -s, x2);
    RootsSumAndProduct(a, b, c, s, x1, x2);
  }

  /** With a == 0 the equation is b x + c = 0, solved by -c/b. */
  lemma LinearRoot(b: real, c: real)
    requires b != 0.0
    ensures Quadratic(0.0, b, c, -c / b) == 0.0
  {
    assert b * (-c / b) == -c;
  }

  /** A solution of 2 a x == -b + s with s^2 == b^2 - 4ac is a root. */
  lemma RootOfQuadratic(a: real, b: real, c: real, s: real, x: real)
    requires a != 0.0 && s * s == Discriminant(a, b, c) && 2.0 * a * x == -b + s
    ensures Quadratic(a, b, c, x) == 0.0
  {
    var y := 2.0 * a * x;
    assert 4.0 * a * Quadratic(a, b, c, x) == y * y + 2.0 * b * y + 4.0 * a * c;
    assert y * y + 2.0 * b * y + 4.0 * a * c == s * s - b * b + 4.0 * a * c;
  }

  /** At the vertex x == -b/(2a), 4a times the value is -d. */
  lemma VertexResidual(a: real, b: real, c: real, x: real)
    requires a != 0.0 && x == -b / (2.0 * a)
    ensures 4.0 * a * Quadratic(a, b, c, x) == -Discriminant(a, b, c)
  {
    var y := 2.0 * a * x;
    assert y == -b;
    assert 4.0 * a * Quadratic(a, b, c, x) == y * y + 2.0 * b * y + 4.0 * a * c;
  }

  /** Vieta's formulas for the two roots, and their order for a > 0. */
  lemma RootsSumAndProduct(a: real, b: real, c: real, s: real, x1: real, x2: real)
    requires a != 0.0 && IsSqrt(Discriminant(a, b, c), s)
    requires x1 == (-b + s) / (2.0 * a) && x2 == (-b - s) / (2.0 * a)
    ensures a * (x1 + x2) == -b
    ensures a * x1 * x2 == c
    ensures a > 0.0 ==> x1 >= x2
  {
    var y1, y2 := 2.0 * a * x1, 2.0 * a * x2;
    assert y1 == -b + s && y2 == -b - s;
    assert y1 * y2 == b * b - s * s;
    assert 4.0 * a * (a * x1 * x2) == y1 * y2;
    assert 2.0 * (a * (x1 + x2)) == y1 + y2;
    if a > 0.0 {
      assert 2.0 * a * (x1 - x2) == 2.0 * s;
    }
  }
}
