/** The worked examples of the repository's demonstration programs, stated
    over the model. */
module Scenarios {
  import opened Outcomes
  import Divisibility
  import JavaText
  import RationalNumbers
  import UnsignedNumbers
  import BigUnsignedNumbers
  import Polynomials
  import EquationSolver

  /** 1/2 + 3/4 is 5/4, printed "5/4". */
  lemma RationalSumExample()
    ensures RationalNumbers.Add(RationalNumbers.Rational(1, 2), RationalNumbers.Rational(3, 4)) ==
            Ok(RationalNumbers.Rational(5, 4))
    ensures RationalNumbers.ToString(RationalNumbers.Rational(5, 4)) == "5/4"
  {
    assert Divisibility.Gcd(10, 8) == 2;
  }

  /** 1/2 - 3/4 is -1/4, 1/2 * 3/4 is 3/8, 1/2 / 3/4 is 2/3. */
  lemma RationalArithmeticExamples()
    ensures RationalNumbers.Subtract(RationalNumbers.Rational(1, 2), RationalNumbers.Rational(3, 4)) ==
            Ok(RationalNumbers.Rational(-1, 4))
    ensures RationalNumbers.Multiply(RationalNumbers.Rational(1, 2), RationalNumbers.Rational(3, 4)) ==
            Ok(RationalNumbers.Rational(3, 8))
    ensures RationalNumbers.Divide(RationalNumbers.Rational(1, 2), RationalNumbers.Rational(3, 4)) ==
            Ok(RationalNumbers.Rational(2, 3))
  {
    assert Divisibility.Gcd(2, 8) == 2;
    assert Divisibility.Gcd(3, 8) == 1;
    assert Divisibility.Gcd(4, 6) == 2;
  }

  /** "5/6" parses to 5/6. */
  lemma RationalParseFractionExample()
    ensures RationalNumbers.Parse("5/6") == Ok(RationalNumbers.Rational(5, 6))
  {
    assert JavaText.IntToString(5) == "5";
    assert JavaText.IntToString(6) == "6";
    assert RationalNumbers.ToString(RationalNumbers.Rational(5, 6)) == "5/6";
    RationalNumbers.ParseOfToString(RationalNumbers.Rational(5, 6));
  }

  /** "2" parses to 2/1. */
  lemma RationalParseIntegerExample()
    ensures RationalNumbers.Parse("2") == Ok(RationalNumbers.Rational(2, 1))
  {
    assert JavaText.IntToString(2) == "2";
    assert RationalNumbers.ToString(RationalNumbers.Rational(2, 1)) == "2";
    RationalNumbers.ParseOfToString(RationalNumbers.Rational(2, 1));
  }

  /** 10 and 3: sum 13, difference 7, product 30, quotient 3. */
  lemma UnsignedExamples()
    ensures UnsignedNumbers.Add(UnsignedNumbers.Unsigned(10), UnsignedNumbers.Unsigned(3)) ==
            Ok(UnsignedNumbers.Unsigned(13))
    ensures UnsignedNumbers.Subtract(UnsignedNumbers.Unsigned(10), UnsignedNumbers.Unsigned(3)) ==
            Ok(UnsignedNumbers.Unsigned(7))
    ensures UnsignedNumbers.Multiply(UnsignedNumbers.Unsigned(10), UnsignedNumbers.Unsigned(3)) ==
            Ok(UnsignedNumbers.Unsigned(30))
    ensures UnsignedNumbers.Divide(UnsignedNumbers.Unsigned(10), UnsignedNumbers.Unsigned(3)) ==
            Ok(UnsignedNumbers.Unsigned(3))
  {
  }

  /** 3 - 10 is negative, so subtract throws. */
  lemma UnsignedSubtractFailsExample()
    ensures UnsignedNumbers.Subtract(UnsignedNumbers.Unsigned(3), UnsignedNumbers.Unsigned(10)) ==
            Err(ArithmeticError("Result of Unsigned.subtract is negative"))
  {
  }

  /** "25" parses to 25. */
  lemma UnsignedParseExample()
    ensures UnsignedNumbers.Parse("25") == Ok(UnsignedNumbers.Unsigned(25))
  {
    assert JavaText.NatToString(2) == "2";
    assert UnsignedNumbers.ToString(UnsignedNumbers.Unsigned(25)) == "25";
    UnsignedNumbers.ParseOfToString(UnsignedNumbers.Unsigned(25));
  }

  /** 10^19 and 2, beyond the range of `long`: sum 10000000000000000002,
      difference, product and quotient exact. */
  lemma BigUnsignedExamples()
    ensures BigUnsignedNumbers.Add(BigUnsignedNumbers.BigUnsigned(10_000_000_000_000_000_000),
                                   BigUnsignedNumbers.BigUnsigned(2)) ==
            Ok(BigUnsignedNumbers.BigUnsigned(10_000_000_000_000_000_002))
    ensures BigUnsignedNumbers.Subtract(BigUnsignedNumbers.BigUnsigned(10_000_000_000_000_000_000),
                                        BigUnsignedNumbers.BigUnsigned(2)) ==
            Ok(BigUnsignedNumbers.BigUnsigned(9_999_999_999_999_999_998))
    ensures BigUnsignedNumbers.Multiply(BigUnsignedNumbers.BigUnsigned(10_000_000_000_000_000_000),
                                        BigUnsignedNumbers.BigUnsigned(2)) ==
            Ok(BigUnsignedNumbers.BigUnsigned(20_000_000_000_000_000_000))
    ensures BigUnsignedNumbers.Divide(BigUnsignedNumbers.BigUnsigned(10_000_000_000_000_000_000),
                                      BigUnsignedNumbers.BigUnsigned(2)) ==
            Ok(BigUnsignedNumbers.BigUnsigned(5_000_000_000_000_000_000))
  {
  }

  /** p(x) = 1 - 3x + 2x^2: p(0) = 1 and p(1) = 0. */
  lemma PolynomeValueExamples()
    ensures Polynomials.Eval([1.0, -3.0, 2.0], 0.0) == 1.0
    ensures Polynomials.Eval([1.0, -3.0, 2.0], 1.0) == 0.0
  {
    var p := [1.0, -3.0, 2.0];
    assert Polynomials.PartialSum(p, 0.0, 1) == 1.0;
    assert Polynomials.PartialSum(p, 0.0, 2) == 1.0;
    assert Polynomials.PartialSum(p, 0.0, 3) == 1.0;
    assert Polynomials.PartialSum(p, 1.0, 1) == 1.0;
    assert Polynomials.PartialSum(p, 1.0, 2) == -2.0;
    assert Polynomials.PartialSum(p, 1.0, 3) == 0.0;
  }

  /** p' = -3 + 4x, and the integral of p is x - 1.5x^2 + (2/3)x^3, whose
      increase over [0, 1] is 1/6. */
  lemma PolynomeCalculusExamples()
    ensures Polynomials.Trim(Polynomials.DerivativeSeq([1.0, -3.0, 2.0])) == [-3.0, 4.0]
    ensures Polynomials.Trim(Polynomials.IntegralSeq([1.0, -3.0, 2.0])) == [0.0, 1.0, -1.5, 2.0 / 3.0]
    ensures Polynomials.Eval([0.0, 1.0, -1.5, 2.0 / 3.0], 1.0) - Polynomials.Eval([0.0, 1.0, -1.5, 2.0 / 3.0], 0.0) ==
            1.0 / 6.0
  {
    assert Polynomials.DerivativeSeq([1.0, -3.0, 2.0]) == [-3.0, 4.0];
    assert Polynomials.IntegralSeq([1.0, -3.0, 2.0]) == [0.0, 1.0, -1.5, 2.0 / 3.0];
    var f := [0.0, 1.0, -1.5, 2.0 / 3.0];
    assert Polynomials.PartialSum(f, 1.0, 2) == 1.0;
    assert Polynomials.PartialSum(f, 1.0, 3) == -0.5;
    assert Polynomials.PartialSum(f, 1.0, 4) == 1.0 / 6.0;
    assert Polynomials.PartialSum(f, 0.0, 2) == 0.0;
    assert Polynomials.PartialSum(f, 0.0, 4) == 0.0;
  }

  /** 2x + 3 = 0 gives -3/2. */
  lemma LinearEquationExample()
    ensures EquationSolver.SolveLinear(RationalNumbers.Rational(2, 1), RationalNumbers.Rational(3, 1)) ==
            Ok(RationalNumbers.Rational(-3, 2))
  {
    assert Divisibility.Gcd(3, 1) == 1;
    assert Divisibility.Gcd(3, 2) == 1;
  }

  /** x^2 - 3x + 2 = 0 gives [2, 1] when sqrt(1) is 1. */
  lemma QuadraticEquationExample(sqrt: real -> real)
    requires sqrt(1.0) == 1.0
    ensures EquationSolver.SolveQuadratic(1.0, -3.0, 2.0, sqrt) == [2.0, 1.0]
  {
    assert (-3.0) * (-3.0) - 4.0 * 1.0 * 2.0 == 1.0;
  }
}
