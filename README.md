# Polynome project: exact-arithmetic numbers, polynomials and equations

The repository is a small Java library. It provides:

- **`Rational`**: a fraction of two `long`s. Its constructor moves the sign
  to the numerator and divides out the gcd, and every arithmetic operation
  goes back through that constructor.
- **`Unsigned`**: a non-negative `long`. It detects overflow by testing
  whether the wrapped result is negative.
- **`BigUnsigned`**: a non-negative `BigInteger`.
- **`Polynome`**: a polynomial whose coefficient array is indexed by power.
  Every result is trimmed of trailing coefficients below 1e-12. It supports
  evaluation, derivative, integral, definite integral, sum, difference and
  product.
- **`EquationSolver`**: the linear equation `a x + b = 0` over `Rational`s,
  and the quadratic `a x^2 + b x + c = 0` over doubles.

This Dafny project models that core. The modules are:

- **`JavaLong`** (`java_long.dfy`): Java's `long` written out over unbounded
  integers. It covers two's-complement wrap-around and the truncating `/`
  and `%`.
- **`JavaText`** (`java_text.dfy`): the pieces of `java.lang` text handling
  the core relies on. These are `Long.toString`, `Long.parseLong`,
  `String.trim` and `String.split` around one character.
- **`JavaMath`** (`java_math.dfy`): `Math.abs` on doubles, read over
  exact reals. The polynomial trim and the quadratic solver share it.
- **`Divisibility`** (`divisibility.dfy`): the mathematical gcd and its
  facts.
- **`Outcomes`** (`outcomes.dfy`): the `Result` type. A thrown exception is
  an `Err` naming the exception class and, where the code gives one, its
  message.
- **`RationalNumbers`** (`rational.dfy`):
  - `Rational.gcd` is an imperative Euclid loop (`Gcd`), specified by the
    recursive `LongGcd`.
  - The constructor is a method reassigning its parameters (`New`),
    specified by the function `Construct`.
  - The arithmetic, `parse` and `toString` are functions.
  - Every `long` operation of the code keeps its wrap-around.
  - `Reduce`, the exact canonical form, is what the constructor is meant to
    compute.
- **`UnsignedNumbers`** and **`BigUnsignedNumbers`** (`unsigned.dfy`,
  `big_unsigned.dfy`): immutable values with `Result`-returning
  operations.
- **`Polynomials`** (`polynomials.dfy`): the class `Polynome` with its
  `coeffs: array<real>` field. Its loops mirror the Java ones, and each
  method is proved against a function on coefficient sequences (`Trim`,
  `Eval`, `DerivativeSeq`, `IntegralSeq`, `AddSeq`, `SubSeq`, `MulSeq`).
  Coefficients are exact reals.
- **`EquationSolver`** (`equation_solver.dfy`): `solveLinear` over the
  `Rational` model, and `solveQuadratic` over reals. `Math.sqrt` is passed
  in as a function; the lemmas about the roots assume only that it returns
  a true square root.
- **`Scenarios`** (`scenarios.dfy`): the worked examples of the
  repository's demonstration programs, stated as lemmas.

Paths in the table are relative to the repository root, under
`project/src/`.

## Model

| member | source | states |
|---|---|---|
| RationalNumbers.LongGcd | project/src/numbers/Rational.java:88-95 | gcd read as a recursion over `long`s with Java's `%`. The result is a `long`, non-zero when b is, and for non-negative arguments it is the mathematical gcd. |
| RationalNumbers.Gcd | project/src/numbers/Rational.java:88-95 | The Euclid loop computes LongGcd (its invariant: the gcd of the loop variables never changes). For a, b ≥ 0 it is the greatest common divisor, and gcd(0, b) = b. |
| RationalNumbers.GcdIsGreatestCommonDivisor | project/src/numbers/Rational.java:88-95 | For a, b ≥ 0 not both zero, the gcd is positive, divides both, and is divisible by every common divisor. |
| RationalNumbers.Reduce | project/src/numbers/Rational.java:52-58 | The exact canonical form of n/d: positive denominator, coprime parts, the same value, and parts no larger than n and d. |
| RationalNumbers.ReduceRespectsValue | project/src/numbers/Rational.java:52-58 | Two fractions of equal value have the same canonical form. |
| RationalNumbers.CanonicalUnique | project/src/numbers/Rational.java:52-58 | Two canonical fractions of equal value are identical. |
| RationalNumbers.Construct | project/src/numbers/Rational.java:48-59 | Fails with "Denominator must not be zero" exactly when d == 0. The result's fields are `long`s. With neither argument equal to Long.MIN_VALUE, the result is the canonical form of n/d. |
| RationalNumbers.ConstructExact | project/src/numbers/Rational.java:52-58 | Without MIN among the arguments, the sign flip, gcd and divisions of the constructor do not wrap and compute Reduce. |
| RationalNumbers.New | project/src/numbers/Rational.java:48-59 | The constructor body as written (parameters reassigned, gcd loop called) agrees with Construct. It throws exactly for a zero denominator. Otherwise, unless an argument is MIN, it yields a valid Rational (denominator > 0, gcd(abs(n), d) == 1) of the same value. |
| RationalNumbers.ConstructCanonicalUnique | project/src/numbers/Rational.java:48-59 | Arguments of equal value produce identical fields. |
| RationalNumbers.ConstructMinNumerator | project/src/numbers/Rational.java:52-58 | new Rational(Long.MIN_VALUE, 6) has the fields 4611686018427387904 / −3. These are not canonical: the denominator is negative. |
| RationalNumbers.ConstructZero | project/src/numbers/Rational.java:48-59 | Zero over any non-zero `long` denominator becomes 0/1, which is the default constructor's value. This includes Long.MIN_VALUE, where the wrapped sign flip and the gcd loop end at MIN and MIN / MIN is 1. |
| RationalNumbers.Add | project/src/numbers/Rational.java:121-125 | When the exact cross-products fit in `long`, the sum of two valid Rationals is the canonical form of the exact sum. |
| RationalNumbers.Subtract | project/src/numbers/Rational.java:133-137 | The same for the difference. |
| RationalNumbers.Multiply | project/src/numbers/Rational.java:145-149 | The same for the product. |
| RationalNumbers.Divide | project/src/numbers/Rational.java:158-165 | "Division by zero" when the divisor's numerator is 0. Otherwise, when the products fit, the canonical form of the exact quotient, with a positive denominator even for a negative divisor. |
| RationalNumbers.DivideThenMultiply | project/src/numbers/Rational.java:145-165 | The quotient times the divisor equals the dividend as values; when those products fit too, Multiply gives back the dividend's fields. |
| RationalNumbers.AddThenSubtract | project/src/numbers/Rational.java:121-137 | Subtracting b from a + b gives back a when nothing overflows. |
| RationalNumbers.SubtractOfSum | project/src/numbers/Rational.java:133-137 | Any valid Rational equal in value to a + b gives a back when b is subtracted. |
| RationalNumbers.ToString | project/src/numbers/Rational.java:217-222 | The text has a '/' exactly when the denominator is not 1. |
| RationalNumbers.Parse | project/src/numbers/Rational.java:68-79 | Every parsed result has `long` fields. Every failure is one of three: an index error (a missing piece), a NumberFormatException (a bad number) or the constructor's "Denominator must not be zero". |
| RationalNumbers.ParseMissingDenominator | project/src/numbers/Rational.java:68-79 | "5/" fails with an index error, not with the NumberFormatException documented at Rational.java:66. |
| RationalNumbers.ParseChecked | project/src/numbers/Rational.java:66-79 | parse as documented: it succeeds exactly where Parse does, with the same result. It fails only with a NumberFormatException or the zero-denominator error. |
| RationalNumbers.ParseOfToString | project/src/numbers/Rational.java:68-79 | Parsing the text of a valid Rational gives it back. |
| RationalNumbers.ParseOfToStringMinNumerator | project/src/numbers/Rational.java:68-79 | For the valid value MIN/5 the round-trip fails: the text parses to the fields MIN / −5. |
| UnsignedNumbers.New | project/src/numbers/Unsigned.java:32-37 | IllegalArgumentException exactly for a negative value; otherwise a non-negative `long`. |
| UnsignedNumbers.AddSignCheck | project/src/numbers/Unsigned.java:67-73 | For non-negative `long`s, the wrapped sum is negative exactly when the true sum exceeds Long.MAX_VALUE, and otherwise equals it. |
| UnsignedNumbers.Add | project/src/numbers/Unsigned.java:67-73 | Fails exactly when the true sum exceeds Long.MAX_VALUE; otherwise returns the exact sum. |
| UnsignedNumbers.Subtract | project/src/numbers/Unsigned.java:82-88 | Fails exactly when the subtrahend is larger; otherwise returns the exact difference. |
| UnsignedNumbers.Multiply | project/src/numbers/Unsigned.java:97-103 | Never returns a negative value. Returns the exact product whenever that fits in a `long`. |
| UnsignedNumbers.Divide | project/src/numbers/Unsigned.java:112-118 | "Division by zero" exactly for a zero divisor; otherwise the quotient q with q·b ≤ a < (q+1)·b. |
| UnsignedNumbers.ToString | project/src/numbers/Unsigned.java:169-171 | The decimal digits of the value. |
| UnsignedNumbers.Parse | project/src/numbers/Unsigned.java:46-49 | A result is a valid Unsigned. A failure is a NumberFormatException or the constructor's IllegalArgumentException. |
| UnsignedNumbers.ParseOfToString | project/src/numbers/Unsigned.java:46-49 | Parsing the text of an Unsigned gives it back. |
| UnsignedNumbers.AddThenSubtract | project/src/numbers/Unsigned.java:67-88 | Subtracting what add accepted gives back the original. |
| BigUnsignedNumbers.New | project/src/numbers/BigUnsigned.java:33-38 | IllegalArgumentException exactly for a negative value; otherwise that value. |
| BigUnsignedNumbers.Add | project/src/numbers/BigUnsigned.java:75-77 | Never fails; the exact sum. |
| BigUnsignedNumbers.Subtract | project/src/numbers/BigUnsigned.java:86-92 | Fails exactly when the subtrahend is larger; otherwise the exact difference. |
| BigUnsignedNumbers.Multiply | project/src/numbers/BigUnsigned.java:100-102 | Never fails; the exact product. |
| BigUnsignedNumbers.Divide | project/src/numbers/BigUnsigned.java:111-116 | "Division by zero" exactly for a zero divisor; otherwise the floor quotient. |
| BigUnsignedNumbers.ToString | project/src/numbers/BigUnsigned.java:167-169 | Non-empty decimal digits whose value is the number. |
| BigUnsignedNumbers.AddThenSubtract | project/src/numbers/BigUnsigned.java:75-92 | Subtraction undoes addition. |
| BigUnsignedNumbers.MultiplyThenDivide | project/src/numbers/BigUnsigned.java:100-116 | Division by a non-zero factor undoes multiplication. |
| BigUnsignedNumbers.ToStringInjective | project/src/numbers/BigUnsigned.java:167-169 | Distinct values print differently. |
| Polynomials.Trim | project/src/polynominal/Polynome.java:101-109 | The result is a prefix of the input, of length at least 1 for a non-empty input. Its last element is not below 1e-12 unless it is the only one, and only elements below 1e-12 are dropped. |
| Polynomials.TrimUnique | project/src/polynominal/Polynome.java:101-109 | Trim's contract determines its result. |
| Polynomials.TrimIdempotent | project/src/polynominal/Polynome.java:101-109 | Trimming twice is trimming once, and a trimmed sequence is left unchanged. |
| Polynomials.TrimTrailingZeros | project/src/polynominal/Polynome.java:101-109 | The `last`-decrementing loop and prefix copy return a fresh array holding Trim of the input. |
| Polynomials.Polynome.Zero | project/src/polynominal/Polynome.java:29-31 | The default polynomial has coefficients [0.0], in a fresh array, and is trimmed. |
| Polynomials.Polynome.constructor | project/src/polynominal/Polynome.java:39-44 | The coefficients are the trimmed input, in a fresh array. |
| Polynomials.Polynome.Copy | project/src/polynominal/Polynome.java:52-54 | A fresh array holding the other's coefficients re-trimmed; for a trimmed polynomial, exactly its coefficients. |
| Polynomials.Polynome.Degree | project/src/polynominal/Polynome.java:116-118 | The degree is one less than the number of coefficients (-1 for an empty array). For degree ≥ 1 in a trimmed polynomial, the leading coefficient is not below 1e-12. |
| Polynomials.Polynome.ValueAt | project/src/polynominal/Polynome.java:126-134 | The loop returns Σ coeffs[i]·x^i. Its invariants: res is the partial sum and pow is x^i. |
| Polynomials.DerivativeSeq | project/src/polynominal/Polynome.java:141-150 | [0.0] for a constant; otherwise length n−1 with d[i] = c[i+1]·(i+1). |
| Polynomials.Polynome.Derivative | project/src/polynominal/Polynome.java:141-150 | The loop fills the trimmed DerivativeSeq, in a fresh array. An empty coefficient array is a NegativeArraySizeException. |
| Polynomials.IntegralSeq | project/src/polynominal/Polynome.java:157-164 | Length n+1 with t[0] = 0 and t[i+1] = c[i]/(i+1). |
| Polynomials.Polynome.Integral | project/src/polynominal/Polynome.java:157-164 | The loop fills the trimmed IntegralSeq, in a fresh array. |
| Polynomials.DerivativeOfIntegral | project/src/polynominal/Polynome.java:141-164 | Differentiating the integral gives back the coefficients. |
| Polynomials.IntegralThenDerivative | project/src/polynominal/Polynome.java:141-164 | The same through the trimming constructor: integral().derivative() of a trimmed polynomial is itself, when the integral's top coefficient is not trimmed away. |
| Polynomials.IntegralOfDerivative | project/src/polynominal/Polynome.java:141-164 | Integrating the derivative loses only the constant term. |
| Polynomials.Polynome.DefiniteIntegral | project/src/polynominal/Polynome.java:173-176 | Returns F(b) − F(a) for the trimmed antiderivative F, and 0 when a == b. |
| Polynomials.AddSeq | project/src/polynominal/Polynome.java:184-193 | Length max(n1, n2); entry i is the sum of the entries, with a missing one read as 0. |
| Polynomials.SubSeq | project/src/polynominal/Polynome.java:201-210 | The same with the difference. |
| Polynomials.Polynome.Add | project/src/polynominal/Polynome.java:184-193 | The padded loop fills the trimmed AddSeq, in a fresh array. |
| Polynomials.Polynome.Subtract | project/src/polynominal/Polynome.java:201-210 | The padded loop fills the trimmed SubSeq, in a fresh array. |
| Polynomials.AddSeqCommutes | project/src/polynominal/Polynome.java:184-193 | add is commutative. |
| Polynomials.AddZero | project/src/polynominal/Polynome.java:184-193 | Adding the zero polynomial [0.0] to a trimmed polynomial gives back its coefficients, before and after trimming. |
| Polynomials.SubtractSelf | project/src/polynominal/Polynome.java:201-210 | p − p trims to the zero polynomial [0.0]. |
| Polynomials.EvalOfSum | project/src/polynominal/Polynome.java:126-134 | The value of a sum is the sum of the values. |
| Polynomials.WeightedAgrees | project/src/polynominal/Polynome.java:126-134 | The zero-padded power sum equals the partial sum, and past the last coefficient it equals the value. |
| Polynomials.MulSeq | project/src/polynominal/Polynome.java:218-226 | Length n1+n2−1; entry k is Σ a[i]·b[k−i] over the i where both exist. |
| Polynomials.Polynome.Multiply | project/src/polynominal/Polynome.java:218-226 | The nested loop adding into res[i+j] leaves exactly MulSeq, then trimmed, in a fresh array. Two empty operands are a NegativeArraySizeException. |
| Polynomials.MultiplyByOne | project/src/polynominal/Polynome.java:218-226 | Multiplying by the constant 1 gives back the coefficients. |
| Polynomials.MultiplyByZero | project/src/polynominal/Polynome.java:218-226 | Multiplying by the zero polynomial [0.0] trims to [0.0]. |
| Polynomials.MulSeqDistributes | project/src/polynominal/Polynome.java:218-226 | On untrimmed coefficients, multiply distributes over add: a·(b + c) == a·b + a·c, entry by entry. |
| Polynomials.TrimBreaksDistributivity | project/src/polynominal/Polynome.java:218-226 | For p = 1e13·x, q = x and r = (−1 + 1e-13)·x, all trimmed, p·(q + r) trims to [0.0] but p·q + p·r is x². |
| EquationSolver.SolveLinear | project/src/equations/EquationSolver.java:18-24 | "Coefficient a must not be zero" when a's numerator is 0. Otherwise, when the products fit, a valid Rational x with a·x + b = 0. |
| EquationSolver.LinearSolution | project/src/equations/EquationSolver.java:22-23 | −b is built exactly, and (−b)/a solves the equation. |
| EquationSolver.SolveQuadratic | project/src/equations/EquationSolver.java:34-52 | At most two roots. For a == b == 0, none. For a == 0 ≠ b, one root that solves b x + c = 0. For a ≠ 0: none exactly when the discriminant is negative, one when it is in [0, 1e-12), two otherwise. |
| EquationSolver.VertexOfSmallDiscriminant | project/src/equations/EquationSolver.java:44-45 | The single root −b/(2a) misses the equation by exactly −d/(4a), so it is exact when d == 0. |
| EquationSolver.TwoRootsSolve | project/src/equations/EquationSolver.java:46-50 | For every a ≠ 0, element 0 is (−b + √d)/(2a) and element 1 is (−b − √d)/(2a). With a true square root, both solve the equation and satisfy Vieta's formulas. For a > 0 the first is the larger. |
| EquationSolver.RootOfQuadratic | project/src/equations/EquationSolver.java:47-49 | A value x with 2a·x = −b + s, where s² = d, is a root. |
| EquationSolver.RootsSumAndProduct | project/src/equations/EquationSolver.java:47-49 | The two roots sum to −b/a and multiply to c/a; for a > 0 the first is the larger. |
| JavaLong.Wrap | project/src/numbers/Unsigned.java:68 | A `long` result is the exact one reduced modulo 2^64 into [MIN, MAX], unchanged when it already fits. |
| JavaLong.AddOfWrapped | project/src/numbers/Rational.java:122 | A chain of `long` additions wraps only once: it equals the wrapped exact sum. |
| JavaLong.SubOfWrapped | project/src/numbers/Rational.java:134 | The same for subtraction. |
| JavaLong.NegNonZero | project/src/numbers/Rational.java:52-55 | Negating a non-zero denominator never gives 0, and −MIN wraps to MIN. |
| JavaLong.Abs | project/src/numbers/Rational.java:56 | Math.abs is the magnitude, except that Math.abs(MIN) is MIN. |
| JavaLong.Rem | project/src/numbers/Rational.java:90 | Java's `%`: smaller in magnitude than the divisor, and the mathematical remainder for non-negative operands. |
| JavaLong.DivRemIdentity | project/src/numbers/Rational.java:90 | Truncating quotient times divisor plus remainder is the dividend. |
| JavaText.IntToString | project/src/numbers/Rational.java:217-222 | Long.toString: a non-empty text with no '/', ending in a digit; for a non-negative value, exactly its decimal digits. |
| JavaText.ParseLong | project/src/numbers/Rational.java:72-76 | Long.parseLong: a result is a `long`; every failure is a NumberFormatException. |
| JavaText.ParseLongOfToString | project/src/numbers/Rational.java:72-76 | Parsing the decimal form of a `long` gives it back. |
| JavaText.SplitOneSeparator | project/src/numbers/Rational.java:71 | Splitting "a/b" on '/' gives [a, b]. |
| JavaText.TrimVisible | project/src/numbers/Rational.java:69 | trim leaves a text alone when it starts and ends with a visible character. |
| Scenarios.RationalSumExample | project/src/tests/RationalTest.java:25-30 | 1/2 + 3/4 is 5/4, printed "5/4". |
| Scenarios.RationalArithmeticExamples | project/src/tests/RationalTest.java:31-33 | 1/2 − 3/4 = −1/4, 1/2 · 3/4 = 3/8, and 1/2 ÷ 3/4 = 2/3. |
| Scenarios.RationalParseFractionExample | project/src/tests/RationalTest.java:35 | "5/6" parses to 5/6. |
| Scenarios.RationalParseIntegerExample | project/src/tests/RationalTest.java:36 | "2" parses to 2/1. |
| Scenarios.UnsignedExamples | project/src/tests/UnsignedTest.java:25-33 | 10 and 3 give 13, 7, 30 and 3. |
| Scenarios.UnsignedSubtractFailsExample | project/src/numbers/Unsigned.java:82-88 | 3 − 10 throws "Result of Unsigned.subtract is negative". |
| Scenarios.UnsignedParseExample | project/src/tests/UnsignedTest.java:35 | "25" parses to 25. |
| Scenarios.BigUnsignedExamples | project/src/tests/BigUnsignedTest.java:25-33 | 10^19 and 2 give 10000000000000000002, 9999999999999999998, 2·10^19 and 5·10^18. |
| Scenarios.PolynomeValueExamples | project/src/tests/PolynomeTest.java:31-34 | For p = 1 − 3x + 2x², p(0) = 1 and p(1) = 0. |
| Scenarios.PolynomeCalculusExamples | project/src/tests/PolynomeTest.java:35-37 | p' = −3 + 4x, ∫p = x − 1.5x² + (2/3)x³, and ∫₀¹ p = 1/6. |
| Scenarios.LinearEquationExample | project/src/tests/Main.java:193-196 | 2x + 3 = 0 gives −3/2. |
| Scenarios.QuadraticEquationExample | project/src/tests/Main.java:198 | x² − 3x + 2 = 0 gives [2, 1]. |

## Left out

- File persistence (`saveToFile`/`readFromFile` in every class) is I/O.
- The `toDouble` conversions are left out because they are IEEE rounding.
  So are the `Polynome` constructors from `Rational[]`, `Unsigned[]` and
  `BigUnsigned[]` (Polynome.java:61-93), which depend on those conversions.
- `Polynome.toString` depends on Java's `Double.toString` rendering, so it
  is left out.
- IEEE-754 doubles are modelled as exact reals. The model therefore does
  not capture rounding in `valueAt`, in the polynomial arithmetic or in
  `solveQuadratic`. Nor does it capture NaN, infinities or signed zero;
  for example, `a == 0.0` is also true for `-0.0` in Java.
- `Math.sqrt` is a function parameter. The root lemmas assume it returns a
  true square root, which for doubles holds only approximately.
- `BigUnsigned(String)` and `BigUnsigned.parse` delegate to the
  `BigInteger` string constructor, which is library code.
- `Long.parseLong` is modelled for ASCII digits only. Java also accepts
  other Unicode decimal digits.
- Null arguments, and the exceptions they raise, are not modelled.
- `Numeric` (a one-method interface) and `Serializable` carry no behaviour.
- The demonstration drivers (`Main` and the `*Test` programs) are console
  programs. Only their example values appear, in `Scenarios`.
- Update in place and aliasing are modelled only for `Polynome`. `Rational`,
  `Unsigned` and `BigUnsigned` are immutable in the source and are values
  here.
- RationalNumbers.Add: its ensures is stated only when the exact
  cross-products and the product of denominators fit in a `long` other
  than MIN. Outside that range the wrapped arithmetic is modelled, but
  nothing is promised. AddDenominatorWraps shows 1/2^32 + 1/2^32 failing
  with "Denominator must not be zero".
- RationalNumbers.Subtract: the same restriction as Add.
- RationalNumbers.Multiply: the same restriction as Add.
- RationalNumbers.Divide: the same restriction as Add.
- RationalNumbers.Construct: canonical form is promised only when neither
  argument is Long.MIN_VALUE. With a MIN denominator the sign flip wraps;
  with a MIN numerator Math.abs returns MIN and the gcd comes out negative
  (see Findings).
- RationalNumbers.New: the same as Construct.
- RationalNumbers.ParseOfToString: requires a numerator other than
  Long.MIN_VALUE, because there the round-trip is false.
  ParseOfToStringMinNumerator shows the valid value MIN/5 coming back as
  MIN / −5: Math.abs(MIN) is MIN, and the gcd loop ends at −1. The program
  never meets that value, because its constructor never produces the fields
  MIN / 5.
- EquationSolver.SolveLinear: a solution is promised only when b's
  numerator is not MIN and the products fit in a `long`.
- Polynomials.IntegralThenDerivative: requires the integral's top
  coefficient c[n−1]/n to be at least 1e-12 in magnitude. Otherwise the
  trim inside `integral()` removes it, and `derivative()` cannot restore it.
- Polynomials.MulSeqDistributes: distributivity is stated for untrimmed
  coefficient sequences only. Through the trimming constructor it fails,
  as TrimBreaksDistributivity shows.
- The value of a product (`valueAt` of `multiply` equal to the product of
  the values) is not stated as a lemma. The model covers multiply through
  MulSeq, its laws with 0 and 1, and distributivity.
- EquationSolver.TwoRootsSolve: the code lists the "+√d" root first, not
  the larger root. It is the larger one only for a > 0, which is what the
  lemma states.

## Findings

| source | as written | input that shows it | evidently intended | confidence | as-written member | corrected member |
|---|---|---|---|---|---|---|
| project/src/numbers/Rational.java:52-58 | a negative denominator is negated in `long`; −Long.MIN_VALUE wraps back to Long.MIN_VALUE | `new Rational(1, Long.MIN_VALUE)` keeps the fields −1 / Long.MIN_VALUE, a negative denominator | every Rational has a positive denominator and coprime parts | not executed | RationalNumbers.ConstructMinDenominator | RationalNumbers.Reduce |
| project/src/numbers/Rational.java:56-58 | the gcd is taken of `Math.abs(numerator)`, and Math.abs(Long.MIN_VALUE) is Long.MIN_VALUE | `new Rational(Long.MIN_VALUE, 6)`: the gcd loop ends at −2, giving the fields 4611686018427387904 / −3 | every Rational has a positive denominator and coprime parts | not executed | RationalNumbers.ConstructMinNumerator | RationalNumbers.Reduce |
| project/src/numbers/Rational.java:68-79 | "a/" splits into one piece, and `parts[1]` is read without a length check | `Rational.parse("5/")` throws ArrayIndexOutOfBoundsException | a NumberFormatException for malformed text, as the documentation at Rational.java:66 says | not executed | RationalNumbers.ParseMissingDenominator | RationalNumbers.ParseChecked |
| project/src/numbers/Unsigned.java:97-103 | overflow is reported only when the wrapped product is negative | `new Unsigned(4294967296L).multiply(new Unsigned(4294967296L))` returns 0 instead of throwing | "throws ArithmeticException on overflow of the long range", as the method's documentation at Unsigned.java:95 says | not executed | UnsignedNumbers.MultiplyMissesOverflow | UnsignedNumbers.MultiplyChecked |
