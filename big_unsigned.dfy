/** BigUnsigned.java: a non-negative integer of unbounded size. The
    BigInteger it wraps is an unbounded `int` here, so nothing wraps around
    and only the sign checks remain. */
module BigUnsignedNumbers {
  import opened Outcomes
  import JavaText
  import Divisibility

  datatype BigUnsigned = BigUnsigned(value: int)

  /** The constructor's guarantee: the value is not negative. */
  predicate Valid(u: BigUnsigned) {
    u.value >= 0
  }

  /** BigUnsigned(BigInteger): an IllegalArgumentException for a negative value. */
  function New(v: int): (r: Result<BigUnsigned>)
    ensures r.Err? <==> v < 0
    ensures r.Err? ==> r.error == IllegalArgument("BigUnsigned must be >= 0")
    ensures r.Ok? ==> Valid(r.value) && r.value.value == v
  {
    if v < 0 then Err(IllegalArgument("BigUnsigned must be >= 0")) else Ok(BigUnsigned(v))
  }

  /** BigUnsigned.add: never fails; the exact sum. */
  function Add(a: BigUnsigned, b: BigUnsigned): (r: Result<BigUnsigned>)
    requires Valid(a) && Valid(b)
    ensures r.Ok? && Valid(r.value)
    ensures r.value.value == a.value + b.value
  {
    New(a.value + b.value)
  }

  /** BigUnsigned.subtract: fails exactly when the subtrahend is the larger;
      otherwise the exact difference. */
  function Subtract(a: BigUnsigned, b: BigUnsigned): (r: Result<BigUnsigned>)
    requires Valid(a) && Valid(b)
    ensures r.Err? <==> b.value > a.value
    ensures r.Err? ==> r.error == ArithmeticError("Result of BigUnsigned.subtract is negative")
    ensures r.Ok? ==> Valid(r.value) && r.value.value == a.value - b.value
  {
    var res := a.value - b.value;
    if res < 0 then Err(ArithmeticError("Result of BigUnsigned.subtract is negative")) else New(res)
  }

  /** BigUnsigned.multiply: never fails; the exact product. */
  function Multiply(a: BigUnsigned, b: BigUnsigned): (r: Result<BigUnsigned>)
    requires Valid(a) && Valid(b)
    ensures r.Ok? && Valid(r.value)
    ensures r.value.value == a.value * b.value
  {
    New(a.value * b.value)
  }

  /** BigUnsigned.divide: fails exactly for a zero divisor; otherwise the
      quotient rounded down (BigInteger.divide truncates, which for
      non-negative operands is the same). */
  function Divide(a: BigUnsigned, b: BigUnsigned): (r: Result<BigUnsigned>)
    requires Valid(a) && Valid(b)
    ensures r.Err? <==> b.value == 0
    ensures r.Err? ==> r.error == ArithmeticError("Division by zero")
    ensures r.Ok? ==> Valid(r.value) &&
                      r.value.value * b.value <= a.value < (r.value.value + 1) * b.value
  {
    if b.value == 0 then Err(ArithmeticError("Division by zero"))
    else
      Divisibility.FloorQuotient(a.value, b.value);
      New(a.value / b.value)
  }

  /** BigUnsigned.toString: the decimal digits of the value, without a sign. */
  function ToString(u: BigUnsigned): (s: string)
    requires Valid(u)
    ensures |s| >= 1 && JavaText.AllDigits(s)
    ensures JavaText.DigitsValue(s) == u.value
  {
    JavaText.IntToString(u.value)
  }

  /** Subtraction undoes addition. */
  lemma AddThenSubtract(a: BigUnsigned, b: BigUnsigned)
    requires Valid(a) && Valid(b)
    ensures Subtract(Add(a, b).value, b) == Ok(a)
  {
  }

  /** Division undoes multiplication by a non-zero factor. */
  lemma MultiplyThenDivide(a: BigUnsigned, b: BigUnsigned)
    requires Valid(a) && Valid(b) && b.value != 0
    ensures Divide(Multiply(a, b).value, b) == Ok(a)
  {
    assert a.value * b.value == b.value * a.value;
    Divisibility.MultipleMod(b.value, a.value);
  }

  /** Distinct values print differently: toString loses nothing. */
  lemma ToStringInjective(a: BigUnsigned, b: BigUnsigned)
    requires Valid(a) && Valid(b) && ToString(a) == ToString(b)
    ensures a == b
  {
  }
}
