/** Unsigned.java: a non-negative `long` with checked arithmetic. Each
    operation computes one `long` expression (with wrap-around), rejects a
    negative result and builds a new immutable value. */
module UnsignedNumbers {
  import opened Outcomes
  import JavaLong
  import JavaText
  import Divisibility

  datatype Unsigned = Unsigned(value: int)

  /** The constructor's guarantee: a `long` that is not negative. */
  predicate Valid(u: Unsigned) {
    0 <= u.value <= JavaLong.MAX
  }

  /** Unsigned(long): an IllegalArgumentException for a negative value. */
  function New(v: int): (r: Result<Unsigned>)
    requires JavaLong.InLong(v)
    ensures r.Err? <==> v < 0
    ensures r.Err? ==> r.error == IllegalArgument("Unsigned value must be >= 0")
    ensures r.Ok? ==> Valid(r.value) && r.value.value == v
  {
    if v < 0 then Err(IllegalArgument("Unsigned value must be >= 0")) else Ok(Unsigned(v))
  }

  /** The sign test in add is exact: the wrapped sum of two non-negative
      `long`s is negative precisely when the true sum exceeds Long.MAX_VALUE,
      and otherwise it is the true sum. */
  lemma AddSignCheck(x: int, y: int)
    requires 0 <= x <= JavaLong.MAX && 0 <= y <= JavaLong.MAX
    ensures JavaLong.Add(x, y) < 0 <==> x + y > JavaLong.MAX
    ensures x + y <= JavaLong.MAX ==> JavaLong.Add(x, y) == x + y
  {
    if x + y > JavaLong.MAX {
      JavaLong.WrapAboveMaxIsNegative(x + y);
    }
  }

  /** Unsigned.add: fails exactly when the true sum exceeds Long.MAX_VALUE,
      and otherwise returns it. */
  function Add(a: Unsigned, b: Unsigned): (r: Result<Unsigned>)
    requires Valid(a) && Valid(b)
    ensures r.Err? <==> a.value + b.value > JavaLong.MAX
    ensures r.Err? ==> r.error == ArithmeticError("Overflow in Unsigned.add")
    ensures r.Ok? ==> Valid(r.value) && r.value.value == a.value + b.value
  {
    var v := JavaLong.Add(a.value, b.value);
    AddSignCheck(a.value, b.value);
    if v < 0 then Err(ArithmeticError("Overflow in Unsigned.add")) else New(v)
  }

  /** Unsigned.subtract: fails exactly when the subtrahend is the larger, and
      otherwise returns the true difference (which never wraps). */
  function Subtract(a: Unsigned, b: Unsigned): (r: Result<Unsigned>)
    requires Valid(a) && Valid(b)
    ensures r.Err? <==> b.value > a.value
    ensures r.Err? ==> r.error == ArithmeticError("Result of Unsigned.subtract is negative")
    ensures r.Ok? ==> Valid(r.value) && r.value.value == a.value - b.value
  {
    var v := JavaLong.Sub(a.value, b.value);
    if v < 0 then Err(ArithmeticError("Result of Unsigned.subtract is negative")) else New(v)
  }

  /** Unsigned.multiply as written: the wrapped product, rejected only when it
      is negative. A result is never negative, and it is the true product
      whenever that fits in a `long`; an overflow whose wrapped product is
      non-negative slips through (MultiplyMissesOverflow). */
  function Multiply(a: Unsigned, b: Unsigned): (r: Result<Unsigned>)
    requires Valid(a) && Valid(b)
    ensures r.Err? ==> r.error == ArithmeticError("Overflow in Unsigned.multiply")
    ensures r.Ok? ==> Valid(r.value)
    ensures a.value * b.value <= JavaLong.MAX ==> r == Ok(Unsigned(a.value * b.value))
  {
    var v := JavaLong.Mul(a.value, b.value);
    if v < 0 then Err(ArithmeticError("Overflow in Unsigned.multiply")) else New(v)
  }

  /** 2^32 * 2^32 = 2^64 wraps to 0, which passes the sign test: multiply
      returns 0 instead of reporting the overflow its documentation promises. */
  lemma MultiplyMissesOverflow()
    ensures 0x1_0000_0000 * 0x1_0000_0000 > JavaLong.MAX
    ensures Multiply(Unsigned(0x1_0000_0000), Unsigned(0x1_0000_0000)) == Ok(Unsigned(0))
  {
    JavaLong.WrapCongruent(0x1_0000_0000 * 0x1_0000_0000, 0);
  }

  /** multiply with the overflow test it documents: the wrapped product is
      checked by dividing it back, which detects every overflow. */
  function MultiplyChecked(a: Unsigned, b: Unsigned): (r: Result<Unsigned>)
    requires Valid(a) && Valid(b)
    ensures r.Err? <==> a.value * b.value > JavaLong.MAX
    ensures r.Err? ==> r.error == ArithmeticError("Overflow in Unsigned.multiply")
    ensures r.Ok? ==> Valid(r.value) && r.value.value == a.value * b.value
  {
    var v := JavaLong.Mul(a.value, b.value);
    DivisionDetectsOverflow(a.value, b.value);
    if a.value != 0 && JavaLong.Div(v, a.value) != b.value then
      Err(ArithmeticError("Overflow in Unsigned.multiply"))
    else New(v)
  }

  /** For non-negative `long`s x and y, dividing the wrapped product by x gives
      y back exactly when the true product fits. */
  lemma DivisionDetectsOverflow(x: int, y: int)
    requires 0 <= x <= JavaLong.MAX && 0 <= y <= JavaLong.MAX
    ensures x != 0 && JavaLong.Div(JavaLong.Mul(x, y), x) != y <==> x * y > JavaLong.MAX
    ensures x * y <= JavaLong.MAX ==> JavaLong.Mul(x, y) == x * y && x * y >= 0
  {
    if x * y <= JavaLong.MAX {
      if x != 0 {
        Divisibility.MultipleMod(x, y);
      }
    } else {
      OverflowChangesQuotient(x, y);
    }
  }

  lemma OverflowChangesQuotient(x: int, y: int)
    requires 0 < x <= JavaLong.MAX && 0 <= y <= JavaLong.MAX && x * y > JavaLong.MAX
    ensures JavaLong.Div(JavaLong.Mul(x, y), x) != y
  {
    assert y != 0;
    QuotientOfSmaller(JavaLong.Mul(x, y), x, y);
  }

  /** A `long` below x*y does not divide by x to y. */
  lemma QuotientOfSmaller(v: int, x: int, y: int)
    requires JavaLong.InLong(v) && x > 0 && y > 0 && v < x * y
    ensures JavaLong.Div(v, x) != y
  {
    var m := JavaLong.Magnitude(v);
    var k := m / x;
    assert x * k + m % x == m;
    Divisibility.MulAtLeast(k, x);
    assert k <= m;
    var q := JavaLong.TruncDiv(v, x);
    assert q == (if v < 0 then -k else k);
    assert JavaLong.Div(v, x) == q;
    if v >= 0 {
      assert x * q <= v;
    }
  }

  /** Unsigned.divide: fails exactly for a zero divisor; otherwise the
      truncating quotient, which for non-negative operands is the floor. */
  function Divide(a: Unsigned, b: Unsigned): (r: Result<Unsigned>)
    requires Valid(a) && Valid(b)
    ensures r.Err? <==> b.value == 0
    ensures r.Err? ==> r.error == ArithmeticError("Division by zero")
    ensures r.Ok? ==> Valid(r.value) &&
                      r.value.value * b.value <= a.value < (r.value.value + 1) * b.value
  {
    if b.value == 0 then Err(ArithmeticError("Division by zero"))
    else
      Divisibility.FloorQuotient(a.value, b.value);
      var v := JavaLong.Div(a.value, b.value);
      assert v == a.value / b.value;
      New(v)
  }

  /** Unsigned.toString: Long.toString of the value. */
  function ToString(u: Unsigned): (s: string)
    ensures Valid(u) ==> JavaText.AllDigits(s) && JavaText.DigitsValue(s) == u.value
  {
    JavaText.IntToString(u.value)
  }

  /** Unsigned.parse: Long.parseLong of the trimmed text, then the constructor. */
  function Parse(s: string): (r: Result<Unsigned>)
    ensures r.Ok? ==> Valid(r.value)
    ensures r.Err? ==> r.error == NumberFormat || r.error == IllegalArgument("Unsigned value must be >= 0")
  {
    var n := JavaText.ParseLong(JavaText.Trim(s));
    if n.Err? then Err(n.error) else New(n.value)
  }

  /** Parsing the text of an Unsigned gives it back. */
  lemma ParseOfToString(u: Unsigned)
    requires Valid(u)
    ensures Parse(ToString(u)) == Ok(u)
  {
    var s := ToString(u);
    JavaText.TrimVisible(s);
    JavaText.ParseLongOfToString(u.value);
  }

  /** Subtracting what was added gives back the original value. */
  lemma AddThenSubtract(a: Unsigned, b: Unsigned)
    requires Valid(a) && Valid(b) && Add(a, b).Ok?
    ensures Subtract(Add(a, b).value, b) == Ok(a)
  {
  }
}
