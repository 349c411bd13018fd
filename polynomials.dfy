/** Polynome.java: a polynomial in one variable whose coefficient array is
    indexed by power (coeffs[i] multiplies x^i). Every operation fills a fresh
    array and hands it to the constructor, which drops trailing coefficients
    smaller than 1e-12 in magnitude. Coefficients are exact reals here, not
    IEEE doubles. */
module Polynomials {
  import opened Outcomes
  import opened JavaMath

  /** The tolerance 1e-12 below which a trailing coefficient counts as zero. */
  const EPS: real := 0.000000000001

  // ---------------------------------------------------------------------------
  // Specification functions on coefficient sequences

  /** No trailing coefficient below the tolerance, except a lone constant term. */
  predicate IsTrimmed(c: seq<real>) {
    |c| <= 1 || Abs(c[|c| - 1]) >= EPS
  }

  /** What trimTrailingZeros keeps: the prefix left after dropping trailing
      coefficients below the tolerance, never dropping the constant term. The
      ensures clauses determine the result (TrimUnique). */
  function Trim(c: seq<real>): (t: seq<real>)
    ensures |t| <= |c| && t == c[..|t|]
    ensures |c| > 0 ==> |t| >= 1
    ensures IsTrimmed(t)
    ensures forall i :: |t| <= i < |c| ==> Abs(c[i]) < EPS
  {
    if IsTrimmed(c) then c else Trim(c[..|c| - 1])
  }

  /** Only one prefix is trimmed, non-empty for a non-empty input, and drops
      only small coefficients: Trim's contract pins its result down. */
  lemma TrimUnique(c: seq<real>, t: seq<real>)
    requires |t| <= |c| && t == c[..|t|]
    requires |c| > 0 ==> |t| >= 1
    requires IsTrimmed(t)
    requires forall i :: |t| <= i < |c| ==> Abs(c[i]) < EPS
    ensures t == Trim(c)
  {
  }

  /** Trimming twice is trimming once; a trimmed sequence is left alone. */
  lemma TrimIdempotent(c: seq<real>)
    ensures Trim(Trim(c)) == Trim(c)
    ensures IsTrimmed(c) ==> Trim(c) == c
  {
  }

  /** The coefficient of x^i, zero outside the array (the `i < length ? c[i] : 0.0`
      of add and subtract). */
  function Get(c: seq<real>, i: int): real {
    if 0 <= i < |c| then c[i] else 0.0
  }

  function Pow(x: real, n: nat): real {
    if n == 0 then 1.0 else Pow(x, n - 1) * x
  }

  /** The sum of the first n terms c[i] * x^i. */
  function PartialSum(c: seq<real>, x: real, n: nat): real
    requires n <= |c|
  {
    if n == 0 then 0.0 else PartialSum(c, x, n - 1) + c[n - 1] * Pow(x, n - 1)
  }

  /** The value of the polynomial with coefficients c at x: the sum of c[i] * x^i. */
  function Eval(c: seq<real>, x: real): real {
    PartialSum(c, x, |c|)
  }

  /** The untrimmed derivative: [0.0] for a constant, otherwise coefficient i
      of the result is coefficient i+1 times i+1. */
  function DerivativeSeq(c: seq<real>): (d: seq<real>)
    requires |c| >= 1
    ensures |c| == 1 ==> d == [0.0]
    ensures |c| >= 2 ==> |d| == |c| - 1 && forall i :: 0 <= i < |d| ==> d[i] == c[i + 1] * (i + 1) as real
  {
    if |c| == 1 then [0.0] else seq(|c| - 1, i requires 0 <= i < |c| - 1 => c[i + 1] * (i + 1) as real)
  }

  /** The untrimmed antiderivative with constant 0: coefficient i+1 is
      coefficient i divided by i+1. */
  function IntegralSeq(c: seq<real>): (t: seq<real>)
    ensures |t| == |c| + 1 && t[0] == 0.0
    ensures forall i :: 0 <= i < |c| ==> t[i + 1] == c[i] / (i + 1) as real
  {
    [0.0] + seq(|c|, i requires 0 <= i < |c| => c[i] / (i + 1) as real)
  }

  function Max(m: int, n: int): int {
    if m < n then n else m
  }

  /** The untrimmed sum: as long as the longer operand, missing coefficients read as 0. */
  function AddSeq(a: seq<real>, b: seq<real>): (s: seq<real>)
    ensures |s| == Max(|a|, |b|)
    ensures forall i :: 0 <= i < |s| ==> s[i] == Get(a, i) + Get(b, i)
  {
    seq(Max(|a|, |b|), i => Get(a, i) + Get(b, i))
  }

  /** The untrimmed difference, padded the same way. */
  function SubSeq(a: seq<real>, b: seq<real>): (s: seq<real>)
    ensures |s| == Max(|a|, |b|)
    ensures forall i :: 0 <= i < |s| ==> s[i] == Get(a, i) - Get(b, i)
  {
    seq(Max(|a|, |b|), i => Get(a, i) - Get(b, i))
  }

  /** The sum of a[i] * b[k - i] over i < n: the part of the coefficient of
      x^k contributed by the first n coefficients of a. */
  function Conv(a: seq<real>, b: seq<real>, n: nat, k: int): real
    requires n <= |a|
  {
    if n == 0 then 0.0 else Conv(a, b, n - 1, k) + a[n - 1] * Get(b, k - (n - 1))
  }

  /** The untrimmed product: |a| + |b| - 1 coefficients, coefficient k being
      the sum of a[i] * b[j] over i + j == k. */
  function MulSeq(a: seq<real>, b: seq<real>): (p: seq<real>)
    requires |a| + |b| >= 1
    ensures |p| == |a| + |b| - 1
    ensures forall k :: 0 <= k < |p| ==> p[k] == Conv(a, b, |a|, k)
  {
    seq(|a| + |b| - 1, k => Conv(a, b, |a|, k))
  }

  // ---------------------------------------------------------------------------
  // trimTrailingZeros

  /** Polynome.trimTrailingZeros: walk `last` down past small coefficients
      (never below index 0), then copy the prefix a[0..last] into a new array. */
  method TrimTrailingZeros(a: array<real>) returns (res: array<real>)
    ensures res[..] == Trim(a[..])
    ensures fresh(res)
  {
    ghost var s := a[..];
    var last := a.Length - 1;
    while last > 0 && Abs(a[last]) < EPS
      invariant -1 <= last < a.Length
      invariant a.Length > 0 ==> last >= 0
      invariant forall i :: last < i < a.Length ==> Abs(s[i]) < EPS
      decreases last
    {
      last := last - 1;
    }
    assert IsTrimmed(s[..last + 1]);
    TrimUnique(s, s[..last + 1]);
    res := new real[last + 1];
    forall i | 0 <= i < last + 1 {
      res[i] := a[i];
    }
    assert res[..] == s[..last + 1];
    assert a[..] == s;
  }

  // ---------------------------------------------------------------------------
  // The class

  class Polynome {
    var coeffs: array<real>

    /** Every Polynome is built by the trimming constructor. */
    ghost predicate Valid()
      reads this, coeffs
    {
      IsTrimmed(coeffs[..])
    }

    /** Polynome(): the zero polynomial, coefficients [0.0]. */
    constructor Zero()
      ensures coeffs[..] == [0.0]
      ensures fresh(coeffs)
      ensures Valid()
    {
      coeffs := new real[1](_ => 0.0);
    }

    /** Polynome(double[]): the coefficients, trimmed, in an array of its own. */
    constructor (c: array<real>)
      ensures coeffs[..] == Trim(c[..])
      ensures fresh(coeffs)
      ensures Valid()
    {
      var t := TrimTrailingZeros(c);
      coeffs := t;
    }

    /** Polynome(Polynome): the other's coefficients, trimmed again (a no-op on
        a valid Polynome), in an array of its own. */
    constructor Copy(other: Polynome)
      ensures coeffs[..] == Trim(other.coeffs[..])
      ensures other.Valid() ==> coeffs[..] == other.coeffs[..]
      ensures fresh(coeffs)
      ensures Valid()
    {
      var t := TrimTrailingZeros(other.coeffs);
      coeffs := t;
    }

    /** Polynome.degree: one less than the number of coefficients (-1 for an
        empty array); in a valid Polynome of degree at least 1 the leading
        coefficient is not below the tolerance. */
    function Degree(): (d: int)
      reads this, coeffs
      ensures d >= -1 && d + 1 == coeffs.Length
      ensures Valid() && d >= 1 ==> Abs(coeffs[d]) >= EPS
    {
      coeffs.Length - 1
    }

    /** Polynome.valueAt: the running sum of c * x^i, with x^i kept in `pow`. */
    method ValueAt(x: real) returns (res: real)
      ensures res == Eval(coeffs[..], x)
    {
      res := 0.0;
      var pow := 1.0;
      for i := 0 to coeffs.Length
        invariant res == PartialSum(coeffs[..], x, i)
        invariant pow == Pow(x, i)
      {
        res := res + coeffs[i] * pow;
        pow := pow * x;
      }
    }

    /** Polynome.derivative: [0.0] for a constant; otherwise coefficient i of
        the result is coeffs[i+1] * (i+1), trimmed. An empty array makes the
        code allocate an array of length -1. */
    method Derivative() returns (r: Result<Polynome>)
      ensures r.Err? <==> coeffs.Length == 0
      ensures r.Err? ==> r.error == NegativeArraySize
      ensures r.Ok? ==> r.value.coeffs[..] == Trim(DerivativeSeq(coeffs[..])) && r.value.Valid()
      ensures r.Ok? ==> fresh(r.value.coeffs)
    {
      if coeffs.Length == 1 {
        var z := new real[1](_ => 0.0);
        var p := new Polynome(z);
        return Ok(p);
      }
      if coeffs.Length == 0 {
        return Err(NegativeArraySize);
      }
      var c := coeffs;
      ghost var target := DerivativeSeq(c[..]);
      var d := new real[c.Length - 1];
      for i := 1 to c.Length
        invariant forall k :: 0 <= k < i - 1 ==> d[k] == target[k]
      {
        d[i - 1] := c[i] * i as real;
        assert d[i - 1] == target[i - 1];
      }
      assert d[..] == target;
      var p := new Polynome(d);
      return Ok(p);
    }

    /** Polynome.integral: coefficient 0 is 0.0 and coefficient i+1 is
        coeffs[i] / (i+1), trimmed. */
    method Integral() returns (p: Polynome)
      ensures p.coeffs[..] == Trim(IntegralSeq(coeffs[..]))
      ensures p.Valid() && fresh(p.coeffs)
    {
      ghost var target := IntegralSeq(coeffs[..]);
      var t := new real[coeffs.Length + 1];
      t[0] := 0.0;
      for i := 0 to coeffs.Length
        invariant forall k :: 0 <= k <= i ==> t[k] == target[k]
      {
        t[i + 1] := coeffs[i] / (i + 1) as real;
        assert t[i + 1] == target[i + 1];
      }
      assert t[..] == target;
      p := new Polynome(t);
    }

    /** Polynome.definiteIntegral: F(b) - F(a) for the trimmed antiderivative
        F; zero over an empty interval. */
    method DefiniteIntegral(a: real, b: real) returns (r: real)
      ensures r == Eval(Trim(IntegralSeq(coeffs[..])), b) - Eval(Trim(IntegralSeq(coeffs[..])), a)
      ensures a == b ==> r == 0.0
    {
      var F := Integral();
      var fb := F.ValueAt(b);
      var fa := F.ValueAt(a);
      r := fb - fa;
    }

    /** Polynome.add: coefficient-wise sum, the shorter operand padded with
        zeros, trimmed. */
    method Add(other: Polynome) returns (p: Polynome)
      ensures p.coeffs[..] == Trim(AddSeq(coeffs[..], other.coeffs[..]))
      ensures p.Valid() && fresh(p.coeffs)
    {
      ghost var target := AddSeq(coeffs[..], other.coeffs[..]);
      var n := Max(coeffs.Length, other.coeffs.Length);
      var res := new real[n];
      for i := 0 to n
        invariant forall k :: 0 <= k < i ==> res[k] == target[k]
      {
        var c1 := if i < coeffs.Length then coeffs[i] else 0.0;
        var c2 := if i < other.coeffs.Length then other.coeffs[i] else 0.0;
        res[i] := c1 + c2;
        assert res[i] == target[i];
      }
      assert res[..] == target;
      p := new Polynome(res);
    }

    /** Polynome.subtract: coefficient-wise difference, padded the same way. */
    method Subtract(other: Polynome) returns (p: Polynome)
      ensures p.coeffs[..] == Trim(SubSeq(coeffs[..], other.coeffs[..]))
      ensures p.Valid() && fresh(p.coeffs)
    {
      ghost var target := SubSeq(coeffs[..], other.coeffs[..]);
      var n := Max(coeffs.Length, other.coeffs.Length);
      var res := new real[n];
      for i := 0 to n
        invariant forall k :: 0 <= k < i ==> res[k] == target[k]
      {
        var c1 := if i < coeffs.Length then coeffs[i] else 0.0;
        var c2 := if i < other.coeffs.Length then other.coeffs[i] else 0.0;
        res[i] := c1 - c2;
        assert res[i] == target[i];
      }
      assert res[..] == target;
      p := new Polynome(res);
    }

    /** Polynome.multiply: a zero-filled array of length len1 + len2 - 1 into
        which every product coeffs[i] * other.coeffs[j] is added at index i + j;
        trimmed. Two empty operands make the code allocate length -1. */
    method Multiply(other: Polynome) returns (r: Result<Polynome>)
      ensures r.Err? <==> coeffs.Length + other.coeffs.Length == 0
      ensures r.Err? ==> r.error == NegativeArraySize
      ensures r.Ok? ==> r.value.coeffs[..] == Trim(MulSeq(coeffs[..], other.coeffs[..])) && r.value.Valid()
      ensures r.Ok? ==> fresh(r.value.coeffs)
    {
      if coeffs.Length + other.coeffs.Length == 0 {
        return Err(NegativeArraySize);
      }
      var a, b := coeffs, other.coeffs;
      ghost var sa, sb := a[..], b[..];
      var res := new real[a.Length + b.Length - 1](_ => 0.0);
      for i := 0 to a.Length
        invariant forall k :: 0 <= k < res.Length ==> res[k] == Conv(sa, sb, i, k)
      {
        for j := 0 to b.Length
          invariant forall k :: 0 <= k < res.Length ==>
                      res[k] == Conv(sa, sb, i, k) + (if i <= k < i + j then sa[i] * sb[k - i] else 0.0)
        {
          res[i + j] := res[i + j] + a[i] * b[j];
        }
      }
      assert res[..] == MulSeq(sa, sb);
      var p := new Polynome(res);
      return Ok(p);
    }
  }

  // ---------------------------------------------------------------------------
  // Properties of the specification functions

  lemma MulDivCancel(x: real, n: real)
    requires n != 0.0
    ensures (x * n) / n == x && (x / n) * n == x
  {
  }

  /** Integrating and then differentiating gives back the coefficients. */
  lemma DerivativeOfIntegral(c: seq<real>)
    requires |c| >= 1
    ensures DerivativeSeq(IntegralSeq(c)) == c
  {
    var t := IntegralSeq(c);
    var d := DerivativeSeq(t);
    forall i | 0 <= i < |c|
      ensures d[i] == c[i]
    {
      MulDivCancel(c[i], (i + 1) as real);
    }
  }

  /** The same through the trimming constructor: integral().derivative() of a
      valid Polynome gives back its coefficients, provided the integral's top
      coefficient is not itself trimmed away. */
  lemma IntegralThenDerivative(c: seq<real>)
    requires |c| >= 1 && IsTrimmed(c)
    requires Abs(c[|c| - 1] / |c| as real) >= EPS
    ensures Trim(IntegralSeq(c)) == IntegralSeq(c)
    ensures Trim(DerivativeSeq(Trim(IntegralSeq(c)))) == c
  {
    DerivativeOfIntegral(c);
  }

  /** Differentiating and then integrating loses only the constant term. */
  lemma IntegralOfDerivative(c: seq<real>)
    requires |c| >= 2
    ensures IntegralSeq(DerivativeSeq(c)) == [0.0] + c[1..]
  {
    var d := DerivativeSeq(c);
    var t := IntegralSeq(d);
    forall i | 1 <= i < |c|
      ensures t[i] == c[i]
    {
      assert t[i] == d[i - 1] / i as real;
      MulDivCancel(c[i], i as real);
    }
  }

  /** Addition is commutative. */
  lemma AddSeqCommutes(a: seq<real>, b: seq<real>)
    ensures AddSeq(a, b) == AddSeq(b, a)
  {
  }

  /** Adding the zero polynomial gives back the coefficients. */
  lemma AddZero(c: seq<real>)
    requires |c| >= 1 && IsTrimmed(c)
    ensures AddSeq(c, [0.0]) == c
    ensures Trim(AddSeq(c, [0.0])) == c
  {
  }

  /** A polynomial minus itself trims to the zero polynomial [0.0]. */
  lemma SubtractSelf(c: seq<real>)
    requires |c| >= 1
    ensures Trim(SubSeq(c, c)) == [0.0]
  {
    var z := SubSeq(c, c);
    assert forall i :: 0 <= i < |z| ==> z[i] == 0.0;
    TrimUnique(z, [0.0]);
  }

  /** The powers 1, x, x^2, ... as a function of the exponent. */
  function Powers(x: real): nat -> real {
    (i: nat) => Pow(x, i)
  }

  /** The sum of Get(c, i) * w(i) over i < n, reading past the end of c as 0. */
  function Weighted(c: seq<real>, w: nat -> real, n: nat): real {
    if n == 0 then 0.0 else Weighted(c, w, n - 1) + Get(c, n - 1) * w(n - 1)
  }

  /** With the weights x^i, the padded sum is the partial sum, and once it runs
      past the last coefficient it is the value of the polynomial. */
  lemma {:induction false} WeightedAgrees(c: seq<real>, x: real, n: nat)
    ensures n <= |c| ==> Weighted(c, Powers(x), n) == PartialSum(c, x, n)
    ensures n >= |c| ==> Weighted(c, Powers(x), n) == Eval(c, x)
  {
    if n > 0 {
      WeightedAgrees(c, x, n - 1);
      if n - 1 >= |c| {
        assert Get(c, n - 1) == 0.0;
      }
    }
  }

  /** A weighted sum is linear in the coefficients. */
  lemma {:induction false} WeightedOfSum(a: seq<real>, b: seq<real>, w: nat -> real, n: nat)
    ensures Weighted(AddSeq(a, b), w, n) == Weighted(a, w, n) + Weighted(b, w, n)
  {
    if n > 0 {
      WeightedOfSum(a, b, w, n - 1);
      assert Get(AddSeq(a, b), n - 1) == Get(a, n - 1) + Get(b, n - 1);
    }
  }

  /** The sum's value is the sum of the values: add agrees with evaluation. */
  lemma EvalOfSum(a: seq<real>, b: seq<real>, x: real)
    ensures Eval(AddSeq(a, b), x) == Eval(a, x) + Eval(b, x)
  {
    var n := Max(|a|, |b|);
    WeightedOfSum(a, b, Powers(x), n);
    WeightedAgrees(AddSeq(a, b), x, n);
    WeightedAgrees(a, x, n);
    WeightedAgrees(b, x, n);
  }

  lemma {:induction false} ConvWithOne(c: seq<real>, n: nat, k: int)
    requires n <= |c| && 0 <= k
    ensures Conv(c, [1.0], n, k) == if k < n then c[k] else 0.0
  {
    if n > 0 {
      ConvWithOne(c, n - 1, k);
    }
  }

  /** Multiplying by the constant 1 gives back the coefficients. */
  lemma MultiplyByOne(c: seq<real>)
    ensures MulSeq(c, [1.0]) == c
  {
    var p := MulSeq(c, [1.0]);
    forall k | 0 <= k < |c|
      ensures p[k] == c[k]
    {
      ConvWithOne(c, |c|, k);
    }
  }

  lemma {:induction false} ConvZero(c: seq<real>, n: nat, k: int)
    requires n <= |c|
    ensures Conv(c, [0.0], n, k) == 0.0
  {
    if n > 0 {
      ConvZero(c, n - 1, k);
    }
  }

  /** Multiplying by the zero polynomial [0.0] trims to the zero polynomial. */
  lemma MultiplyByZero(c: seq<real>)
    requires |c| >= 1
    ensures Trim(MulSeq(c, [0.0])) == [0.0]
  {
    var p := MulSeq(c, [0.0]);
    forall k | 0 <= k < |p|
      ensures p[k] == 0.0
    {
      ConvZero(c, |c|, k);
    }
    TrimUnique(p, [0.0]);
  }

  lemma {:induction false} ConvAdd(a: seq<real>, b: seq<real>, c: seq<real>, n: nat, k: int)
    requires n <= |a|
    ensures Conv(a, AddSeq(b, c), n, k) == Conv(a, b, n, k) + Conv(a, c, n, k)
  {
    if n > 0 {
      ConvAdd(a, b, c, n - 1, k);
      assert Get(AddSeq(b, c), k - (n - 1)) == Get(b, k - (n - 1)) + Get(c, k - (n - 1));
    }
  }

  /** Coefficients of x^k beyond the product's degree are zero. */
  lemma {:induction false} ConvBeyond(a: seq<real>, b: seq<real>, n: nat, k: int)
    requires n <= |a| && k >= n + |b| - 1
    ensures Conv(a, b, n, k) == 0.0
  {
    if n > 0 {
      ConvBeyond(a, b, n - 1, k);
    }
  }

  /** Multiplication distributes over addition of coefficient sequences. */
  lemma MulSeqDistributes(a: seq<real>, b: seq<real>, c: seq<real>)
    requires |a| >= 1 && |b| >= 1 && |c| >= 1
    ensures MulSeq(a, AddSeq(b, c)) == AddSeq(MulSeq(a, b), MulSeq(a, c))
  {
    var l, r := MulSeq(a, AddSeq(b, c)), AddSeq(MulSeq(a, b), MulSeq(a, c));
    assert |l| == |r|;
    forall k | 0 <= k < |l|
      ensures l[k] == r[k]
    {
      ConvAdd(a, b, c, |a|, k);
      if k >= |a| + |b| - 1 {
        ConvBeyond(a, b, |a|, k);
      }
      if k >= |a| + |c| - 1 {
        ConvBeyond(a, c, |a|, k);
      }
    }
  }

  /** Through the trimming constructor distributivity fails: with
      p = 1e13 x, q = x and r = (-1 + 1e-13) x, q + r = 1e-13 x trims to the
      zero polynomial, so p * (q + r) is [0.0], while p * q + p * r is x^2. */
  lemma TrimBreaksDistributivity()
    ensures var p, q, r := [0.0, 10000000000000.0], [0.0, 1.0], [0.0, -1.0 + 0.0000000000001];
            IsTrimmed(p) && IsTrimmed(q) && IsTrimmed(r) &&
            Trim(MulSeq(p, Trim(AddSeq(q, r)))) == [0.0] &&
            Trim(AddSeq(Trim(MulSeq(p, q)), Trim(MulSeq(p, r)))) == [0.0, 0.0, 1.0]
  {
    var p, q, r := [0.0, 10000000000000.0], [0.0, 1.0], [0.0, -1.0 + 0.0000000000001];
    assert AddSeq(q, r) == [0.0, 0.0000000000001];
    assert Trim([0.0, 0.0000000000001]) == [0.0];
    MultiplyByZero(p);
    ConvOfTwo(p, q, 0);
    ConvOfTwo(p, q, 1);
    ConvOfTwo(p, q, 2);
    assert MulSeq(p, q) == [0.0, 0.0, 10000000000000.0];
    ConvOfTwo(p, r, 0);
    ConvOfTwo(p, r, 1);
    ConvOfTwo(p, r, 2);
    assert MulSeq(p, r) == [0.0, 0.0, -10000000000000.0 + 1.0];
    assert AddSeq([0.0, 0.0, 10000000000000.0], [0.0, 0.0, -10000000000000.0 + 1.0]) == [0.0, 0.0, 1.0];
  }

  lemma ConvOfTwo(a: seq<real>, b: seq<real>, k: int)
    requires |a| == 2
    ensures Conv(a, b, 2, k) == a[0] * Get(b, k) + a[1] * Get(b, k - 1)
  {
    assert Conv(a, b, 1, k) == a[0] * Get(b, k);
  }
}
