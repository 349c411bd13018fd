/** The pieces of java.lang text handling the core relies on: decimal rendering
    of integers (Long.toString, BigInteger.toString), Long.parseLong,
    String.trim and String.split around a one-character separator. */
module JavaText {
  import opened Outcomes
  import JavaLong

  predicate IsDigit(c: char) {
    '0' <= c <= '9'
  }

  predicate AllDigits(s: string) {
    forall i :: 0 <= i < |s| ==> IsDigit(s[i])
  }

  function DigitValue(c: char): nat
    requires IsDigit(c)
  {
    (c as int) - ('0' as int)
  }

  function DigitChar(d: nat): (c: char)
    requires d < 10
    ensures IsDigit(c) && DigitValue(c) == d
  {
    (('0' as int) + d) as char
  }

  /** The value of a string of decimal digits, most significant first. */
  function DigitsValue(s: string): nat
    requires AllDigits(s)
  {
    if s == [] then 0 else 10 * DigitsValue(s[..|s| - 1]) + DigitValue(s[|s| - 1])
  }

  /** The decimal digits of n, most significant first, without leading zeros. */
  function NatToString(n: nat): (s: string)
    ensures |s| >= 1 && AllDigits(s)
    ensures DigitsValue(s) == n
    decreases n
  {
    if n < 10 then [DigitChar(n)]
    else
      var s := NatToString(n / 10) + [DigitChar(n % 10)];
      assert s[..|s| - 1] == NatToString(n / 10);
      s
  }

  /** Long.toString / BigInteger.toString: a minus sign for a negative value,
      then the digits of its magnitude. */
  function IntToString(x: int): (s: string)
    ensures |s| >= 1 && '/' !in s
    ensures IsDigit(s[0]) || s[0] == '-'
    ensures IsDigit(s[|s| - 1])
    ensures x >= 0 ==> AllDigits(s) && DigitsValue(s) == x
  {
    if x < 0 then "-" + NatToString(-x) else NatToString(x)
  }

  /** Long.parseLong over ASCII digits: an optional '-' or '+', at least one
      digit, and a value in the range of `long`; anything else is a
      NumberFormatException. */
  function ParseLong(s: string): (r: Result<int>)
    ensures r.Ok? ==> JavaLong.InLong(r.value)
    ensures r.Err? ==> r.error == NumberFormat
  {
    if |s| == 0 then Err(NumberFormat)
    else
      var digits := if s[0] == '-' || s[0] == '+' then s[1..] else s;
      if |digits| == 0 || !AllDigits(digits) then Err(NumberFormat)
      else
        var v: int := if s[0] == '-' then -(DigitsValue(digits) as int) else DigitsValue(digits);
        if JavaLong.InLong(v) then Ok(v) else Err(NumberFormat)
  }

  /** Parsing the decimal form of a `long` gives the `long` back. */
  lemma ParseLongOfToString(x: int)
    requires JavaLong.InLong(x)
    ensures ParseLong(IntToString(x)) == Ok(x)
  {
    var s := IntToString(x);
    if x < 0 {
      assert s[1..] == NatToString(-x);
    }
  }

  /** String.trim: drop every leading and trailing character at or below U+0020. */
  function Trim(s: string): (t: string)
    ensures |t| <= |s|
  {
    TrimEnd(TrimStart(s))
  }

  function TrimStart(s: string): (t: string)
    ensures |t| <= |s|
  {
    if |s| > 0 && s[0] <= ' ' then TrimStart(s[1..]) else s
  }

  function TrimEnd(s: string): (t: string)
    ensures |t| <= |s|
  {
    if |s| > 0 && s[|s| - 1] <= ' ' then TrimEnd(s[..|s| - 1]) else s
  }

  /** A string that starts and ends with a visible character is left as it is. */
  lemma TrimVisible(s: string)
    requires |s| > 0 && s[0] > ' ' && s[|s| - 1] > ' '
    ensures Trim(s) == s
  {
  }

  /** Every piece of s between occurrences of sep, empty pieces included. */
  function SplitAll(s: string, sep: char): (parts: seq<string>)
    ensures |parts| >= 1
    decreases |s|
  {
    if |s| == 0 then [""]
    else
      var rest := SplitAll(s[1..], sep);
      if s[0] == sep then [""] + rest else [[s[0]] + rest[0]] + rest[1..]
  }

  function DropTrailingEmpty(parts: seq<string>): seq<string> {
    if |parts| > 0 && parts[|parts| - 1] == "" then DropTrailingEmpty(parts[..|parts| - 1]) else parts
  }

  /** String.split with a one-character pattern, for a string that contains the
      separator: the pieces between separators, trailing empty pieces removed. */
  function Split(s: string, sep: char): seq<string> {
    DropTrailingEmpty(SplitAll(s, sep))
  }

  lemma {:induction false} SplitAllNoSeparator(s: string, sep: char)
    requires sep !in s
    ensures SplitAll(s, sep) == [s]
    decreases |s|
  {
    if |s| > 0 {
      SplitAllNoSeparator(s[1..], sep);
      assert [s[0]] + s[1..] == s;
    }
  }

  lemma {:induction false} SplitAllOneSeparator(a: string, b: string, sep: char)
    requires sep !in a && sep !in b
    ensures SplitAll(a + [sep] + b, sep) == [a, b]
    decreases |a|
  {
    var s := a + [sep] + b;
    if |a| == 0 {
      assert s[1..] == b;
      SplitAllNoSeparator(b, sep);
    } else {
      assert s[1..] == a[1..] + [sep] + b;
      SplitAllOneSeparator(a[1..], b, sep);
      assert [a[0]] + a[1..] == a;
    }
  }

  /** Splitting "a<sep>b" with both halves non-empty and free of sep gives [a, b]. */
  lemma SplitOneSeparator(a: string, b: string, sep: char)
    requires sep !in a && sep !in b && b != ""
    ensures Split(a + [sep] + b, sep) == [a, b]
  {
    SplitAllOneSeparator(a, b, sep);
  }
}
