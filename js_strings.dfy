/**
 * The few JavaScript string built-ins the validators rely on: the whitespace
 * class shared by `String.prototype.trim` and the regular-expression escape
 * `\s`, `trim` itself, ASCII `toLowerCase`, and the decimal text of an integer
 * as a template literal prints it.
 */
module JsStrings {

  /** ECMAScript WhiteSpace and LineTerminator code points (what `trim` removes and `\s` matches). */
  predicate IsWhiteSpace(c: char) {
    || c == '\t' || c == '\n' || c == '\U{000B}' || c == '\U{000C}' || c == '\r'
    || c == ' ' || c == '\U{00A0}' || c == '\U{1680}'
    || ('\U{2000}' <= c <= '\U{200A}')
    || c == '\U{2028}' || c == '\U{2029}' || c == '\U{202F}' || c == '\U{205F}'
    || c == '\U{3000}' || c == '\U{FEFF}'
  }

  predicate IsAsciiDigit(c: char) {
    '0' <= c <= '9'
  }

  /** `s.trimStart()`: the suffix of s left after dropping its leading whitespace. */
  function TrimStart(s: string): (r: string)
    ensures |r| <= |s| && r == s[|s| - |r|..]
    ensures forall i :: 0 <= i < |s| - |r| ==> IsWhiteSpace(s[i])
    ensures r != [] ==> !IsWhiteSpace(r[0])
  {
    if s != [] && IsWhiteSpace(s[0]) then TrimStart(s[1..]) else s
  }

  /** `s.trimEnd()`: the prefix of s left after dropping its trailing whitespace. */
  function TrimEnd(s: string): (r: string)
    ensures |r| <= |s| && r == s[..|r|]
    ensures forall i :: |r| <= i < |s| ==> IsWhiteSpace(s[i])
    ensures r != [] ==> !IsWhiteSpace(r[|r| - 1])
  {
    if s != [] && IsWhiteSpace(s[|s| - 1]) then TrimEnd(s[..|s| - 1]) else s
  }

  /**
   * `s.trim()`: the slice s[a..b] that is left once the whitespace at both
   * ends is gone; everything cut off is whitespace and, unless nothing is
   * left, the slice neither starts nor ends with whitespace.
   */
  function Trim(s: string): (r: string)
    ensures exists a, b ::
              && 0 <= a <= b <= |s| && r == s[a..b]
              && (forall i :: 0 <= i < a ==> IsWhiteSpace(s[i]))
              && (forall i :: b <= i < |s| ==> IsWhiteSpace(s[i]))
    ensures r != [] ==> !IsWhiteSpace(r[0]) && !IsWhiteSpace(r[|r| - 1])
  {
    var t := TrimStart(s);
    var r := TrimEnd(t);
    var a := |s| - |t|;
    assert r == s[a..a + |r|];
    r
  }

  /** A string trims to nothing exactly when every character of it is whitespace. */
  lemma TrimEmptyIffAllWhiteSpace(s: string)
    ensures Trim(s) == [] <==> forall i :: 0 <= i < |s| ==> IsWhiteSpace(s[i])
  {
    if Trim(s) == [] {
      var a, b :|
        && 0 <= a <= b <= |s| && Trim(s) == s[a..b]
        && (forall i :: 0 <= i < a ==> IsWhiteSpace(s[i]))
        && (forall i :: b <= i < |s| ==> IsWhiteSpace(s[i]));
      assert a == b;
    } else {
      var r := Trim(s);
      var a, b :| 0 <= a <= b <= |s| && r == s[a..b];
      assert s[a] == r[0];
    }
  }

  /** Trimming twice is trimming once. */
  lemma TrimIdempotent(s: string)
    ensures Trim(Trim(s)) == Trim(s)
  {
    var r := Trim(s);
    if r != [] {
      assert TrimStart(r) == r;
      assert TrimEnd(r) == r;
    }
  }

  /** `toLowerCase` on the ASCII range: A-Z map to a-z, every other character is kept. */
  function ToLowerAscii(c: char): (d: char)
    ensures 'A' <= c <= 'Z' ==> d as int == c as int + 32
    ensures !('A' <= c <= 'Z') ==> d == c
  {
    if 'A' <= c <= 'Z' then (c as int + 32) as char else c
  }

  function ToLowerCase(s: string): (r: string)
    ensures |r| == |s|
    ensures forall i :: 0 <= i < |s| ==> r[i] == ToLowerAscii(s[i])
  {
    seq(|s|, i requires 0 <= i < |s| => ToLowerAscii(s[i]))
  }

  /** The decimal digit character for 0..9. */
  function DigitChar(d: int): (c: char)
    requires 0 <= d < 10
    ensures IsAsciiDigit(c) && c as int - '0' as int == d
  {
    ('0' as int + d) as char
  }

  /** The decimal text of a natural number, most significant digit first, without leading zeros. */
  function NatToDecimal(n: nat): (s: string)
    ensures s != [] && forall i :: 0 <= i < |s| ==> IsAsciiDigit(s[i])
    ensures |s| > 1 ==> s[0] != '0'
  {
    if n < 10 then [DigitChar(n)] else NatToDecimal(n / 10) + [DigitChar(n % 10)]
  }

  /** `${n}` for an integer n. */
  function IntToDecimal(n: int): (s: string)
    ensures s != [] && (s[0] == '-' <==> n < 0)
  {
    if n < 0 then "-" + NatToDecimal(-n) else NatToDecimal(n)
  }

  function DigitValue(c: char): (d: nat)
    requires IsAsciiDigit(c)
    ensures d < 10 && DigitChar(d) == c
  {
    c as int - '0' as int
  }

  /** The number a string of decimal digits denotes. */
  function DecimalValue(s: string): nat
    requires forall i :: 0 <= i < |s| ==> IsAsciiDigit(s[i])
  {
    if s == [] then 0 else 10 * DecimalValue(s[..|s| - 1]) + DigitValue(s[|s| - 1])
  }

  /** Reading the decimal text of n gives back n. */
  lemma {:induction false} DecimalRoundTrip(n: nat)
    ensures DecimalValue(NatToDecimal(n)) == n
  {
    if n >= 10 {
      DecimalRoundTrip(n / 10);
      var s := NatToDecimal(n);
      assert s[..|s| - 1] == NatToDecimal(n / 10);
    }
  }

  /** Different integers print differently. */
  lemma IntToDecimalInjective(m: int, n: int)
    requires IntToDecimal(m) == IntToDecimal(n)
    ensures m == n
  {
    if m < 0 && n < 0 {
      assert NatToDecimal(-m) == IntToDecimal(m)[1..];
      assert NatToDecimal(-n) == IntToDecimal(n)[1..];
      DecimalRoundTrip(-m);
      DecimalRoundTrip(-n);
    } else if m >= 0 && n >= 0 {
      DecimalRoundTrip(m);
      DecimalRoundTrip(n);
    }
  }
}
