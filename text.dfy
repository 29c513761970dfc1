/** Decimal rendering and parsing of non-negative integers, and `String.prototype.trim`. */
module Text {

  predicate IsDigit(c: char) { '0' <= c <= '9' }

  predicate AllDigits(s: string) { forall i :: 0 <= i < |s| ==> IsDigit(s[i]) }

  function DigitValue(c: char): (d: int)
    requires IsDigit(c)
    ensures 0 <= d < 10
  {
    c as int - '0' as int
  }

  function DigitChar(d: int): (c: char)
    requires 0 <= d < 10
    ensures IsDigit(c) && DigitValue(c) == d
  {
    ('0' as int + d) as char
  }

  /** `parseInt(s, 10)` of a string made of decimal digits only. */
  function DigitsValue(s: string): (n: nat)
    requires AllDigits(s)
  {
    if s == [] then 0 else DigitsValue(s[..|s| - 1]) * 10 + DigitValue(s[|s| - 1])
  }

  /** `String(n)` for a non-negative integer: its decimal digits, no leading zero. */
  function NatToString(n: nat): (s: string)
    ensures 1 <= |s| && AllDigits(s)
    ensures n < 10 <==> |s| == 1
    ensures n > 0 ==> s[0] != '0'
    decreases n
  {
    if n < 10 then [DigitChar(n)] else NatToString(n / 10) + [DigitChar(n % 10)]
  }

  /** `String(i)` for any integer, with a leading minus sign when negative. */
  function IntToString(i: int): (s: string)
    ensures 1 <= |s|
  {
    if i < 0 then "-" + NatToString(-i) else NatToString(i)
  }

  /** Reading back the digits of a number gives the number. */
  lemma {:induction false} NatToStringRoundTrip(n: nat)
    ensures DigitsValue(NatToString(n)) == n
    decreases n
  {
    if n >= 10 {
      NatToStringRoundTrip(n / 10);
      var s := NatToString(n);
      assert s[..|s| - 1] == NatToString(n / 10);
    }
  }

  /** `s.padStart(2, '0')`. */
  function PadStart2(s: string): (r: string)
    ensures |s| >= 2 ==> r == s
    ensures |s| < 2 ==> |r| == 2 && r[2 - |s|..] == s
  {
    if |s| == 0 then "00" else if |s| == 1 then ['0'] + s else s
  }

  /**
   * The characters `trim` removes: white space (tab, vertical tab, form feed, space, NBSP,
   * BOM and the other space separators) and line terminators (LF, CR, LS, PS).
   */
  predicate IsWhitespace(c: char) {
    c == ' ' || c == '\t' || c == '\n' || c == '\r' || c == '\U{000B}' || c == '\U{000C}'
    || c == '\U{00A0}' || c == '\U{FEFF}' || c == '\U{1680}' || ('\U{2000}' <= c <= '\U{200A}')
    || c == '\U{2028}' || c == '\U{2029}' || c == '\U{202F}' || c == '\U{205F}' || c == '\U{3000}'
  }

  /**
   * `s.trim()`: the slice of `s` left once the white space at both ends is cut off. What
   * is cut is white space only, and what is left neither starts nor ends with it.
   */
  function Trim(s: string): (r: string)
    ensures |r| <= |s|
    ensures r == [] || (!IsWhitespace(r[0]) && !IsWhitespace(r[|r| - 1]))
    ensures r == [] <==> forall i :: 0 <= i < |s| ==> IsWhitespace(s[i])
    ensures exists a, b :: TrimmedAt(s, a, b) && r == s[a..b]
    decreases |s|
  {
    if s == [] then
      assert TrimmedAt(s, 0, 0) && s[0..0] == [];
      []
    else if IsWhitespace(s[0]) then
      var r := Trim(s[1..]);
      var a, b :| TrimmedAt(s[1..], a, b) && r == s[1..][a..b];
      TrimmedFront(s, a, b);
      r
    else if IsWhitespace(s[|s| - 1]) then
      var r := Trim(s[..|s| - 1]);
      var a, b :| TrimmedAt(s[..|s| - 1], a, b) && r == s[..|s| - 1][a..b];
      TrimmedBack(s, a, b);
      r
    else
      assert TrimmedAt(s, 0, |s|) && s == s[0..|s|];
      s
  }

  /** Cutting `s` down to `s[a..b]` removes white space only. */
  predicate TrimmedAt(s: string, a: int, b: int) {
    0 <= a <= b <= |s|
    && (forall i :: 0 <= i < a ==> IsWhitespace(s[i]))
    && (forall i :: b <= i < |s| ==> IsWhitespace(s[i]))
  }

  /** A cut of `s[1..]` is a cut of `s` one further along when `s` starts with white space. */
  lemma TrimmedFront(s: string, a: int, b: int)
    requires s != [] && IsWhitespace(s[0]) && TrimmedAt(s[1..], a, b)
    ensures TrimmedAt(s, a + 1, b + 1) && s[1..][a..b] == s[a + 1..b + 1]
  {
    forall i | 0 <= i < a + 1 ensures IsWhitespace(s[i]) {
      if i > 0 { assert s[i] == s[1..][i - 1]; }
    }
    forall i | b + 1 <= i < |s| ensures IsWhitespace(s[i]) {
      assert s[i] == s[1..][i - 1];
    }
  }

  /** A cut of `s` minus its last character is a cut of `s` when `s` ends with white space. */
  lemma TrimmedBack(s: string, a: int, b: int)
    requires s != [] && IsWhitespace(s[|s| - 1]) && TrimmedAt(s[..|s| - 1], a, b)
    ensures TrimmedAt(s, a, b) && s[..|s| - 1][a..b] == s[a..b]
  {
    forall i | b <= i < |s| ensures IsWhitespace(s[i]) {
      if i < |s| - 1 { assert s[i] == s[..|s| - 1][i]; }
    }
  }
}
