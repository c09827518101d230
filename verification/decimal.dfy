/**
 * Decimal digits: rendering a non-negative integer as text (what `Array.join`
 * and template literals do to the numeric codes), and reading a decimal prefix
 * back (what `parseInt` does to a class-name suffix).
 */
module Decimal {
  import opened Wrappers
  import opened Sequences

  predicate IsDigit(ch: char) {
    '0' <= ch <= '9'
  }

  predicate AllDigits(s: string) {
    forall i :: 0 <= i < |s| ==> IsDigit(s[i])
  }

  function DigitChar(d: nat): (ch: char)
    requires d < 10
    ensures IsDigit(ch) && ch as int - '0' as int == d
  {
    ('0' as int + d) as char
  }

  function DigitValue(ch: char): nat
    requires IsDigit(ch)
  {
    ch as int - '0' as int
  }

  /** The canonical decimal rendering of `n`: digits only, no leading zero. */
  function NatToString(n: nat): (s: string)
    ensures |s| > 0 && AllDigits(s)
    ensures s[0] == '0' <==> n == 0
    ensures n < 10 <==> |s| == 1
  {
    if n < 10 then [DigitChar(n)] else NatToString(n / 10) + [DigitChar(n % 10)]
  }

  /** A number from 10 to 99 is written with its tens digit, then its units digit. */
  lemma TwoDigits(n: nat)
    requires 10 <= n < 100
    ensures NatToString(n) == [DigitChar(n / 10), DigitChar(n % 10)]
  {
  }

  /** A number from 100 to 109 is written `1`, `0`, then its units digit. */
  lemma OneHundreds(n: nat)
    requires 100 <= n < 110
    ensures NatToString(n) == ['1', '0', DigitChar(n % 10)]
  {
    TwoDigits(n / 10);
  }

  /** The value of a string of decimal digits; the empty string reads as 0. */
  function DigitsValue(s: string): nat
    requires AllDigits(s)
  {
    if s == [] then 0 else DigitsValue(s[..|s| - 1]) * 10 + DigitValue(s[|s| - 1])
  }

  lemma {:induction false} DigitsValueOfNatToString(n: nat)
    ensures DigitsValue(NatToString(n)) == n
  {
    if n >= 10 {
      var s := NatToString(n);
      assert s[..|s| - 1] == NatToString(n / 10);
      DigitsValueOfNatToString(n / 10);
    }
  }

  /** The length of the longest prefix of `s` made of decimal digits. */
  function DigitRun(s: string): (k: nat)
    ensures k <= |s| && AllDigits(s[..k])
    ensures k < |s| ==> !IsDigit(s[k])
  {
    if s == [] || !IsDigit(s[0]) then 0
    else
      var k := 1 + DigitRun(s[1..]);
      assert s[..k] == [s[0]] + s[1..][..k - 1];
      k
  }

  lemma {:induction false} DigitRunAfterDigits(d: string, t: string)
    requires AllDigits(d)
    ensures DigitRun(d + t) == |d| + DigitRun(t)
  {
    if d != [] {
      assert (d + t)[0] == d[0] && (d + t)[1..] == d[1..] + t;
      DigitRunAfterDigits(d[1..], t);
    } else {
      assert d + t == t;
    }
  }

  /**
   * The characters `parseInt` skips before a number: tab, line tabulation,
   * form feed, the byte order mark, every space separator of Unicode category
   * Zs, and the four line terminators (section 7.1.4.1 of ECMA-262).
   */
  predicate IsJsWhitespace(ch: char) {
    ch == '\U{9}' || ch == '\U{B}' || ch == '\U{C}' || ch == '\U{FEFF}'
    || ch == ' ' || ch == '\U{A0}' || ch == '\U{1680}' || '\U{2000}' <= ch <= '\U{200A}'
    || ch == '\U{202F}' || ch == '\U{205F}' || ch == '\U{3000}'
    || ch == '\U{A}' || ch == '\U{D}' || ch == '\U{2028}' || ch == '\U{2029}'
  }

  /** The length of the longest prefix of `s` made of whitespace. */
  function WhitespaceRun(s: string): (k: nat)
    ensures k <= |s| && forall i :: 0 <= i < k ==> IsJsWhitespace(s[i])
    ensures k < |s| ==> !IsJsWhitespace(s[k])
  {
    if s == [] || !IsJsWhitespace(s[0]) then 0 else 1 + WhitespaceRun(s[1..])
  }

  /**
   * `parseInt(s)` for the strings it is given here: leading whitespace, an
   * optional sign, then the longest run of decimal digits; anything after the
   * digits is ignored, and a string with no digit there gives `None`
   * (JavaScript's NaN).
   */
  function ParseIntPrefix(s: string): (r: Option<int>)
    ensures var t := s[WhitespaceRun(s)..];
      r.None? <==> DigitRun(if t != [] && (t[0] == '+' || t[0] == '-') then t[1..] else t) == 0
  {
    var t := s[WhitespaceRun(s)..];
    var negative := t != [] && t[0] == '-';
    var body := if t != [] && (t[0] == '+' || t[0] == '-') then t[1..] else t;
    var k := DigitRun(body);
    if k == 0 then None
    else
      var v: int := DigitsValue(body[..k]);
      Some(if negative then -v else v)
  }

  /** Leading whitespace does not change what is read. */
  lemma ParseIntPrefixSkipsWhitespace(s: string)
    ensures ParseIntPrefix(s) == ParseIntPrefix(s[WhitespaceRun(s)..])
  {
    var t := s[WhitespaceRun(s)..];
    assert WhitespaceRun(t) == 0 && t[0..] == t;
  }

  /** A string that starts with a digit is read as its digit prefix: no whitespace and no sign to skip. */
  lemma ParseIntPrefixOfDigitFirst(body: string)
    requires body != [] && IsDigit(body[0])
    ensures ParseIntPrefix(body) == Some(DigitsValue(body[..DigitRun(body)]))
  {
    assert WhitespaceRun(body) == 0;
    assert body[0..] == body;
  }

  /** Reading back a rendered code, whatever follows it that is not a digit. */
  lemma ParseIntPrefixOfNatToString(n: nat, tail: string)
    requires tail == [] || !IsDigit(tail[0])
    ensures ParseIntPrefix(NatToString(n) + tail) == Some(n)
  {
    var s := NatToString(n);
    assert (s + tail)[0] == s[0];
    ParseIntPrefixOfDigitFirst(s + tail);
    DigitRunAfterDigits(s, tail);
    assert DigitRun(tail) == 0;
    PrefixOfConcat(s, tail, |s|);
    assert s[..|s|] == s;
    DigitsValueOfNatToString(n);
  }

  lemma {:induction false} WhitespaceRunAfterWhitespace(ws: string, t: string)
    requires forall i :: 0 <= i < |ws| ==> IsJsWhitespace(ws[i])
    requires t == [] || !IsJsWhitespace(t[0])
    ensures WhitespaceRun(ws + t) == |ws|
  {
    if ws != [] {
      assert (ws + t)[0] == ws[0] && (ws + t)[1..] == ws[1..] + t;
      WhitespaceRunAfterWhitespace(ws[1..], t);
    } else {
      assert ws + t == t;
    }
  }

  /** Whatever whitespace precedes it, a rendered code reads back as the code. */
  lemma ParseIntPrefixAfterWhitespace(ws: string, n: nat)
    requires forall i :: 0 <= i < |ws| ==> IsJsWhitespace(ws[i])
    ensures ParseIntPrefix(ws + NatToString(n)) == Some(n)
  {
    var d := NatToString(n);
    assert !IsJsWhitespace(d[0]);
    WhitespaceRunAfterWhitespace(ws, d);
    assert (ws + d)[|ws|..] == d + [];
    ParseIntPrefixSkipsWhitespace(ws + d);
    ParseIntPrefixOfNatToString(n, []);
  }
}
