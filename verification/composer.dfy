/**
 * The code composer: style attributes to one Select Graphic Rendition
 * control sequence `ESC [ params m` (ECMA-48 section 8.3.117, with the
 * control-sequence syntax of section 5.4), and the reading of such sequences
 * back, which the composer's output is proved to round-trip through.
 */
module Composer {
  import opened Wrappers
  import opened Decimal
  import opened Palette
  import opened Styles
  import opened Sequences

  const Esc: char := '\U{1B}'

  /** A parameter byte of an SGR sequence as this system writes it: a digit or the separator `;`. */
  predicate IsParamChar(ch: char) {
    IsDigit(ch) || ch == ';'
  }

  predicate AllParamChars(p: string) {
    forall i :: 0 <= i < |p| ==> IsParamChar(p[i])
  }

  /** The control sequence `ESC [ p m`. */
  function Sgr(p: string): string {
    [Esc, '['] + p + "m"
  }

  /** `ESC [ 0 m`: back to the default rendition. */
  const Reset: string := Sgr("0")

  /** The parameter codes of `s`, in the fixed order bold, underline, foreground, background. */
  function SgrParams(s: Style): (codes: seq<nat>)
    ensures codes == [] <==> IsPlain(s)
    ensures |codes| <= 4 && forall i :: 0 <= i < |codes| ==> IsStyleCode(codes[i])
  {
    ColorCodeInjective(if s.foreground.Some? then s.foreground.value else Black, Black, false);
    ColorCodeInjective(if s.background.Some? then s.background.value else Black, Black, true);
    (if s.bold then [BoldCode] else [])
    + (if s.underline then [UnderlineCode] else [])
    + (if s.foreground.Some? then [ForegroundCode(s.foreground.value)] else [])
    + (if s.background.Some? then [BackgroundCode(s.background.value)] else [])
  }

  /** The codes in decimal, separated by `;`. */
  function JoinParams(codes: seq<nat>): (r: string)
    ensures AllParamChars(r)
    ensures codes != [] ==> |r| > 0 && r[0] == NatToString(codes[0])[0]
  {
    if codes == [] then ""
    else if |codes| == 1 then NatToString(codes[0])
    else NatToString(codes[0]) + ";" + JoinParams(codes[1..])
  }

  /**
   * The escape sequence for `s`: the reset sequence when no code applies,
   * otherwise `ESC [` the joined codes `m`.
   */
  function GenerateAnsiCode(s: Style): (r: string)
    ensures r == Reset <==> IsPlain(s)
    ensures |r| >= 4 && r[..2] == [Esc, '['] && r[|r| - 1] == 'm' && AllParamChars(r[2..|r| - 1])
  {
    var codes := SgrParams(s);
    if |codes| == 0 then Reset
    else
      var p := JoinParams(codes);
      assert Sgr(p)[2] == p[0] != '0';
      assert Sgr(p)[2..|Sgr(p)| - 1] == p;
      Sgr(p)
  }

  /** Reads `p` as `;`-separated decimal parameters; an empty parameter reads as 0 (ECMA-48 section 5.4.2). */
  function ParseParams(p: string): Option<seq<nat>>
    decreases |p|
  {
    var k := DigitRun(p);
    var v := DigitsValue(p[..k]);
    if k == |p| then Some([v])
    else if p[k] == ';' then
      match ParseParams(p[k + 1..])
      case Some(rest) => Some([v] + rest)
      case None => None
    else None
  }

  /** The parameters of `x` when `x` is exactly one SGR sequence. */
  function ParseSgr(x: string): Option<seq<nat>> {
    if |x| >= 3 && x[0] == Esc && x[1] == '[' && x[|x| - 1] == 'm' then ParseParams(x[2..|x| - 1])
    else None
  }

  /** SGR parameters applied in order: 0 restores the default rendition, any other code acts as `ApplyCode`. */
  function ApplyParams(s: Style, codes: seq<int>): Style
    decreases |codes|
  {
    if codes == [] then s
    else ApplyParams(if codes[0] == ResetCode then Plain else ApplyCode(s, codes[0]), codes[1..])
  }

  /** The attributes one SGR sequence establishes, starting from the default rendition. */
  function DecodeSgr(x: string): Option<Style> {
    match ParseSgr(x)
    case None => None
    case Some(codes) => Some(ApplyParams(Plain, codes))
  }

  lemma ParseLastParam(n: nat)
    ensures ParseParams(NatToString(n)) == Some([n])
  {
    var d := NatToString(n);
    DigitsValueOfNatToString(n);
    DigitRunAfterDigits(d, []);
    assert d + [] == d && d[..|d|] == d;
  }

  lemma ParseNextParam(n: nat, rest: string)
    ensures ParseParams(NatToString(n) + (";" + rest)) ==
      match ParseParams(rest)
      case Some(codes) => Some([n] + codes)
      case None => None
  {
    var d := NatToString(n);
    var p := d + (";" + rest);
    DigitsValueOfNatToString(n);
    DigitRunAfterDigits(d, ";" + rest);
    assert p[..|d|] == d;
    assert p[|d| + 1..] == rest;
  }

  lemma {:induction false} ParseJoinRoundTrip(codes: seq<nat>)
    requires codes != []
    ensures ParseParams(JoinParams(codes)) == Some(codes)
  {
    if |codes| == 1 {
      ParseLastParam(codes[0]);
      assert codes == [codes[0]];
    } else {
      assert JoinParams(codes) == NatToString(codes[0]) + (";" + JoinParams(codes[1..]));
      ParseNextParam(codes[0], JoinParams(codes[1..]));
      ParseJoinRoundTrip(codes[1..]);
      assert codes == [codes[0]] + codes[1..];
    }
  }

  lemma {:induction false} ApplyParamsAppend(s: Style, a: seq<int>, b: seq<int>)
    ensures ApplyParams(s, a + b) == ApplyParams(ApplyParams(s, a), b)
    decreases |a|
  {
    if a != [] {
      assert (a + b)[1..] == a[1..] + b;
      ApplyParamsAppend(if a[0] == ResetCode then Plain else ApplyCode(s, a[0]), a[1..], b);
    } else {
      assert a + b == b;
    }
  }

  /** Applying the composed codes to the default rendition rebuilds the attributes. */
  lemma {:induction false} ApplySgrParams(s: Style)
    ensures ApplyParams(Plain, SgrParams(s)) == s
  {
    var b: seq<int> := if s.bold then [BoldCode] else [];
    var u: seq<int> := if s.underline then [UnderlineCode] else [];
    var f: seq<int> := if s.foreground.Some? then [ForegroundCode(s.foreground.value)] else [];
    var g: seq<int> := if s.background.Some? then [BackgroundCode(s.background.value)] else [];
    assert SgrParams(s) == b + u + f + g;
    ApplyParamsAppend(Plain, b + u + f, g);
    ApplyParamsAppend(Plain, b + u, f);
    ApplyParamsAppend(Plain, b, u);
    var s1 := ApplyParams(Plain, b);
    assert s1 == Plain.(bold := s.bold);
    var s2 := ApplyParams(s1, u);
    assert s2 == s1.(underline := s.underline);
    var s3 := ApplyParams(s2, f);
    if s.foreground.Some? {
      ApplyColorCode(s2, s.foreground.value, false);
    }
    assert s3 == s2.(foreground := s.foreground);
    if s.background.Some? {
      ApplyColorCode(s3, s.background.value, true);
    }
  }

  /** The composed sequence carries exactly the codes of `s` in the fixed order, or the single code 0. */
  lemma GenerateAnsiCodeParses(s: Style)
    ensures ParseSgr(GenerateAnsiCode(s)) == Some(if IsPlain(s) then [ResetCode] else SgrParams(s))
  {
    if IsPlain(s) {
      assert Reset[2..|Reset| - 1] == "0";
      assert DigitRun("0") == 1;
      assert DigitsValue("0") == 0;
    } else {
      var p := JoinParams(SgrParams(s));
      assert Sgr(p)[2..|Sgr(p)| - 1] == p;
      ParseJoinRoundTrip(SgrParams(s));
    }
  }

  /** Round trip: decoding the composed sequence gives back the attributes it was composed from. */
  lemma GenerateAnsiCodeDecodes(s: Style)
    ensures DecodeSgr(GenerateAnsiCode(s)) == Some(s)
  {
    GenerateAnsiCodeParses(s);
    ApplySgrParams(s);
  }

  /** The length of the longest prefix of `s` made of parameter bytes. */
  function ParamRun(s: string): (k: nat)
    ensures k <= |s| && AllParamChars(s[..k])
    ensures k < |s| ==> !IsParamChar(s[k])
  {
    if s == [] || !IsParamChar(s[0]) then 0
    else
      var k := 1 + ParamRun(s[1..]);
      assert s[..k] == [s[0]] + s[1..][..k - 1];
      k
  }

  lemma {:induction false} ParamRunAfterParams(p: string, t: string)
    requires AllParamChars(p)
    ensures ParamRun(p + t) == |p| + ParamRun(t)
  {
    if p != [] {
      assert (p + t)[0] == p[0] && (p + t)[1..] == p[1..] + t;
      ParamRunAfterParams(p[1..], t);
    } else {
      assert p + t == t;
    }
  }

  /** The length of the SGR sequence at the head of `s`, or 0 when `s` does not start with one. */
  function SgrLength(s: string): (n: nat)
    ensures n <= |s|
    ensures n > 0 ==> n >= 3 && s[0] == Esc
  {
    if |s| >= 2 && s[0] == Esc && s[1] == '[' then
      var k := ParamRun(s[2..]);
      if 2 + k < |s| && s[2 + k] == 'm' then 3 + k else 0
    else 0
  }

  lemma SgrLengthOfSgr(p: string, t: string)
    requires AllParamChars(p)
    ensures SgrLength(Sgr(p) + t) == |Sgr(p)|
    ensures (Sgr(p) + t)[..|Sgr(p)|] == Sgr(p) && (Sgr(p) + t)[|Sgr(p)|..] == t
  {
    var s := Sgr(p) + t;
    assert s[2..] == p + ("m" + t);
    ParamRunAfterParams(p, "m" + t);
  }

  /** The visible text of `s`: `s` with every SGR sequence removed. */
  function Strip(s: string): string
    decreases |s|
  {
    if s == [] then []
    else
      var n := SgrLength(s);
      if n > 0 then Strip(s[n..]) else [s[0]] + Strip(s[1..])
  }

  lemma StripAfterSgr(p: string, t: string)
    requires AllParamChars(p)
    ensures Strip(Sgr(p) + t) == Strip(t)
  {
    SgrLengthOfSgr(p, t);
  }

  /** Text without an escape character passes through `Strip` unchanged. */
  lemma {:induction false} StripText(x: string, t: string)
    requires Esc !in x
    ensures Strip(x + t) == x + Strip(t)
  {
    if x != [] {
      assert (x + t)[0] == x[0] && (x + t)[1..] == x[1..] + t;
      StripText(x[1..], t);
    } else {
      assert x + t == t;
    }
  }

  /** A composed sequence is invisible. */
  lemma StripGenerated(s: Style, t: string)
    ensures Strip(GenerateAnsiCode(s) + t) == Strip(t)
  {
    var r := GenerateAnsiCode(s);
    assert r == Sgr(r[2..|r| - 1]);
    StripAfterSgr(r[2..|r| - 1], t);
  }

  /** Example: no attribute gives the reset sequence. */
  lemma ExamplePlain()
    ensures GenerateAnsiCode(Plain) == [Esc] + "[0m"
  {
  }

  /** Example: bold alone is `ESC [ 1 m`. */
  lemma ExampleBold()
    ensures GenerateAnsiCode(Plain.(bold := true)) == [Esc] + "[1m"
  {
    var s := Plain.(bold := true);
    assert SgrParams(s) == [1];
    assert JoinParams([1]) == "1";
  }

  /** Example: bold red, where bold comes before the colour, `ESC [ 1 ; 3 1 m`. */
  lemma ExampleBoldRed()
    ensures GenerateAnsiCode(Plain.(bold := true, foreground := Some(Red))) == [Esc] + "[1;31m"
  {
    var s := Plain.(bold := true, foreground := Some(Red));
    assert SgrParams(s) == [1, 31];
    assert NatToString(31) == "31";
    assert JoinParams([31]) == "31";
    assert JoinParams([1, 31]) == "1" + ";" + "31";
  }

  /** Example: green alone is `ESC [ 3 2 m`. */
  lemma ExampleGreen()
    ensures GenerateAnsiCode(Plain.(foreground := Some(Green))) == [Esc] + "[32m"
  {
    var s := Plain.(foreground := Some(Green));
    assert SgrParams(s) == [32];
    assert NatToString(32) == "32";
    assert JoinParams([32]) == "32";
  }
}
