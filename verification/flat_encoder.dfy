/**
 * The flat encoder: an ordered list of independently styled segments to one
 * escape-coded string (each segment's code, then its text, then one trailing
 * reset), the reading of that string back into segments, and the HTML twin
 * used for the preview.
 */
module FlatEncoder {
  import opened Wrappers
  import opened Palette
  import opened Styles
  import opened Composer
  import opened Sequences

  /** A run of text with one style. */
  datatype Segment = Segment(text: string, style: Style)

  predicate NoEscapes(segs: seq<Segment>) {
    forall i :: 0 <= i < |segs| ==> Esc !in segs[i].text
  }

  /** Each segment's code followed by its text, in order. */
  function Runs(segs: seq<Segment>): (r: string)
    ensures r == [] <==> segs == []
  {
    if segs == [] then "" else GenerateAnsiCode(segs[0].style) + segs[0].text + Runs(segs[1..])
  }

  /** The texts of the segments, in order. */
  function Texts(segs: seq<Segment>): string {
    if segs == [] then "" else segs[0].text + Texts(segs[1..])
  }

  lemma {:induction false} RunsAppend(segs: seq<Segment>, last: Segment)
    decreases |segs|
    ensures Runs(segs + [last]) == Runs(segs) + GenerateAnsiCode(last.style) + last.text
  {
    if segs == [] {
      assert segs + [last] == [last] && [last][1..] == [];
      assert Runs([last]) == GenerateAnsiCode(last.style) + last.text + "";
    } else {
      RunsAppend(segs[1..], last);
      RunsAppendStep(segs, last);
    }
  }

  /** The inductive step of `RunsAppend`: appending after the first segment is appending to the whole. */
  lemma {:induction false} RunsAppendStep(segs: seq<Segment>, last: Segment)
    requires segs != []
    requires Runs(segs[1..] + [last]) == Runs(segs[1..]) + GenerateAnsiCode(last.style) + last.text
    ensures Runs(segs + [last]) == Runs(segs) + GenerateAnsiCode(last.style) + last.text
  {
    var head := GenerateAnsiCode(segs[0].style) + segs[0].text;
    var mid := Runs(segs[1..]);
    var code := GenerateAnsiCode(last.style);
    DropSnoc(segs, last);
    assert Runs(segs + [last]) == head + Runs(segs[1..] + [last]);
    assert Runs(segs) == head + mid;
    PrependStep(Runs(segs + [last]), Runs(segs[1..] + [last]), head, mid, code, last.text);
  }

  /** The encoder as the source runs it: append code and text per segment, then one reset. */
  method SegmentsToAnsi(segs: seq<Segment>) returns (r: string)
    ensures r == Runs(segs) + Reset
    ensures segs == [] ==> r == Reset
    ensures |r| >= |Reset| && r[|r| - |Reset|..] == Reset
  {
    var body := "";
    for i := 0 to |segs|
      invariant body == Runs(segs[..i])
    {
      RunsSnoc(segs, i);
      body := body + GenerateAnsiCode(segs[i].style) + segs[i].text;
    }
    assert segs[..|segs|] == segs;
    r := body + Reset;
    SuffixOfConcat(body, Reset);
  }

  /** Extending a prefix of the segments by one segment appends that segment's run. */
  lemma RunsSnoc(segs: seq<Segment>, i: nat)
    requires i < |segs|
    ensures Runs(segs[..i + 1]) == Runs(segs[..i]) + GenerateAnsiCode(segs[i].style) + segs[i].text
  {
    TakeSnoc(segs, i);
    RunsAppend(segs[..i], segs[i]);
  }

  /** The visible text of the encoding is the segments' text, in order. */
  lemma {:induction false} FlatVisibleText(segs: seq<Segment>, tail: string)
    requires NoEscapes(segs)
    ensures Strip(Runs(segs) + tail) == Texts(segs) + Strip(tail)
  {
    if segs != [] {
      var code := GenerateAnsiCode(segs[0].style);
      var text := segs[0].text;
      var rest := Runs(segs[1..]) + tail;
      Regroup(code, text, Runs(segs[1..]), tail);
      StripGenerated(segs[0].style, text + rest);
      StripText(text, rest);
      FlatVisibleText(segs[1..], tail);
      Regroup([], text, Texts(segs[1..]), Strip(tail));
    } else {
      assert Runs(segs) + tail == tail;
    }
  }

  /** The length of the longest prefix of `s` without an escape character. */
  function TextRun(s: string): (k: nat)
    ensures k <= |s| && Esc !in s[..k]
    ensures k < |s| ==> s[k] == Esc
  {
    if s == [] || s[0] == Esc then 0
    else
      var k := 1 + TextRun(s[1..]);
      assert s[..k] == [s[0]] + s[1..][..k - 1];
      k
  }

  lemma {:induction false} TextRunOfText(t: string, rest: string)
    requires Esc !in t
    requires rest == [] || rest[0] == Esc
    ensures TextRun(t + rest) == |t|
  {
    if t != [] {
      assert (t + rest)[0] == t[0] && (t + rest)[1..] == t[1..] + rest;
      TextRunOfText(t[1..], rest);
    } else {
      assert t + rest == rest;
    }
  }

  /** Reads an escape-coded string as segments: each one SGR sequence followed by text up to the next escape. */
  function DecodeRuns(s: string): Option<seq<Segment>>
    decreases |s|
  {
    if s == [] then Some([])
    else
      var n := SgrLength(s);
      if n == 0 then None
      else
        match DecodeSgr(s[..n])
        case None => None
        case Some(st) =>
          var k := TextRun(s[n..]);
          match DecodeRuns(s[n + k..])
          case None => None
          case Some(rest) => Some([Segment(s[n..n + k], st)] + rest)
  }

  lemma DecodeRunsStep(st: Style, t: string, rest: string)
    requires Esc !in t
    requires rest == [] || rest[0] == Esc
    ensures DecodeRuns(GenerateAnsiCode(st) + t + rest) ==
      match DecodeRuns(rest)
      case None => None
      case Some(more) => Some([Segment(t, st)] + more)
  {
    var code := GenerateAnsiCode(st);
    var p := code[2..|code| - 1];
    assert code == Sgr(p);
    Assoc(code, t, rest);
    SgrLengthOfSgr(p, t + rest);
    GenerateAnsiCodeDecodes(st);
    TextRunOfText(t, rest);
    Frame3(code, t, rest);
  }

  /** The encoding of a non-empty list, and the reset that ends every encoding, start with an escape. */
  lemma RunsStartWithEscape(segs: seq<Segment>)
    ensures (Runs(segs) + Reset)[0] == Esc
  {
    if segs != [] {
      var code := GenerateAnsiCode(segs[0].style);
      Regroup(code, segs[0].text, Runs(segs[1..]), Reset);
      assert (code + (segs[0].text + (Runs(segs[1..]) + Reset)))[0] == code[0];
    }
  }

  /** The encoding of a non-empty list splits after its first run, and what follows starts with an escape. */
  lemma RunsCons(segs: seq<Segment>)
    requires segs != []
    ensures Runs(segs) + Reset == GenerateAnsiCode(segs[0].style) + segs[0].text + (Runs(segs[1..]) + Reset)
    ensures (Runs(segs[1..]) + Reset)[0] == Esc
  {
    var code := GenerateAnsiCode(segs[0].style);
    RunsStartWithEscape(segs[1..]);
    Regroup(code, segs[0].text, Runs(segs[1..]), Reset);
    Regroup([], code, segs[0].text, Runs(segs[1..]) + Reset);
  }

  /** Decoding the closing reset alone gives one empty default-styled segment. */
  lemma DecodeReset()
    ensures DecodeRuns(Reset) == Some([Segment("", Plain)])
  {
    assert Reset == GenerateAnsiCode(Plain) + "" + [];
    DecodeRunsStep(Plain, "", []);
    assert DecodeRuns([]) == Some([]);
    assert [Segment("", Plain)] + [] == [Segment("", Plain)];
  }

  /** One run in front of an encoding that decodes adds its segment in front of the decoding. */
  lemma DecodeCons(seg: Segment, rest: string, tail: seq<Segment>)
    requires Esc !in seg.text
    requires rest != [] && rest[0] == Esc
    requires DecodeRuns(rest) == Some(tail)
    ensures DecodeRuns(GenerateAnsiCode(seg.style) + seg.text + rest) == Some([seg] + tail)
  {
    DecodeRunsStep(seg.style, seg.text, rest);
  }

  /** Round trip: the encoding reads back as the segments themselves, then one empty default-styled segment. */
  lemma {:induction false} FlatRoundTrip(segs: seq<Segment>)
    requires NoEscapes(segs)
    ensures DecodeRuns(Runs(segs) + Reset) == Some(segs + [Segment("", Plain)])
  {
    if segs == [] {
      assert Runs(segs) + Reset == Reset;
      assert segs + [Segment("", Plain)] == [Segment("", Plain)];
      DecodeReset();
    } else {
      RunsCons(segs);
      FlatRoundTrip(segs[1..]);
      DecodeCons(segs[0], Runs(segs[1..]) + Reset, segs[1..] + [Segment("", Plain)]);
      ConsSnoc(segs, Segment("", Plain));
    }
  }

  /** Example: no segment gives the reset alone. */
  lemma FlatExampleEmpty()
    ensures Runs([]) + Reset == [Esc] + "[0m"
  {
  }

  /** Example: one green segment. */
  lemma FlatExampleGreen()
    ensures Runs([Segment("hi", Plain.(foreground := Some(Green)))]) + Reset == [Esc] + "[32mhi" + [Esc] + "[0m"
  {
    var hi := Segment("hi", Plain.(foreground := Some(Green)));
    ExampleGreen();
    assert Runs([hi]) == [Esc] + "[32m" + "hi" + "";
  }

  /** Example: a plain segment, then a bold one. */
  lemma FlatExamplePlainThenBold()
    ensures Runs([Segment("a", Plain), Segment("b", Plain.(bold := true))]) + Reset
      == [Esc] + "[0ma" + [Esc] + "[1mb" + [Esc] + "[0m"
  {
    var a := Segment("a", Plain);
    var b := Segment("b", Plain.(bold := true));
    ExampleBold();
    assert Runs([b]) == [Esc] + "[1m" + "b" + "";
    assert [a, b][1..] == [b];
    assert Runs([a, b]) == Reset + "a" + Runs([b]);
  }

  /** A bold run followed by a red run is encoded as the two codes and texts, with no reset between them. */
  lemma BoldThenRedRuns()
    ensures var bold := Plain.(bold := true);
      var red := Plain.(foreground := Some(Red));
      Runs([Segment("a", bold), Segment("b", red)]) == GenerateAnsiCode(bold) + "a" + GenerateAnsiCode(red) + "b"
  {
    var bold := Plain.(bold := true);
    var red := Plain.(foreground := Some(Red));
    var b := Segment("b", red);
    assert [Segment("a", bold), b][1..] == [b];
    assert Runs([b]) == GenerateAnsiCode(red) + "b" + "";
    Regroup(GenerateAnsiCode(bold), "a", GenerateAnsiCode(red), "b");
  }

  /**
   * No reset separates two runs (`BoldThenRedRuns`), so under cumulative
   * rendering, where each sequence acts on the attributes the one before left,
   * a bold run followed by a red run shows the red text bold as well. `DecodeRuns` starts every
   * sequence from the default rendition and reads the red run as red alone.
   */
  lemma CumulativeCarryOver()
    ensures var bold := Plain.(bold := true);
      var red := Plain.(foreground := Some(Red));
      ApplyParams(Plain, SgrParams(red)) == red &&
      ApplyParams(ApplyParams(Plain, SgrParams(bold)), SgrParams(red)) == red.(bold := true)
  {
    var bold := Plain.(bold := true);
    var red := Plain.(foreground := Some(Red));
    assert SgrParams(bold) == [1] && SgrParams(red) == [31];
    RedCodeApplied(Plain);
    RedCodeApplied(ApplyParams(Plain, [1]));
  }

  /** The red code alone, applied to any attributes, sets the foreground to red. */
  lemma RedCodeApplied(s: Style)
    ensures ApplyParams(s, [31]) == s.(foreground := Some(Red))
  {
    assert [31][1..] == [];
    ApplyColorCode(s, Red, false);
  }

  // HTML preview

  function ForegroundDecls(s: Style): seq<string> {
    if s.foreground.Some? then ["color: " + CssColor(s.foreground.value)] else []
  }

  function BackgroundDecls(s: Style): seq<string> {
    if s.background.Some? then ["background-color: " + CssColor(s.background.value)] else []
  }

  function BoldDecls(s: Style): seq<string> {
    if s.bold then ["font-weight: bold"] else []
  }

  function UnderlineDecls(s: Style): seq<string> {
    if s.underline then ["text-decoration: underline"] else []
  }

  /** The CSS declarations for `s`, in the order colour, background colour, weight, decoration. */
  function StyleDecls(s: Style): (r: seq<string>)
    ensures |r| <= 4 && (r == [] <==> IsPlain(s))
  {
    ForegroundDecls(s) + BackgroundDecls(s) + BoldDecls(s) + UnderlineDecls(s)
  }

  /** The parts separated by `sep`. */
  function JoinWith(sep: string, parts: seq<string>): string {
    if parts == [] then ""
    else if |parts| == 1 then parts[0]
    else parts[0] + sep + JoinWith(sep, parts[1..])
  }

  /** The opening of every styled span, up to its declarations. */
  const SpanOpen: string := "<span style=\""

  /**
   * One segment's preview span: the opening, the segment's declarations
   * joined by `; ` as the style attribute, then the text verbatim and the
   * closing tag.
   */
  function GenerateStyledSpan(seg: Segment): (r: string)
    ensures |r| >= 22 + |seg.text| && r[..13] == SpanOpen
    ensures r[13..|r| - 9 - |seg.text|] == JoinWith("; ", StyleDecls(seg.style))
    ensures r[|r| - 9 - |seg.text|..] == "\">" + seg.text + "</span>"
  {
    var attr := JoinWith("; ", StyleDecls(seg.style));
    var tail := "\">" + seg.text + "</span>";
    assert |SpanOpen| == 13 && |tail| == 9 + |seg.text|;
    Frame3(SpanOpen, attr, tail);
    SpanOpen + attr + tail
  }

  /**
   * The style attribute of a segment's span holds one declaration per SGR
   * code of the segment's escape code, order aside.
   */
  lemma SpanMatchesEscapeCode(seg: Segment)
    ensures var r := GenerateStyledSpan(seg);
      exists decls: seq<string> ::
        r[13..|r| - 9 - |seg.text|] == JoinWith("; ", decls) &&
        multiset(decls) == multiset(DeclsOf(SgrParams(seg.style)))
  {
    HtmlAnsiLockStep(seg.style);
    var r := GenerateStyledSpan(seg);
    assert r[13..|r| - 9 - |seg.text|] == JoinWith("; ", StyleDecls(seg.style));
  }

  /** The spans of the segments, in order. */
  function Spans(segs: seq<Segment>): (r: string)
    ensures segs == [] <==> r == ""
    ensures segs != [] ==> |r| > 13 && r[..13] == SpanOpen
  {
    if segs == [] then ""
    else
      PrefixOfConcat(GenerateStyledSpan(segs[0]), Spans(segs[1..]), 13);
      GenerateStyledSpan(segs[0]) + Spans(segs[1..])
  }

  /** Appending a segment appends its span: every segment's span appears, in order. */
  lemma {:induction false} SpansAppend(segs: seq<Segment>, last: Segment)
    decreases |segs|
    ensures Spans(segs + [last]) == Spans(segs) + GenerateStyledSpan(last)
  {
    if segs == [] {
      assert segs + [last] == [last] && [last][1..] == [];
      assert Spans([last]) == GenerateStyledSpan(last) + "";
    } else {
      SpansAppend(segs[1..], last);
      var head := GenerateStyledSpan(segs[0]);
      DropSnoc(segs, last);
      assert Spans(segs + [last]) == head + Spans(segs[1..] + [last]);
      assert Spans(segs) == head + Spans(segs[1..]);
      Assoc(head, Spans(segs[1..]), GenerateStyledSpan(last));
    }
  }

  const EmptyPreview: string := "<span>&nbsp;</span>"

  /** The spans joined, or a placeholder span exactly when there is no segment. */
  function SegmentsToHtml(segs: seq<Segment>): (r: string)
    ensures r == EmptyPreview <==> segs == []
    ensures segs != [] ==> r == Spans(segs)
  {
    var joined := Spans(segs);
    if joined == "" then EmptyPreview
    else
      assert joined[5] == joined[..13][5] == ' ';
      assert EmptyPreview[5] == '>';
      joined
  }

  /** The CSS declaration that stands for one SGR code of the escape encoding. */
  function DeclForCode(code: int): string {
    if code == BoldCode then "font-weight: bold"
    else if code == UnderlineCode then "text-decoration: underline"
    else if InColorRange(code, false) then "color: " + CssColor(NameForCode(code, false).value)
    else if InColorRange(code, true) then "background-color: " + CssColor(NameForCode(code, true).value)
    else ""
  }

  /** The declarations standing for a list of codes, in the same order. */
  function DeclsOf(codes: seq<int>): (r: seq<string>)
    ensures |r| == |codes|
    ensures forall i :: 0 <= i < |codes| ==> r[i] == DeclForCode(codes[i])
  {
    if codes == [] then [] else [DeclForCode(codes[0])] + DeclsOf(codes[1..])
  }

  lemma DeclForColorCode(c: ColorName, isBackground: bool)
    ensures DeclForCode(ColorCode(c, isBackground)) ==
      (if isBackground then "background-color: " else "color: ") + CssColor(c)
  {
    NameForCodeInverts(c, isBackground);
    ColorCodeInjective(c, c, isBackground);
    CodeRangesDisjoint(ColorCode(c, isBackground));
  }

  /** The declarations of a concatenation of codes are the concatenation of their declarations. */
  lemma DeclsOfAppend(a: seq<int>, b: seq<int>)
    ensures DeclsOf(a + b) == DeclsOf(a) + DeclsOf(b)
  {
  }

  /** The declarations of the composed codes, in the escape encoding's order. */
  lemma DeclsOfParams(s: Style)
    ensures DeclsOf(SgrParams(s)) == BoldDecls(s) + UnderlineDecls(s) + ForegroundDecls(s) + BackgroundDecls(s)
  {
    var b: seq<int> := if s.bold then [BoldCode] else [];
    var u: seq<int> := if s.underline then [UnderlineCode] else [];
    var f: seq<int> := if s.foreground.Some? then [ForegroundCode(s.foreground.value)] else [];
    var g: seq<int> := if s.background.Some? then [BackgroundCode(s.background.value)] else [];
    if s.foreground.Some? {
      DeclForColorCode(s.foreground.value, false);
    }
    if s.background.Some? {
      DeclForColorCode(s.background.value, true);
    }
    assert DeclsOf(b) == BoldDecls(s);
    assert DeclsOf(u) == UnderlineDecls(s);
    assert DeclsOf(f) == ForegroundDecls(s);
    assert DeclsOf(g) == BackgroundDecls(s);
    assert SgrParams(s) == b + u + f + g;
    DeclsOfAppend(b + u + f, g);
    DeclsOfAppend(b + u, f);
    DeclsOfAppend(b, u);
  }

  /** The preview and the escape encoding express the same attributes: one declaration per code, order aside. */
  lemma HtmlAnsiLockStep(s: Style)
    ensures multiset(StyleDecls(s)) == multiset(DeclsOf(SgrParams(s)))
  {
    DeclsOfParams(s);
    SwapHalves(ForegroundDecls(s), BackgroundDecls(s), BoldDecls(s), UnderlineDecls(s));
  }
}
