/**
 * The tree encoder: the editor's document tree to one escape-coded string.
 * Each element takes its attributes from its own `ansi-<code>` class markers
 * only (no inheritance from ancestors, a later marker wins), and a styled
 * element wraps the encoding of its children in its code and a reset.
 */
module TreeEncoder {
  import opened Wrappers
  import opened Decimal
  import opened Palette
  import opened Styles
  import opened Composer
  import opened Sequences

  /**
   * A document node: a text node, an element with its class list and
   * children, or any other kind of node. An element's `classes` is its
   * `classList`: the tokens of its `class` attribute in order, each kept at
   * its first occurrence only (`ClassList`).
   */
  datatype Node =
    | Text(text: string)
    | Element(classes: seq<string>, children: seq<Node>)
    | Other

  /** No class occurs twice. */
  predicate Distinct(classes: seq<string>) {
    forall i, j :: 0 <= i < j < |classes| ==> classes[i] != classes[j]
  }

  /** The place where `t` first occurs in `tokens`. */
  function FirstIndex(tokens: seq<string>, t: string): (k: nat)
    requires t in tokens
    ensures k < |tokens| && tokens[k] == t
    ensures forall i :: 0 <= i < k ==> tokens[i] != t
  {
    if tokens[0] == t then 0 else 1 + FirstIndex(tokens[1..], t)
  }

  /** A token of a prefix first occurs in the whole where it first occurs in the prefix; any other token first occurs after the prefix. */
  lemma FirstIndexInPrefix(tokens: seq<string>, n: nat)
    requires n <= |tokens|
    ensures forall t :: t in tokens[..n] ==> FirstIndex(tokens, t) == FirstIndex(tokens[..n], t)
    ensures forall t :: t in tokens && t !in tokens[..n] ==> FirstIndex(tokens, t) >= n
  {
    forall t | t in tokens[..n]
      ensures FirstIndex(tokens, t) == FirstIndex(tokens[..n], t)
    {
      assert tokens[FirstIndex(tokens[..n], t)] == t;
    }
  }

  /**
   * The class list a `class` attribute's tokens give: the same tokens without
   * repeats, in the order of their first occurrences.
   */
  function ClassList(tokens: seq<string>): (r: seq<string>)
    ensures Distinct(r)
    ensures forall t :: t in r <==> t in tokens
    ensures forall i, j :: 0 <= i < j < |r| ==> FirstIndex(tokens, r[i]) < FirstIndex(tokens, r[j])
  {
    if tokens == [] then []
    else
      var n := |tokens| - 1;
      var init := ClassList(tokens[..n]);
      var last := tokens[n];
      assert tokens == tokens[..n] + [last];
      FirstIndexInPrefix(tokens, n);
      if last in init then init else init + [last]
  }

  const MarkerPrefix: string := "ansi-"

  /** The code a class carries: the integer read after `ansi-`, or none for any other class or no number. */
  function MarkerCode(cls: string): (r: Option<int>)
    ensures r.Some? ==> |cls| > 5 && cls[..5] == MarkerPrefix
  {
    if |cls| >= 5 && cls[..5] == MarkerPrefix then ParseIntPrefix(cls[5..]) else None
  }

  /** A class that sets the colour of one channel. */
  predicate IsColorMarker(cls: string, isBackground: bool) {
    MarkerCode(cls).Some? && InColorRange(MarkerCode(cls).value, isBackground)
  }

  /** One class applied to the attributes gathered so far. */
  function ApplyMarker(s: Style, cls: string): (r: Style)
    ensures MarkerCode(cls).None? || !IsStyleCode(MarkerCode(cls).value) ==> r == s
  {
    match MarkerCode(cls)
    case None => s
    case Some(code) => ApplyCode(s, code)
  }

  /** The attributes of an element: its own classes applied in order, starting from none. */
  function DecodeClasses(classes: seq<string>): Style {
    if classes == [] then Plain
    else ApplyMarker(DecodeClasses(classes[..|classes| - 1]), classes[|classes| - 1])
  }

  /** The encoding of one node: never shorter than its visible text. */
  function EncodeNode(n: Node): (r: string)
    ensures |r| >= |TextContent(n)|
    decreases n, 1
  {
    match n
    case Text(t) => t
    case Other => ""
    case Element(classes, children) =>
      var inner := EncodeChildren(children);
      var s := DecodeClasses(classes);
      if IsPlain(s) then inner else GenerateAnsiCode(s) + inner + Reset
  }

  /** The encodings of the children, concatenated in order. */
  function EncodeChildren(children: seq<Node>): (r: string)
    ensures |r| >= |ChildrenText(children)|
    decreases children, 0
  {
    if children == [] then ""
    else EncodeChildren(children[..|children| - 1]) + EncodeNode(children[|children| - 1])
  }

  /** The encoder as the source runs it: a loop over the classes, a loop over the children, recursion per child. */
  method NodesToAnsi(n: Node) returns (r: string)
    ensures r == EncodeNode(n)
    decreases n
  {
    match n
    case Text(t) =>
      r := t;
    case Other =>
      r := "";
    case Element(classes, children) =>
      var style := Plain;
      for i := 0 to |classes|
        invariant style == DecodeClasses(classes[..i])
      {
        assert classes[..i + 1][..i] == classes[..i];
        var cls := classes[i];
        if |cls| >= 5 && cls[..5] == MarkerPrefix {
          var code := ParseIntPrefix(cls[5..]);
          if code.Some? {
            if code.value == BoldCode {
              style := style.(bold := true);
            } else if code.value == UnderlineCode {
              style := style.(underline := true);
            } else if InColorRange(code.value, false) {
              var name := GetColorNameByCode(code.value, false);
              style := style.(foreground := name);
            } else if InColorRange(code.value, true) {
              var name := GetColorNameByCode(code.value, true);
              style := style.(background := name);
            }
          }
        }
      }
      assert classes[..|classes|] == classes;
      var inner := "";
      for j := 0 to |children|
        invariant inner == EncodeChildren(children[..j])
      {
        assert children[..j + 1][..j] == children[..j];
        var text := NodesToAnsi(children[j]);
        inner := inner + text;
      }
      assert children[..|children|] == children;
      if style.foreground.Some? || style.background.Some? || style.bold || style.underline {
        var code := GenerateAnsiCode(style);
        r := code + inner + Reset;
      } else {
        r := inner;
      }
  }

  /** What one class does to one channel: a colour marker of that channel sets it, anything else keeps it. */
  lemma ApplyMarkerChannel(s: Style, cls: string, isBackground: bool)
    ensures Channel(ApplyMarker(s, cls), isBackground) ==
      if IsColorMarker(cls, isBackground) then NameForCode(MarkerCode(cls).value, isBackground) else Channel(s, isBackground)
    ensures ApplyMarker(s, cls).bold == (s.bold || MarkerCode(cls) == Some(BoldCode))
    ensures ApplyMarker(s, cls).underline == (s.underline || MarkerCode(cls) == Some(UnderlineCode))
  {
    if MarkerCode(cls).Some? {
      CodeRangesDisjoint(MarkerCode(cls).value);
    }
  }

  /** Some class of the list carries `code`. */
  predicate HasMarker(classes: seq<string>, code: int) {
    exists i :: 0 <= i < |classes| && MarkerCode(classes[i]) == Some(code)
  }

  lemma HasMarkerSplit(classes: seq<string>, code: int)
    requires classes != []
    ensures HasMarker(classes, code) <==>
      HasMarker(classes[..|classes| - 1], code) || MarkerCode(classes[|classes| - 1]) == Some(code)
  {
    ExistsInSnoc(classes, classes[..|classes| - 1], cls => MarkerCode(cls) == Some(code));
  }

  /** Bold and underline are set exactly when some class carries code 1, respectively code 4. */
  lemma {:induction false} DecodedFlags(classes: seq<string>)
    ensures DecodeClasses(classes).bold <==> HasMarker(classes, BoldCode)
    ensures DecodeClasses(classes).underline <==> HasMarker(classes, UnderlineCode)
  {
    if classes != [] {
      var init := classes[..|classes| - 1];
      var last := classes[|classes| - 1];
      DecodedFlags(init);
      ApplyMarkerChannel(DecodeClasses(init), last, false);
      HasMarkerSplit(classes, BoldCode);
      HasMarkerSplit(classes, UnderlineCode);
    }
  }

  /** A channel stays unset exactly when no class is a colour marker of that channel. */
  lemma {:induction false} DecodedChannelUnset(classes: seq<string>, isBackground: bool)
    ensures Channel(DecodeClasses(classes), isBackground) == None <==>
      forall i :: 0 <= i < |classes| ==> !IsColorMarker(classes[i], isBackground)
  {
    if classes != [] {
      var init := classes[..|classes| - 1];
      var last := classes[|classes| - 1];
      DecodedChannelUnset(init, isBackground);
      ApplyMarkerChannel(DecodeClasses(init), last, isBackground);
      ExistsInSnoc(classes, init, cls => IsColorMarker(cls, isBackground));
      if IsColorMarker(last, isBackground) {
        assert NameForCode(MarkerCode(last).value, isBackground).Some?;
      }
    }
  }

  /** The last colour marker of a channel decides that channel's colour. */
  lemma {:induction false} LastMarkerWins(classes: seq<string>, isBackground: bool, i: nat)
    requires i < |classes| && IsColorMarker(classes[i], isBackground)
    requires forall j :: i < j < |classes| ==> !IsColorMarker(classes[j], isBackground)
    ensures Channel(DecodeClasses(classes), isBackground) == NameForCode(MarkerCode(classes[i]).value, isBackground)
  {
    var init := classes[..|classes| - 1];
    var last := classes[|classes| - 1];
    ApplyMarkerChannel(DecodeClasses(init), last, isBackground);
    if i < |classes| - 1 {
      assert forall j :: i < j < |init| ==> init[j] == classes[j];
      LastMarkerWins(init, isBackground, i);
    }
  }

  /** Round trip: the marker written for a colour sets exactly that colour's channel, and nothing else. */
  lemma ColorMarkerRoundTrip(s: Style, c: ColorName, isBackground: bool)
    ensures MarkerCode(GetAnsiClassForColor(c, isBackground)) == Some(ColorCode(c, isBackground))
    ensures ApplyMarker(s, GetAnsiClassForColor(c, isBackground)) == WithChannel(s, isBackground, Some(c))
    ensures DecodeClasses([GetAnsiClassForColor(c, isBackground)]) == WithChannel(Plain, isBackground, Some(c))
  {
    var cls := GetAnsiClassForColor(c, isBackground);
    ApplyColorCode(s, c, isBackground);
    ApplyColorCode(Plain, c, isBackground);
    assert [cls][..0] == [];
  }

  /** The editor's bold and underline markers set their flag and nothing else. */
  lemma FormatMarkers(s: Style)
    ensures ApplyMarker(s, "ansi-1") == s.(bold := true)
    ensures ApplyMarker(s, "ansi-4") == s.(underline := true)
  {
    ParseIntPrefixOfNatToString(1, []);
    ParseIntPrefixOfNatToString(4, []);
    assert "ansi-1"[5..] == NatToString(1) + [];
    assert "ansi-4"[5..] == NatToString(4) + [];
  }

  /** An element none of whose classes is a style marker adds nothing around its children. */
  lemma {:induction false} UnmarkedElementIsTransparent(classes: seq<string>, children: seq<Node>)
    requires forall i :: 0 <= i < |classes| ==> MarkerCode(classes[i]).None? || !IsStyleCode(MarkerCode(classes[i]).value)
    ensures DecodeClasses(classes) == Plain
    ensures EncodeNode(Element(classes, children)) == EncodeChildren(children)
  {
    if classes != [] {
      var init := classes[..|classes| - 1];
      var last := classes[|classes| - 1];
      UnmarkedElementIsTransparent(init, children);
      if MarkerCode(last).Some? {
        ApplyCodeEffect(Plain, MarkerCode(last).value);
      }
    }
  }

  /** A styled element opens with one sequence that establishes exactly its own attributes, and closes with the reset. */
  lemma StyledElementFrame(classes: seq<string>, children: seq<Node>)
    requires !IsPlain(DecodeClasses(classes))
    ensures var e := EncodeNode(Element(classes, children));
      var n := SgrLength(e);
      var m := n + |EncodeChildren(children)|;
      0 < n && m + |Reset| == |e| &&
      DecodeSgr(e[..n]) == Some(DecodeClasses(classes)) &&
      e[n..m] == EncodeChildren(children) && e[m..] == Reset
  {
    var s := DecodeClasses(classes);
    var code := GenerateAnsiCode(s);
    var inner := EncodeChildren(children);
    var p := code[2..|code| - 1];
    assert code == Sgr(p);
    Assoc(code, inner, Reset);
    SgrLengthOfSgr(p, inner + Reset);
    GenerateAnsiCodeDecodes(s);
    Frame3(code, inner, Reset);
  }

  /** The visible text of a node: its text nodes, in document order. */
  function TextContent(n: Node): string
    decreases n, 1
  {
    match n
    case Text(t) => t
    case Other => ""
    case Element(_, children) => ChildrenText(children)
  }

  function ChildrenText(children: seq<Node>): string
    decreases children, 0
  {
    if children == [] then ""
    else ChildrenText(children[..|children| - 1]) + TextContent(children[|children| - 1])
  }

  /** No text node below `n` holds an escape character. */
  predicate NoEscapes(n: Node)
    decreases n
  {
    match n
    case Text(t) => Esc !in t
    case Other => true
    case Element(_, children) => forall i :: 0 <= i < |children| ==> NoEscapes(children[i])
  }

  /** Removing the escape sequences from a node's encoding leaves exactly its text content. */
  lemma {:induction false} NodeVisibleText(n: Node, rest: string)
    requires NoEscapes(n)
    ensures Strip(EncodeNode(n) + rest) == TextContent(n) + Strip(rest)
    decreases n, 1
  {
    match n
    case Text(t) =>
      StripText(t, rest);
    case Other =>
      assert EncodeNode(n) + rest == rest;
    case Element(classes, children) =>
      var inner := EncodeChildren(children);
      var s := DecodeClasses(classes);
      if IsPlain(s) {
        ChildrenVisibleText(children, rest);
      } else {
        var code := GenerateAnsiCode(s);
        Regroup(code, inner, Reset, rest);
        StripGenerated(s, inner + (Reset + rest));
        ChildrenVisibleText(children, Reset + rest);
        StripAfterSgr("0", rest);
      }
  }

  lemma {:induction false} ChildrenVisibleText(children: seq<Node>, rest: string)
    requires forall i :: 0 <= i < |children| ==> NoEscapes(children[i])
    ensures Strip(EncodeChildren(children) + rest) == ChildrenText(children) + Strip(rest)
    decreases children, 0
  {
    if children == [] {
      assert EncodeChildren(children) + rest == rest;
    } else {
      var init := children[..|children| - 1];
      var last := children[|children| - 1];
      assert forall i :: 0 <= i < |init| ==> init[i] == children[i];
      Assoc(EncodeChildren(init), EncodeNode(last), rest);
      NodeVisibleText(last, rest);
      ChildrenVisibleText(init, EncodeNode(last) + rest);
      Assoc(ChildrenText(init), TextContent(last), Strip(rest));
    }
  }

  /** The whole visible text of the encoder's output is the document's text content. */
  lemma VisibleText(n: Node)
    requires NoEscapes(n)
    ensures Strip(EncodeNode(n)) == TextContent(n)
  {
    NodeVisibleText(n, []);
    assert EncodeNode(n) + [] == EncodeNode(n);
    assert TextContent(n) + [] == TextContent(n);
  }

  /** The red foreground marker alone decodes to a red foreground. */
  lemma RedMarkerDecodes()
    ensures DecodeClasses(["ansi-31"]) == Plain.(foreground := Some(Red))
  {
    EditorClassAgrees(Red, false);
    assert EditorClassForColor(Red, false) == "ansi-31";
    ColorMarkerRoundTrip(Plain, Red, false);
    assert ["ansi-31"][..0] == [];
  }

  /** A red foreground alone is composed as parameter 31. */
  lemma RedComposes()
    ensures GenerateAnsiCode(Plain.(foreground := Some(Red))) == Sgr("31")
  {
    var s := Plain.(foreground := Some(Red));
    assert SgrParams(s) == [31];
    assert NatToString(31) == "31";
    assert JoinParams([31]) == "31";
  }

  /** Example: a red span around a text. */
  lemma TreeExampleRed()
    ensures EncodeNode(Element(["ansi-31"], [Text("x")])) == Sgr("31") + "x" + Reset
  {
    RedMarkerDecodes();
    RedComposes();
    assert EncodeChildren([Text("x")]) == "x" by {
      assert [Text("x")][..0] == [];
    }
  }

  /** Example: an unstyled element around two texts. */
  lemma TreeExampleUnstyled()
    ensures EncodeNode(Element([], [Text("a"), Text("b")])) == "ab"
  {
    var cs := [Text("a"), Text("b")];
    assert cs[..1] == [Text("a")] && cs[..1][..0] == [];
    assert EncodeChildren(cs[..1]) == "a";
  }

  /** Example: a repeated class is kept once, at its first place. */
  lemma ClassListKeepsFirst()
    ensures ClassList(["ansi-31", "ansi-32", "ansi-31"]) == ["ansi-31", "ansi-32"]
  {
    var tokens := ["ansi-31", "ansi-32", "ansi-31"];
    assert tokens[..2] == ["ansi-31", "ansi-32"] && tokens[..2][..1] == ["ansi-31"];
    assert ["ansi-31"][..0] == [];
  }

  /** The green foreground marker sets the foreground to green, whatever came before. */
  lemma GreenMarkerApplies(s: Style)
    ensures ApplyMarker(s, "ansi-32") == s.(foreground := Some(Green))
  {
    EditorClassAgrees(Green, false);
    assert EditorClassForColor(Green, false) == "ansi-32";
    ColorMarkerRoundTrip(s, Green, false);
  }

  /** Example: in that class list the green marker comes last, so the foreground is green. */
  lemma RepeatedRedThenGreen()
    ensures DecodeClasses(ClassList(["ansi-31", "ansi-32", "ansi-31"])) == Plain.(foreground := Some(Green))
  {
    ClassListKeepsFirst();
    var cs := ["ansi-31", "ansi-32"];
    assert cs[..1] == ["ansi-31"];
    assert DecodeClasses(cs) == ApplyMarker(DecodeClasses(["ansi-31"]), "ansi-32");
    RedMarkerDecodes();
    GreenMarkerApplies(Plain.(foreground := Some(Red)));
  }

  /** Example: `parseInt` skips a no-break space before the number, so `ansi-` NBSP `31` is the red marker too. */
  lemma MarkerAfterNoBreakSpace()
    ensures MarkerCode("ansi-\U{A0}31") == Some(31)
  {
    TwoDigits(31);
    assert "ansi-\U{A0}31"[5..] == "\U{A0}" + NatToString(31);
    ParseIntPrefixAfterWhitespace("\U{A0}", 31);
  }
}
