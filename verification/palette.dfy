/**
 * The style registry: the sixteen colour names, their foreground and
 * background SGR parameter codes (ECMA-48 section 8.3.117, with the aixterm
 * bright range 90-97 / 100-107), the format codes, the inverse lookup from a
 * code to a name, the `ansi-<code>` class markers the editor writes, the CSS
 * colours of the preview and the hex-to-name lookup.
 */
module Palette {
  import opened Wrappers
  import opened Decimal

  datatype ColorName =
    | Black | Red | Green | Yellow | Blue | Magenta | Cyan | White
    | Gray | BrightRed | BrightGreen | BrightYellow | BrightBlue | BrightMagenta | BrightCyan | BrightWhite

  /** The names in the order the code tables declare them (the order a scan of a table visits them). */
  const ColorOrder: seq<ColorName> :=
    [Black, Red, Green, Yellow, Blue, Magenta, Cyan, White,
     Gray, BrightRed, BrightGreen, BrightYellow, BrightBlue, BrightMagenta, BrightCyan, BrightWhite]

  /** Format codes. */
  const ResetCode: nat := 0
  const BoldCode: nat := 1
  const UnderlineCode: nat := 4

  /** The foreground table: 30-37 for the eight base colours, 90-97 for the bright ones. */
  function ForegroundCode(c: ColorName): (r: nat)
    ensures InColorRange(r, false)
  {
    match c
    case Black => 30
    case Red => 31
    case Green => 32
    case Yellow => 33
    case Blue => 34
    case Magenta => 35
    case Cyan => 36
    case White => 37
    case Gray => 90
    case BrightRed => 91
    case BrightGreen => 92
    case BrightYellow => 93
    case BrightBlue => 94
    case BrightMagenta => 95
    case BrightCyan => 96
    case BrightWhite => 97
  }

  /** The background table: each colour's foreground code plus ten. */
  function BackgroundCode(c: ColorName): (r: nat)
    ensures r == ForegroundCode(c) + 10
  {
    match c
    case Black => 40
    case Red => 41
    case Green => 42
    case Yellow => 43
    case Blue => 44
    case Magenta => 45
    case Cyan => 46
    case White => 47
    case Gray => 100
    case BrightRed => 101
    case BrightGreen => 102
    case BrightYellow => 103
    case BrightBlue => 104
    case BrightMagenta => 105
    case BrightCyan => 106
    case BrightWhite => 107
  }

  /** The code of `c` in the background table or the foreground table. */
  function ColorCode(c: ColorName, isBackground: bool): nat {
    if isBackground then BackgroundCode(c) else ForegroundCode(c)
  }

  /** The code range of one channel: 30-37 and 90-97, or 40-47 and 100-107. */
  predicate InColorRange(code: int, isBackground: bool) {
    if isBackground then 40 <= code <= 47 || 100 <= code <= 107
    else 30 <= code <= 37 || 90 <= code <= 97
  }

  lemma ColorOrderEnumerates(c: ColorName)
    ensures |ColorOrder| == 16
    ensures c in ColorOrder
    ensures forall i, j :: 0 <= i < j < |ColorOrder| ==> ColorOrder[i] != ColorOrder[j]
  {
  }

  /** Each table is injective and lands in its own range. */
  lemma ColorCodeInjective(a: ColorName, b: ColorName, isBackground: bool)
    ensures InColorRange(ColorCode(a, isBackground), isBackground)
    ensures ColorCode(a, isBackground) == ColorCode(b, isBackground) <==> a == b
  {
  }

  /** The two colour ranges are disjoint from each other and from the format codes. */
  lemma CodeRangesDisjoint(code: int)
    ensures !(InColorRange(code, false) && InColorRange(code, true))
    ensures code in {ResetCode, BoldCode, UnderlineCode} ==> !InColorRange(code, false) && !InColorRange(code, true)
  {
  }

  /** Position `i` of the declaration order holds the name whose codes are 30+i / 40+i, or 82+i / 92+i for the bright half. */
  lemma CodeAtPosition(i: nat)
    requires i < 16
    ensures ForegroundCode(ColorOrder[i]) == (if i < 8 then 30 + i else 82 + i)
    ensures BackgroundCode(ColorOrder[i]) == ForegroundCode(ColorOrder[i]) + 10
  {
  }

  /** Every code in a channel's range belongs to some name. */
  lemma {:induction false} RangeCovered(code: int, isBackground: bool)
    requires InColorRange(code, isBackground)
    ensures exists i :: 0 <= i < |ColorOrder| && ColorCode(ColorOrder[i], isBackground) == code
  {
    var fg := if isBackground then code - 10 else code;
    var i := if fg <= 37 then fg - 30 else fg - 82;
    CodeAtPosition(i);
  }

  /** The first of `names` whose code in the chosen table is `code`. */
  function FindCode(names: seq<ColorName>, code: int, isBackground: bool): (r: Option<ColorName>)
    ensures r.Some? ==> r.value in names && ColorCode(r.value, isBackground) == code
    ensures r.None? ==> forall i :: 0 <= i < |names| ==> ColorCode(names[i], isBackground) != code
  {
    if names == [] then None
    else if ColorCode(names[0], isBackground) == code then Some(names[0])
    else FindCode(names[1..], code, isBackground)
  }

  /** The inverse lookup: the name whose table entry is `code`, or `None` when no entry matches. */
  function NameForCode(code: int, isBackground: bool): (r: Option<ColorName>)
    ensures r.Some? ==> ColorCode(r.value, isBackground) == code
    ensures r.None? <==> !InColorRange(code, isBackground)
  {
    var r := FindCode(ColorOrder, code, isBackground);
    if InColorRange(code, isBackground) then RangeCovered(code, isBackground); r
    else if r.Some? then ColorCodeInjective(r.value, r.value, isBackground); r
    else r
  }

  lemma NameForCodeInverts(c: ColorName, isBackground: bool)
    ensures NameForCode(ColorCode(c, isBackground), isBackground) == Some(c)
  {
    var r := NameForCode(ColorCode(c, isBackground), isBackground);
    ColorCodeInjective(c, c, isBackground);
    ColorCodeInjective(r.value, c, isBackground);
  }

  /** One step of the scan: the entry at `i` matches, or the scan goes on from `i + 1`. */
  lemma FindCodeStep(names: seq<ColorName>, i: nat, code: int, isBackground: bool)
    requires i < |names|
    ensures FindCode(names[i..], code, isBackground) ==
      if ColorCode(names[i], isBackground) == code then Some(names[i]) else FindCode(names[i + 1..], code, isBackground)
  {
    assert names[i..][1..] == names[i + 1..];
  }

  /** The table scan with an early return, as the source performs it. */
  method GetColorNameByCode(code: int, isBackground: bool) returns (r: Option<ColorName>)
    ensures r == NameForCode(code, isBackground)
  {
    var i := 0;
    while i < |ColorOrder|
      invariant 0 <= i <= |ColorOrder|
      invariant FindCode(ColorOrder[i..], code, isBackground) == NameForCode(code, isBackground)
    {
      FindCodeStep(ColorOrder, i, code, isBackground);
      if ColorCode(ColorOrder[i], isBackground) == code {
        return Some(ColorOrder[i]);
      }
      i := i + 1;
    }
    return None;
  }

  /** The class marker the editor puts on a coloured span: `ansi-` and the decimal code. */
  function GetAnsiClassForColor(c: ColorName, isBackground: bool): (r: string)
    ensures |r| > 5 && r[..5] == "ansi-" && AllDigits(r[5..])
    ensures ParseIntPrefix(r[5..]) == Some(ColorCode(c, isBackground))
  {
    var digits := NatToString(ColorCode(c, isBackground));
    ParseIntPrefixOfNatToString(ColorCode(c, isBackground), []);
    assert digits + [] == digits;
    "ansi-" + digits
  }

  /** The editor component's own copy of the name-to-class table. */
  function EditorClassForColor(c: ColorName, isBackground: bool): (r: string)
    ensures |r| > 5 && r[..5] == "ansi-" && AllDigits(r[5..])
  {
    match c
    case Black => if isBackground then "ansi-40" else "ansi-30"
    case Red => if isBackground then "ansi-41" else "ansi-31"
    case Green => if isBackground then "ansi-42" else "ansi-32"
    case Yellow => if isBackground then "ansi-43" else "ansi-33"
    case Blue => if isBackground then "ansi-44" else "ansi-34"
    case Magenta => if isBackground then "ansi-45" else "ansi-35"
    case Cyan => if isBackground then "ansi-46" else "ansi-36"
    case White => if isBackground then "ansi-47" else "ansi-37"
    case Gray => if isBackground then "ansi-100" else "ansi-90"
    case BrightRed => if isBackground then "ansi-101" else "ansi-91"
    case BrightGreen => if isBackground then "ansi-102" else "ansi-92"
    case BrightYellow => if isBackground then "ansi-103" else "ansi-93"
    case BrightBlue => if isBackground then "ansi-104" else "ansi-94"
    case BrightMagenta => if isBackground then "ansi-105" else "ansi-95"
    case BrightCyan => if isBackground then "ansi-106" else "ansi-96"
    case BrightWhite => if isBackground then "ansi-107" else "ansi-97"
  }

  /** The editor's table spells each code in decimal after the marker prefix. */
  lemma EditorClassSpelled(c: ColorName, isBackground: bool)
    ensures var code := ColorCode(c, isBackground);
      EditorClassForColor(c, isBackground) == "ansi-" +
        (if code < 100 then [DigitChar(code / 10), DigitChar(code % 10)] else ['1', '0', DigitChar(code % 10)])
  {
    ColorCodeInjective(c, c, isBackground);
  }

  /** The two name-to-class tables agree everywhere. */
  lemma EditorClassAgrees(c: ColorName, isBackground: bool)
    ensures EditorClassForColor(c, isBackground) == GetAnsiClassForColor(c, isBackground)
  {
    var code := ColorCode(c, isBackground);
    ColorCodeInjective(c, c, isBackground);
    EditorClassSpelled(c, isBackground);
    if code < 100 {
      TwoDigits(code);
    } else {
      OneHundreds(code);
    }
  }

  /** A hexadecimal digit, in either letter case. */
  predicate IsHexDigit(ch: char) {
    '0' <= ch <= '9' || 'a' <= ch <= 'f' || 'A' <= ch <= 'F'
  }

  /** The CSS colour the preview paints each name with: a six-digit hex colour. */
  function CssColor(c: ColorName): (r: string)
    ensures |r| == 7 && r[0] == '#' && forall i :: 1 <= i < 7 ==> IsHexDigit(r[i])
  {
    match c
    case Black => "#000000"
    case Red => "#E74C3C"
    case Green => "#2ECC71"
    case Yellow => "#F1C40F"
    case Blue => "#3498DB"
    case Magenta => "#9B59B6"
    case Cyan => "#1ABC9C"
    case White => "#FFFFFF"
    case Gray => "#808080"
    case BrightRed => "#FF5252"
    case BrightGreen => "#5CFF5C"
    case BrightYellow => "#FFFF5C"
    case BrightBlue => "#5C5CFF"
    case BrightMagenta => "#FF5CFF"
    case BrightCyan => "#5CFFFF"
    case BrightWhite => "#FFFFFF"
  }

  /** White and bright white are the only two names painted alike. */
  lemma CssColorSharedOnlyByWhites(a: ColorName, b: ColorName)
    ensures CssColor(a) == CssColor(b) <==> a == b || {a, b} == {White, BrightWhite}
  {
  }

  function LowerChar(ch: char): char {
    if 'A' <= ch <= 'Z' then (ch as int - 'A' as int + 'a' as int) as char else ch
  }

  function UpperChar(ch: char): char {
    if 'a' <= ch <= 'z' then (ch as int - 'a' as int + 'A' as int) as char else ch
  }

  /** `toLowerCase` on the ASCII letters. */
  function ToLowerAscii(s: string): (r: string)
    ensures |r| == |s| && forall i :: 0 <= i < |s| ==> r[i] == LowerChar(s[i])
  {
    seq(|s|, i requires 0 <= i < |s| => LowerChar(s[i]))
  }

  function ToUpperAscii(s: string): (r: string)
    ensures |r| == |s| && forall i :: 0 <= i < |s| ==> r[i] == UpperChar(s[i])
  {
    seq(|s|, i requires 0 <= i < |s| => UpperChar(s[i]))
  }

  /** The exact-match table of the hex lookup; bright white has no entry of its own. */
  const HexTable: map<string, ColorName> := map[
    "#000000" := Black,
    "#ff0000" := Red,
    "#00ff00" := Green,
    "#ffff00" := Yellow,
    "#0000ff" := Blue,
    "#ff00ff" := Magenta,
    "#00ffff" := Cyan,
    "#ffffff" := White,
    "#808080" := Gray,
    "#ff8080" := BrightRed,
    "#80ff80" := BrightGreen,
    "#ffff80" := BrightYellow,
    "#8080ff" := BrightBlue,
    "#ff80ff" := BrightMagenta,
    "#80ffff" := BrightCyan
  ]

  /**
   * The name for a hex colour, ignoring letter case; white when the table has
   * no own entry. This is the lookup as intended: `HexLookupAsWritten` is the
   * lookup as the source performs it on a plain object.
   */
  function HexToAnsiColor(hex: string): (r: ColorName)
    ensures r != BrightWhite
    ensures r == White || ToLowerAscii(hex) in HexTable
  {
    var normalized := ToLowerAscii(hex);
    if normalized in HexTable then HexTable[normalized] else White
  }

  /** A string without upper-case ASCII letters is its own lower-case form. */
  lemma LowerOfLower(s: string)
    requires forall i :: 0 <= i < |s| ==> !('A' <= s[i] <= 'Z')
    ensures ToLowerAscii(s) == s
  {
  }

  /** Every key of the table is lower-case, so it is its own normal form. */
  lemma {:induction false} HexKeysAreLowerCase(key: string)
    requires key in HexTable
    ensures ToLowerAscii(key) == key
    ensures forall i :: 0 <= i < |key| ==> !('A' <= key[i] <= 'Z')
  {
    assert forall i :: 0 <= i < |key| ==> !('A' <= key[i] <= 'Z');
    LowerOfLower(key);
  }

  /** A table entry is found as written and in upper case. */
  lemma {:induction false} HexKeyFound(key: string)
    requires key in HexTable
    ensures HexToAnsiColor(key) == HexTable[key]
    ensures HexToAnsiColor(ToUpperAscii(key)) == HexTable[key]
  {
    HexKeysAreLowerCase(key);
    var up := ToUpperAscii(key);
    forall i | 0 <= i < |key|
      ensures ToLowerAscii(up)[i] == key[i]
    {
    }
    assert ToLowerAscii(up) == key;
  }

  /**
   * Any spelling whose lower-case form is a key finds that key's colour.
   * Nothing outside the table is found.
   */
  lemma HexToAnsiColorMatches(hex: string)
    ensures ToLowerAscii(hex) in HexTable ==> HexToAnsiColor(hex) == HexTable[ToLowerAscii(hex)]
    ensures ToLowerAscii(hex) !in HexTable ==> HexToAnsiColor(hex) == White
  {
  }

  /** The answer depends only on the lower-case form of the input. */
  lemma HexToAnsiColorIgnoresCase(h1: string, h2: string)
    requires ToLowerAscii(h1) == ToLowerAscii(h2)
    ensures HexToAnsiColor(h1) == HexToAnsiColor(h2)
  {
  }

  /** Example: a mixed-case spelling of a key finds that key's colour. */
  lemma HexMixedCase()
    ensures HexToAnsiColor("#Ff0000") == Red
  {
    assert ToLowerAscii("#Ff0000") == "#ff0000";
  }

  /** Distinct keys name distinct colours, so no colour is reached by two table entries. */
  lemma HexTableInjective(k1: string, k2: string)
    requires k1 in HexTable && k2 in HexTable
    ensures HexTable[k1] == HexTable[k2] ==> k1 == k2
  {
  }

  /**
   * The property names a plain object literal answers besides its own keys
   * that a lower-cased lookup can reach: those it inherits from
   * `Object.prototype` whose names hold no upper-case letter. Both hold a
   * truthy value, a function and an object.
   */
  const InheritedKeys: set<string> := {"constructor", "__proto__"}

  /** What the lookup as written can return: a colour name, or a value inherited from the object's prototype. */
  datatype HexLookup = Named(name: ColorName) | Inherited(key: string)

  /**
   * The hex lookup as the source performs it: an own key answers its name,
   * an inherited property is truthy and is returned as it is, and anything
   * else answers white.
   */
  function HexLookupAsWritten(hex: string): (r: HexLookup)
    ensures r.Inherited? <==> ToLowerAscii(hex) in InheritedKeys
    ensures r.Named? ==> r.name == HexToAnsiColor(hex)
  {
    var normalized := ToLowerAscii(hex);
    if normalized in HexTable then Named(HexTable[normalized])
    else if normalized in InheritedKeys then Inherited(normalized)
    else Named(White)
  }

  /** The lookup as written answers a non-colour for `constructor`, in any letter case, and for `__proto__`, where the intended lookup answers white. */
  lemma HexLookupLeaksPrototype()
    ensures HexLookupAsWritten("constructor") == Inherited("constructor")
    ensures HexLookupAsWritten("CONSTRUCTOR") == Inherited("constructor")
    ensures HexLookupAsWritten("__proto__") == Inherited("__proto__")
    ensures HexToAnsiColor("constructor") == White && HexToAnsiColor("__proto__") == White
  {
    LowerOfLower("constructor");
    LowerOfLower("__proto__");
    assert ToLowerAscii("CONSTRUCTOR") == "constructor";
  }
}
