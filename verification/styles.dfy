/**
 * Style attributes of a run of text, and the meaning of one numeric code
 * for them: the rule the tree encoder applies to each `ansi-<code>` marker.
 */
module Styles {
  import opened Wrappers
  import opened Palette

  /** Optional colours (absent means the terminal default) and the two format flags. */
  datatype Style = Style(foreground: Option<ColorName>, background: Option<ColorName>, bold: bool, underline: bool)

  const Plain: Style := Style(None, None, false, false)

  /** No colour set and neither format flag set. */
  predicate IsPlain(s: Style) {
    s.foreground.None? && s.background.None? && !s.bold && !s.underline
  }

  /** The colour of one channel. */
  function Channel(s: Style, isBackground: bool): Option<ColorName> {
    if isBackground then s.background else s.foreground
  }

  /** `s` with one channel replaced. */
  function WithChannel(s: Style, isBackground: bool, c: Option<ColorName>): (r: Style)
    ensures Channel(r, isBackground) == c && Channel(r, !isBackground) == Channel(s, !isBackground)
    ensures r.bold == s.bold && r.underline == s.underline
  {
    if isBackground then s.(background := c) else s.(foreground := c)
  }

  /** A code this system gives a meaning to: bold, underline, or a code of either colour table. */
  predicate IsStyleCode(code: int) {
    code == BoldCode || code == UnderlineCode || InColorRange(code, false) || InColorRange(code, true)
  }

  /**
   * One code applied to `s`: 1 sets bold, 4 sets underline, a foreground or
   * background code sets that channel to its name, anything else is ignored.
   */
  function ApplyCode(s: Style, code: int): (r: Style)
    ensures r.bold == (s.bold || code == BoldCode) && r.underline == (s.underline || code == UnderlineCode)
    ensures !InColorRange(code, false) ==> r.foreground == s.foreground
    ensures !InColorRange(code, true) ==> r.background == s.background
  {
    if code == BoldCode then s.(bold := true)
    else if code == UnderlineCode then s.(underline := true)
    else if InColorRange(code, false) then s.(foreground := NameForCode(code, false))
    else if InColorRange(code, true) then s.(background := NameForCode(code, true))
    else s
  }

  /** A colour's own code sets exactly its channel to that colour. */
  lemma ApplyColorCode(s: Style, c: ColorName, isBackground: bool)
    ensures ApplyCode(s, ColorCode(c, isBackground)) == WithChannel(s, isBackground, Some(c))
  {
    NameForCodeInverts(c, isBackground);
    ColorCodeInjective(c, c, isBackground);
    CodeRangesDisjoint(ColorCode(c, isBackground));
  }

  /** What a code changes: only the attribute it names; a code outside the system's set changes nothing. */
  lemma ApplyCodeEffect(s: Style, code: int)
    ensures code == BoldCode ==> ApplyCode(s, code) == s.(bold := true)
    ensures code == UnderlineCode ==> ApplyCode(s, code) == s.(underline := true)
    ensures !IsStyleCode(code) ==> ApplyCode(s, code) == s
    ensures IsStyleCode(code) && code != BoldCode && code != UnderlineCode ==>
      exists c: ColorName, isBackground: bool :: code == ColorCode(c, isBackground) &&
        ApplyCode(s, code) == WithChannel(s, isBackground, Some(c))
  {
    if IsStyleCode(code) && code != BoldCode && code != UnderlineCode {
      var isBackground := !InColorRange(code, false);
      var c := NameForCode(code, isBackground).value;
      ApplyColorCode(s, c, isBackground);
    }
  }
}
