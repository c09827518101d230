# ANSI styling core of DiscordTextFormatting

This project models `src/utils/ansiUtils.ts`, the ANSI core of DiscordTextFormatting, a small
web editor that formats chat text for Discord's `ansi` code blocks. The core turns styled text (foreground colour, background colour,
bold, underline) into strings of Select Graphic Rendition control sequences `ESC [ params m`,
as defined in section 8.3.117 of ECMA-48, with the control-sequence syntax of section 5.4.
Foreground codes are 30–37 and background codes 40–47. The bright variants 90–97 and 100–107
are the common aixterm extension.

The model has eight modules, one file each:

- `wrappers.dfy` (`Wrappers`): `Option`, which stands for the source's `undefined` and `NaN`.
- `sequences.dfy` (`Sequences`): small generic facts about concatenation and slicing that the
  encoders' proofs share. They model nothing in the source.
- `decimal.dfy` (`Decimal`): decimal rendering of codes, which is what `Array.join` and template
  literals do. It also holds what `parseInt` does: skip JavaScript whitespace, then read an optional
  sign and a decimal prefix.
- `palette.dfy` (`Palette`): the style registry. It holds the sixteen colour names and the
  foreground, background and format code tables. It also holds:
  - the inverse lookup from a code to a name, both as a function and as the source's scanning loop;
  - the `ansi-<code>` class markers;
  - the editor component's duplicate marker table;
  - the preview's CSS colours;
  - the hex-to-name lookup.
- `styles.dfy` (`Styles`): the style attributes. It also defines what one numeric code does to
  them, which is the rule the tree encoder applies to each marker.
- `composer.dfy` (`Composer`): the code composer `GenerateAnsiCode`. Two things are proved about it:
  - its output round-trips through an ECMA-48 SGR decoder;
  - `Strip`, which removes SGR sequences, deletes its output completely.
- `flat_encoder.dfy` (`FlatEncoder`): `segmentsToAnsi` as a loop method. It also holds a decoder
  that reads the output back into segments, and the HTML twin `generateStyledSpan`/`segmentsToHtml`.
- `tree_encoder.dfy` (`TreeEncoder`): `nodesToAnsi` over a document tree. Nodes are text nodes,
  elements (a class list and children) and any other node kind. An element's classes are its
  `classList`: the tokens of its `class` attribute, each kept once at its first occurrence
  (`ClassList`). It is a recursive method with a
  loop over the classes and a loop over the children, proved equal to the function `EncodeNode`.

Nothing here performs I/O. The browser's document is an algebraic datatype built by the caller.

## Model

| member | source | states |
|---|---|---|
| `Palette.ForegroundCode` | src/utils/ansiUtils.ts:3-21 | Every foreground code lies in 30–37 or 90–97. |
| `Palette.BackgroundCode` | src/utils/ansiUtils.ts:23-41 | Every background code is the same colour's foreground code plus 10. |
| `Palette.ColorOrderEnumerates` | src/utils/ansiUtils.ts:3-21 | The declaration order lists each of the sixteen colour names exactly once. |
| `Palette.ColorCodeInjective` | src/utils/ansiUtils.ts:3-41 | Each of the foreground and background tables is injective. Each lands in its own range: 30–37/90–97 or 40–47/100–107. |
| `Palette.CodeRangesDisjoint` | src/utils/ansiUtils.ts:3-48 | The foreground and background ranges are disjoint. Neither contains the format codes 0, 1 or 4. |
| `Palette.CodeAtPosition` | src/utils/ansiUtils.ts:3-41 | Table entry `i` has foreground code 30+i, or 82+i in the bright half. Its background code is the foreground code plus 10. |
| `Palette.RangeCovered` | src/utils/ansiUtils.ts:3-41 | Every code in a channel's range belongs to some colour name, so each table is onto its range. |
| `Palette.FindCode` | src/utils/ansiUtils.ts:269-275 | The scan returns a listed name whose code is the one sought. It returns none only when no listed name has that code. |
| `Palette.NameForCode` | src/utils/ansiUtils.ts:266-276 | The inverse lookup returns a name whose table entry equals the code. It returns undefined exactly when the code is outside the chosen table's range. |
| `Palette.NameForCodeInverts` | src/utils/ansiUtils.ts:266-276 | For every colour and channel, looking up the colour's own code returns that colour. |
| `Palette.GetColorNameByCode` | src/utils/ansiUtils.ts:266-276 | The scanning loop with early return returns exactly the inverse lookup's answer: the name whose entry matches, or undefined for codes outside the range. |
| `Palette.GetAnsiClassForColor` | src/utils/ansiUtils.ts:279-282 | The marker is `ansi-` followed by decimal digits only. Reading those digits back gives the colour's code in the chosen table. |
| `Palette.EditorClassForColor` | src/components/ContentEditableEditor.tsx:71-92 | Each class of the editor's own table is `ansi-` followed by decimal digits only. |
| `Palette.EditorClassAgrees` | src/components/ContentEditableEditor.tsx:71-92 | The editor's own name-to-class table agrees with `getAnsiClassForColor` for all sixteen names and both channels. |
| `Palette.CssColor` | src/utils/ansiUtils.ts:150-167 | Every preview colour is `#` followed by six hexadecimal digits. |
| `Palette.CssColorSharedOnlyByWhites` | src/utils/ansiUtils.ts:150-167 | Two names have the same preview colour exactly when they are equal, or are white and bright white. |
| `Palette.HexKeysAreLowerCase` | src/utils/ansiUtils.ts:117-134 | Every key of the hex table is already lower-case, so case normalisation leaves it unchanged. |
| `Palette.HexToAnsiColor` | src/utils/ansiUtils.ts:115-147 | The intended lookup never answers bright white. It answers white unless the lower-cased input is a table key. |
| `Palette.HexKeyFound` | src/utils/ansiUtils.ts:115-141 | Each table key is found as written and in upper case, and gives its own entry. |
| `Palette.HexToAnsiColorMatches` | src/utils/ansiUtils.ts:115-147 | Any input whose lower-cased form is a table key gives that key's entry. An input whose lower-cased form is not a key gives white. |
| `Palette.HexToAnsiColorIgnoresCase` | src/utils/ansiUtils.ts:137-146 | Two inputs with the same lower-case form get the same answer. |
| `Palette.HexMixedCase` | src/utils/ansiUtils.ts:137-142 | `#Ff0000` gives red. |
| `Palette.HexTableInjective` | src/utils/ansiUtils.ts:117-134 | Distinct hex keys name distinct colours. |
| `Palette.HexLookupAsWritten` | src/utils/ansiUtils.ts:117-146 | The lookup on a plain object answers a non-colour exactly when the lower-cased input is `constructor` or `__proto__`. Otherwise it answers what `HexToAnsiColor` answers. |
| `Palette.HexLookupLeaksPrototype` | src/utils/ansiUtils.ts:137-141 | `constructor`, `CONSTRUCTOR` and `__proto__` reach an inherited property of the lookup object, where the intended lookup answers white. |
| `Styles.ApplyCode` | src/utils/ansiUtils.ts:224-239 | Only code 1 sets bold and only code 4 sets underline. Neither flag is ever cleared. A code outside a channel's range leaves that channel unchanged. |
| `Styles.ApplyColorCode` | src/utils/ansiUtils.ts:230-239 | Applying a colour's own foreground or background code sets that channel to the colour. No other attribute changes. |
| `Styles.ApplyCodeEffect` | src/utils/ansiUtils.ts:224-239 | Code 1 sets bold and code 4 sets underline. Every other style code sets exactly one channel to the colour with that code. Any code outside the system's set changes nothing. |
| `Composer.SgrParams` | src/utils/ansiUtils.ts:69-85 | The code list is empty exactly when no attribute is set. It has at most four entries, and every entry is a bold, underline or colour code. |
| `Composer.JoinParams` | src/utils/ansiUtils.ts:91 | The joined codes consist only of digits and `;`, and begin with the first code's leading digit. |
| `Composer.GenerateAnsiCode` | src/utils/ansiUtils.ts:63-92 | The result is the reset `ESC[0m` exactly when no attribute is set. It is always a well-formed `ESC [ digits-and-semicolons m` sequence. |
| `Composer.ParseJoinRoundTrip` | src/utils/ansiUtils.ts:91 | Reading a non-empty `;`-joined list of decimal codes back gives the list itself. |
| `Composer.ApplySgrParams` | src/utils/ansiUtils.ts:69-85 | Applying the composed codes in their fixed order to the default rendition rebuilds the original attributes. |
| `Composer.GenerateAnsiCodeParses` | src/utils/ansiUtils.ts:69-91 | The sequence's parameters are exactly the codes in the order bold(1), underline(4), foreground, background. With no attribute set they are the single code 0. |
| `Composer.GenerateAnsiCodeDecodes` | src/utils/ansiUtils.ts:63-92 | Decoding the composed sequence with ECMA-48 SGR semantics gives back exactly the attributes it was composed from. |
| `Composer.StripGenerated` | src/utils/ansiUtils.ts:63-92 | A composed sequence carries no visible text: removing SGR sequences deletes it completely. |
| `Composer.ExamplePlain` | src/utils/ansiUtils.ts:87-89 | No attribute gives `ESC[0m`. |
| `Composer.ExampleBold` | src/utils/ansiUtils.ts:71-73 | Bold alone gives `ESC[1m`. |
| `Composer.ExampleBoldRed` | src/utils/ansiUtils.ts:69-91 | Bold red gives `ESC[1;31m`, with bold before the colour. |
| `Composer.ExampleGreen` | src/utils/ansiUtils.ts:79-81 | Green foreground alone gives `ESC[32m`. |
| `FlatEncoder.Runs` | src/utils/ansiUtils.ts:98-106 | The per-segment codes and texts are empty exactly when there is no segment. |
| `FlatEncoder.RunsAppend` | src/utils/ansiUtils.ts:98-106 | Appending a segment appends its code and then its text to the encoding. |
| `FlatEncoder.SegmentsToAnsi` | src/utils/ansiUtils.ts:95-112 | The loop's result is each segment's code followed by its text, in order, then exactly one `ESC[0m`. Empty input gives `ESC[0m` alone, and the result always ends with the reset. |
| `FlatEncoder.FlatVisibleText` | src/utils/ansiUtils.ts:95-112 | For texts without an escape character: with the escape sequences removed, the encoding reads as the segments' texts in order. |
| `FlatEncoder.FlatRoundTrip` | src/utils/ansiUtils.ts:95-112 | For texts without an escape character: reading the encoding back gives every segment with its own text and style, then one empty default-styled segment from the trailing reset. |
| `FlatEncoder.BoldThenRedRuns` | src/utils/ansiUtils.ts:98-106 | A bold run followed by a red run is encoded as the two codes and texts, with no reset between them. |
| `FlatEncoder.CumulativeCarryOver` | src/utils/ansiUtils.ts:98-106 | The red code applied on top of the bold run's attributes leaves bold set. Applied to the default rendition it gives red alone. |
| `FlatEncoder.FlatExampleEmpty` | src/utils/ansiUtils.ts:108-111 | No segment gives `ESC[0m`. |
| `FlatEncoder.FlatExampleGreen` | src/utils/ansiUtils.ts:95-112 | One green segment `hi` gives `ESC[32mhi` followed by `ESC[0m`. |
| `FlatEncoder.FlatExamplePlainThenBold` | src/utils/ansiUtils.ts:95-112 | A plain `a` and then a bold `b` give `ESC[0ma`, `ESC[1mb` and `ESC[0m`. |
| `FlatEncoder.StyleDecls` | src/utils/ansiUtils.ts:171-187 | A style has at most four declarations. It has none exactly when no attribute is set. |
| `FlatEncoder.GenerateStyledSpan` | src/utils/ansiUtils.ts:170-190 | The span is `<span style="`, then the declarations joined by `; `, then `">`, the text verbatim and `</span>`. |
| `FlatEncoder.SpanMatchesEscapeCode` | src/utils/ansiUtils.ts:170-190 | A span's style attribute joins one declaration per code of the segment's escape sequence, order aside. |
| `FlatEncoder.Spans` | src/utils/ansiUtils.ts:194 | The joined spans are empty exactly when there is no segment. Otherwise they open with a styled span. |
| `FlatEncoder.SpansAppend` | src/utils/ansiUtils.ts:194 | Appending a segment appends its own span, so every segment's span appears once, in order. |
| `FlatEncoder.SegmentsToHtml` | src/utils/ansiUtils.ts:193-195 | The preview is the `&nbsp;` placeholder span exactly when the segment list is empty. Otherwise it is the segments' spans joined. |
| `FlatEncoder.DeclForColorCode` | src/utils/ansiUtils.ts:173-179 | A colour's own code maps to its `color:` or `background-color:` declaration with its CSS colour. |
| `FlatEncoder.DeclsOfParams` | src/utils/ansiUtils.ts:170-190 | The composed codes map to the bold, underline, foreground and background declarations, in the escape encoding's order. |
| `FlatEncoder.HtmlAnsiLockStep` | src/utils/ansiUtils.ts:170-190 | The preview's style declarations are, as a multiset, exactly one declaration per composed code. The two encodings therefore express the same attributes. |
| `TreeEncoder.ClassList` | src/utils/ansiUtils.ts:220 | The class list has no repeated class and holds exactly the tokens of the attribute. Its classes are in the order of their first occurrences among the tokens. |
| `TreeEncoder.ClassListKeepsFirst` | src/utils/ansiUtils.ts:220 | The tokens `ansi-31 ansi-32 ansi-31` give the class list `ansi-31`, `ansi-32`. |
| `TreeEncoder.RepeatedRedThenGreen` | src/utils/ansiUtils.ts:220-234 | With those tokens the foreground is green: the repeated red marker does not come last. |
| `TreeEncoder.MarkerCode` | src/utils/ansiUtils.ts:221-222 | A class carries a code only if it is longer than the `ansi-` prefix and starts with it. |
| `TreeEncoder.MarkerAfterNoBreakSpace` | src/utils/ansiUtils.ts:221-222 | `ansi-`, a no-break space, then `31` carries code 31, because `parseInt` skips the space. |
| `TreeEncoder.ApplyMarker` | src/utils/ansiUtils.ts:220-241 | A class that carries no code, or a code outside the system's set, changes nothing. |
| `TreeEncoder.EncodeNode` | src/utils/ansiUtils.ts:201-259 | A node's encoding is never shorter than its visible text. |
| `TreeEncoder.EncodeChildren` | src/utils/ansiUtils.ts:244-247 | The children's concatenated encodings are never shorter than their visible text. |
| `TreeEncoder.NodesToAnsi` | src/utils/ansiUtils.ts:198-263 | The recursive loop method equals `EncodeNode` for every node. The classes loop computes the element's attributes and the children loop concatenates the children's encodings. A styled element is wrapped in its code and `ESC[0m`. An unstyled element adds nothing. A text node yields its text and any other node yields `""`. |
| `TreeEncoder.ApplyMarkerChannel` | src/utils/ansiUtils.ts:220-241 | A class changes a channel only when it is that channel's colour marker. It sets bold or underline only when its code is 1 or 4. |
| `TreeEncoder.DecodedFlags` | src/utils/ansiUtils.ts:220-241 | Bold is set exactly when some class carries code 1, as `parseInt` reads its suffix. Underline is set exactly when some class carries code 4. |
| `TreeEncoder.DecodedChannelUnset` | src/utils/ansiUtils.ts:220-241 | A channel stays unset exactly when no class is a colour marker of that channel. |
| `TreeEncoder.LastMarkerWins` | src/utils/ansiUtils.ts:220-241 | With several colour markers for one channel, the last one in class order decides the colour. |
| `TreeEncoder.ColorMarkerRoundTrip` | src/utils/ansiUtils.ts:279-282 | Decoding the class that `getAnsiClassForColor` writes sets exactly that colour's channel to the colour. Nothing else changes. |
| `TreeEncoder.FormatMarkers` | src/components/ContentEditableEditor.tsx:53-58 | The editor's `ansi-1` and `ansi-4` classes set bold and underline respectively, and nothing else. |
| `TreeEncoder.UnmarkedElementIsTransparent` | src/utils/ansiUtils.ts:249-255 | An element none of whose classes carries a style code has no attributes. Its encoding is exactly its children's encodings, with no codes added. |
| `TreeEncoder.StyledElementFrame` | src/utils/ansiUtils.ts:249-253 | A styled element's output opens with one SGR sequence that decodes to exactly the element's own attributes. The children's encodings follow, then `ESC[0m`. |
| `TreeEncoder.NodeVisibleText` | src/utils/ansiUtils.ts:201-259 | For texts without an escape character: removing the escape sequences from a node's encoding leaves exactly its text content. |
| `TreeEncoder.ChildrenVisibleText` | src/utils/ansiUtils.ts:244-247 | For texts without an escape character, the same holds for the concatenated encodings of a list of children. |
| `TreeEncoder.VisibleText` | src/utils/ansiUtils.ts:198-263 | For texts without an escape character, the visible text of the whole output is the document's text content. No reset is added at the root. |
| `TreeEncoder.TreeExampleRed` | src/utils/ansiUtils.ts:249-253 | An element with class `ansi-31` around text `x` gives `ESC[31mx` followed by `ESC[0m`. |
| `TreeEncoder.TreeExampleUnstyled` | src/utils/ansiUtils.ts:254-255 | An unstyled element around texts `a` and `b` gives `ab`, with no codes. |
| `Decimal.NatToString` | src/utils/ansiUtils.ts:91 | A rendered code consists of digits only. It starts with `0` only for 0, and is one digit exactly below 10. |
| `Decimal.DigitsValueOfNatToString` | src/utils/ansiUtils.ts:91 | Reading a rendered code's digits gives the code back. |
| `Decimal.DigitRun` | src/utils/ansiUtils.ts:222 | The digit prefix is maximal: all digits, followed by a non-digit or the end. |
| `Decimal.WhitespaceRun` | src/utils/ansiUtils.ts:222 | The whitespace prefix that `parseInt` skips is maximal: all JavaScript whitespace, then a non-whitespace character or the end. |
| `Decimal.ParseIntPrefix` | src/utils/ansiUtils.ts:222 | Reading a class suffix gives no number exactly when no digit follows the leading whitespace and the optional sign. |
| `Decimal.ParseIntPrefixSkipsWhitespace` | src/utils/ansiUtils.ts:222 | Leading whitespace does not change what is read. |
| `Decimal.ParseIntPrefixAfterWhitespace` | src/utils/ansiUtils.ts:222 | A rendered code after any run of whitespace reads back as the code. |
| `Decimal.ParseIntPrefixOfNatToString` | src/utils/ansiUtils.ts:222 | Reading a rendered code gives the code, whatever non-digit text follows it. |

## Findings

| source | as written | input that shows it | evidently intended | confidence | as-written member | corrected member |
|---|---|---|---|---|---|---|
| src/utils/ansiUtils.ts:137-141 | The lower-cased colour is looked up on a plain object literal, and any truthy value found is returned. | `hexToAnsiColor("constructor")` returns the `Object` function, in any letter case. `hexToAnsiColor("__proto__")` returns `Object.prototype`. | Only the table's own keys match, and anything else gives `white`. | not executed | `Palette.HexLookupAsWritten`, `Palette.HexLookupLeaksPrototype` | `Palette.HexToAnsiColor`, `Palette.HexToAnsiColorMatches` |

## Left out

- The React components, clipboard writes, toasts and the live DOM editing in `handleFormat` are
  left out. They are user-interface code and browser I/O. The tree encoder takes an
  already-built node tree as its input.
- `parseInt` is modelled on class suffixes as leading JavaScript whitespace, an optional sign and
  the longest run of decimal digits. The whitespace is the set of section 7.1.4.1 of ECMA-262. A
  class token can hold non-ASCII whitespace such as a no-break space, because `classList` splits
  only on ASCII whitespace. Its `0x` hexadecimal prefix is not modelled, although `parseInt` is
  called without a radix and `ansi-0x1F` would read as 31. Precision loss of very long digit
  strings is not modelled either. No such string can equal one of the small codes.
- `toLowerCase` in `hexToAnsiColor` is modelled on ASCII letters only. No non-ASCII character
  lower-cases to `#`, a decimal digit, `a`–`f`, or a letter or `_`
  of `constructor` or `__proto__`, so lookups come out the same. The two inherited keys are under "Findings".
- `Palette.HexToAnsiColorMatches`: its second ensures (white for every input whose lower-cased form
  is not a key) is about the intended lookup. For `constructor` and `__proto__` the source
  returns an inherited property instead; `Palette.HexLookupAsWritten` models that.
- `FlatEncoder.FlatVisibleText`, `FlatEncoder.FlatRoundTrip`: both require texts without an
  escape character. The encoder copies a text's ESC through unchanged, so such a text would be
  read as the start of another sequence.
- `TreeEncoder.NodeVisibleText`, `TreeEncoder.ChildrenVisibleText`, `TreeEncoder.VisibleText`:
  the same restriction, for the same reason.
- `FlatEncoder.FlatRoundTrip`: `Composer.DecodeSgr` and `FlatEncoder.DecodeRuns` start every
  sequence from the default rendition. The source emits no reset between runs. So a terminal
  that applies each sequence to the attributes the previous one left carries a styled run's
  attributes into the next run (`FlatEncoder.BoldThenRedRuns`, `FlatEncoder.CumulativeCarryOver`). The round trip shows the
  encoding is lossless. It does not show that a cumulative renderer shows each run in its own
  style.
- Terminal rendering of nested styled elements is not modelled. A child's trailing reset also
  clears its parent's attributes for the text that follows. The model encodes exactly what the
  source emits, with no cascading of attributes.
- HTML escaping of segment text in the preview is not modelled, because the source does none.
  The text is inserted verbatim, as modelled.
- The "perceptual" colour matching mentioned in `hexToAnsiColor` is not implemented in the
  source and is not modelled.
- The SGR decoder (`Composer.DecodeSgr`), the run decoder (`FlatEncoder.DecodeRuns`) and
  `Composer.Strip` are reference definitions used to state round-trip and visible-text
  properties. The source has no decoder of its own.
