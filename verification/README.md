# CSS Auto Prefixer: a Dafny model of the text-analysis engine

CSS Auto Prefixer is an editor extension. Each time the caret moves in a CSS
or SCSS document, it does four things:

- It finds the `{ … }` block around the caret.
- It reads the property name just before the caret's colon and looks the
  name up in the `prefixes` setting.
- It reads that property's value from the block.
- It makes sure every configured vendor-prefixed copy (`-webkit-name`,
  `-moz-name`, …) carries the same value. An existing prefixed declaration
  gets its value overwritten. A missing one is appended to the block's last
  line.

The model treats a document as a sequence of lines (`seq<string>`, no line
terminators). Every step of that pass is a pure function over the lines,
written in the source's own terms:

| module | file | models |
|---|---|---|
| `JsString` | `js_string.dfy` | JavaScript built-ins the engine relies on: clamping and swapping `substring`, `indexOf`/`lastIndexOf` with `-1` on a miss, `trim` over the JavaScript white-space set, `join` |
| `Positions` | `positions.dfy` | `range_greater_than`, `lines_between_selection`, `value_between_selection` |
| `Patterns` | `patterns.dfy` | The two fixed regular expressions `get_token_value` and `set_token_values` build, as hand-written scanners proved equal to declarative definitions; `escape_regex` |
| `TokenValue` | `token_value.dfy` | `get_token_value`, `token_at_cursor` |
| `BlockValue` | `block_value.dfy` | Where the value `get_token_value` reads from the newline-joined block lies on the block's own lines |
| `BlockLocator` | `block_locator.dfy` | `in_between`, `get_range`, `make_range` |
| `Planner` | `planner.dfy` | `set_token_values` and its indentation heuristic |
| `Prefixer` | `prefixer.dfy` | The body of `update`: its guards, the prefixed pairs, and the shift of block-relative edit positions to document positions |

## Regular expressions

Only the match start positions of the two fixed patterns matter. The source
looks a matched string up again with `indexOf`. Both patterns match the same
text wherever it occurs, except at `^`, which only matches at index 0, so the
first occurrence of the matched text is the leftmost match. Each pattern
therefore gets three parts:

- a declarative `ghost predicate` saying "a match starts at `p`":
  `DeclMatchAt` for `(^|\{|\}|[ \r\t\n]+|;)TOKEN[ \t\r]*:` and `TerminatorAt`
  for `[\w\-]+\W*\:|;|[\n\r]`;
- a scanner that decides it;
- a lemma proving the two equal.

The token is spliced into the pattern through `escape_regex`. Every character
that function escapes is then matched literally. So the model matches the
token as a literal string, and `EscapeRoundTrip` shows the escaping loses
nothing.

## Behaviour kept as the code has it

- `get_range` passes the indentation string it collected as the `same_line`
  argument of `make_range` (extension.js:382). `BlockRange.sameLine` is
  therefore a `JsFlag`, either a boolean or a string. It is `true` only on
  the same-line early return.
- When the downward scan reaches the end of the document, the block's end
  is (line count, length of the last line) (extension.js:376-377). Reading
  that block then asks the host for a line past the last one, which fails.
  `PlanUpdate` reports this as `BlockRunsOffDocument`.
- `token_at_cursor` keeps blanks between the name and the colon. `color :`
  yields `color `.
- The indentation of an appended declaration is the last run of spaces and
  tabs on the block's last line, wherever it sits on that line. It is not
  the line's leading white space (extension.js:238-239).
- An empty prefix list is a configured property, because an empty array is
  truthy. The pass then applies zero edits. It does not skip.
- A caret that follows no colon makes `token_at_cursor` return `null`.
  `escape_regex(null)` then throws. The model reports this as
  `NoTokenAtCursor`.

## Model

| member | source | states |
|---|---|---|
| JsString.Substring | extension.js:136-138 | `substring` clamps both bounds into the string and swaps them when reversed; the result is the slice between the clamped bounds |
| JsString.SubstringSymmetric | extension.js:128-138 | swapping the two bounds of `substring` gives the same string |
| JsString.IndexOf | extension.js:190-191 | `-1` exactly when the needle occurs nowhere; otherwise an occurrence with no earlier one |
| JsString.LastIndexOf | extension.js:323-324 | `-1` exactly when the needle occurs nowhere; otherwise an occurrence with no later one |
| JsString.Trim | extension.js:247 | the result is a slice of the input with only white space before and after it, starts and ends with a non-space, and is empty exactly when the input is all white space |
| JsString.LeadingSpaceLength | extension.js:340 | the length of the longest all-white-space prefix, i.e. the first non-white-space index |
| Positions.GreaterThanIsStrictTotalOrder | extension.js:117-122 | `range_greater_than` (`Positions.GreaterThan`) is irreflexive, asymmetric, total on distinct positions and transitive |
| Positions.Ordered | extension.js:125-131 | the selection with its earlier position first: the same two positions, the start not after the end |
| Positions.LinesBetween | extension.js:124-155 | one piece per line from the earlier to the later position, with consecutive line numbers; the first piece starts at the clamped start character, the last ends at the clamped end character, the ones between are whole lines; a one-line span is the clamped slice |
| Positions.SliceIgnoresDirection | extension.js:124-182 | swapping a selection's start and end changes neither the pieces nor the joined value |
| Positions.ValueIsJoinedLines | extension.js:157-182 | `value_between_selection` (`Positions.ValueBetween`) is the texts of `lines_between_selection` joined with `"\n"` |
| Positions.ValueFromIsJoin | extension.js:171-181 | the loop that collects and joins line texts produces the joined piece texts from any line on |
| Patterns.DeclScanMeaning | extension.js:186 | the scanner accepts at `p` exactly when the declaration pattern (start of text, a brace, a run of line breaks and blanks, or `;`, then the token, blanks, a colon) matches at `p` |
| Patterns.BlanksThenColonMeaning | extension.js:186 | the `[ \t\r]*:` tail scanner accepts exactly when a colon follows only blanks |
| Patterns.BreakRunThenTokenMeaning | extension.js:186 | the rest of the white-space-run alternative after its first character, `[ \r\t\n]*TOKEN[ \t\r]*:`, accepts exactly when a possibly empty run of line breaks and blanks is followed by the token, blanks and a colon |
| Patterns.FirstDecl | extension.js:187-189 | none exactly when the pattern matches nowhere in the text; otherwise the leftmost match position |
| Patterns.TerminatorScanMeaning | extension.js:193 | the scanner accepts at `q` exactly when the terminator pattern (`;`, a line break, or word characters and dashes, non-word characters, a colon) matches at `q` |
| Patterns.WordsThenColonMeaning | extension.js:193 | the rest of the `[\w\-]+\W*\:` alternative after its first character, `[\w\-]*\W*:`, accepts exactly when a possibly empty run of word characters and dashes, then non-word characters, reaches a colon |
| Patterns.NonWordThenColonMeaning | extension.js:193 | the `\W*\:` scanner accepts exactly when a colon follows only non-word characters |
| Patterns.FirstTerminatorFrom | extension.js:193 | the leftmost position at or after `q` where the terminator pattern matches, or none when it matches nowhere there |
| Patterns.EscapeRegex | extension.js:301-303 | every special character (including every white-space character) is preceded by a backslash and every other character is kept; the length grows by the number of special characters |
| Patterns.EscapeRoundTrip | extension.js:301-303 | removing the escapes gives back the original text |
| TokenValue.ValueOffset | extension.js:184-191 | none exactly when the declaration pattern matches nowhere; otherwise the index just past the first colon after the leftmost match |
| TokenValue.ReadValue | extension.js:184-201 | none exactly when no declaration of the token occurs; otherwise the longest text after that colon in which no terminator match starts, free of `;`, `\n` and `\r` |
| TokenValue.ValueRunsToEndWithoutTerminator | extension.js:194-196 | with no terminator after the colon, the value runs to the end of the text |
| TokenValue.GetTokenValue | extension.js:184-201 | `get_token_value` over the block text: null exactly when the block declares no such token; the value holds no `;`, `\n` or `\r` |
| TokenValue.TokenAtCursor | extension.js:278-299 | null exactly when no colon lies left of the caret; otherwise the text that ends right before the last such colon, stopped by a delimiter or by a blank left of a non-blank, with no `;`, `{` or `}` and no blank followed by a non-blank |
| TokenValue.WalkLeft | extension.js:287-296 | the leftward walk ends where the next character left is a delimiter, or a blank once a non-blank was passed, or at the line start |
| BlockLocator.InBetween | extension.js:395-414 | `after_start` exactly when the text left of the caret has `a` with no `b` after its last `a`; `before_end` exactly when the text right of it has `b` before any `a`; `between` is their disjunction; `start` and `end` locate those delimiters, and otherwise fall back to the last `b` left of the caret (or 0) and the first `a` right of it (or the line's end) |
| BlockLocator.MakeRange | extension.js:385-393 | keeps value and positions; a falsy `same_line` becomes `false`, a truthy one is kept |
| BlockLocator.ScanUp | extension.js:320-346 | (through `IsUpScan`) the upward scan sets `no_beginning` exactly when the first deciding line above holds a `}` before the caret; finds no start exactly when no line decides; otherwise the start is on the first deciding line at or above the caret, just past its last `{` when that line opens and past its last `}` when it closes; the indentation it keeps is white space only |
| BlockLocator.ScanDown | extension.js:348-377 | the downward scan sets `no_end` exactly when the first deciding line below holds a `{` after the caret; finds no end exactly when no line decides; otherwise the end is on the first deciding line at or below the caret, at its first `}` when that line closes and at its first `{` when it opens |
| BlockLocator.NoBeginningStep | extension.js:320-346 | a line the upward scan passes does not change whether it finds no beginning |
| BlockLocator.NoEndStep | extension.js:348-377 | a line the downward scan passes does not change whether it finds no end |
| BlockLocator.SameLineRange | extension.js:314-315 | the early return: both ends on the caret line, just past the `{` and at the `}` that `in_between` found, the value being the text between them, `same_line` true |
| BlockLocator.ScannedRange | extension.js:317-382 | false exactly when both scans report the caret outside a block; otherwise start line ≤ caret line ≤ end line, the start where the upward scan stops and the end where the downward scan stops (`ScannedStart`, `ScannedEnd`), (0, 0) and (line count, last line length) as fallbacks, `same_line` a string of white space only and never true |
| BlockLocator.GetRange | extension.js:305-383 | false exactly when the caret has no braces around it on its line and both `no_beginning` and `no_end` are set; otherwise start line ≤ caret line ≤ end line; between braces of its own line the result is exactly `SameLineRange` (the braces `in_between` picks, the text between them as value, `same_line` true), and otherwise exactly `ScannedRange`, with its scanned start and end |
| Planner.Indentation | extension.js:238-239 | the last maximal run of spaces and tabs on the line, or a tab when there is none |
| Planner.PlanPairFromIsPlanned | extension.js:208-272 | the inner loop yields exactly one edit: a replacement on the first declaring line when the block has a value, else an insertion on the last line |
| Planner.SetTokenValues | extension.js:203-276 | one edit per pair in pair order; each replaces, on the first line declaring the pair's token, as many characters after the colon as the block's value has, by the pair's value, when the block has a value and such a line exists; otherwise each appends `indent + token + ":" + value + ";"` and a line break (blank last line) or a space at the end of the last line |
| Planner.TrimEmptyIffBlank | extension.js:247 | a line trims to the empty string exactly when it is all white space |
| Prefixer.PrefixedPairs | extension.js:57-62 | one pair per prefix in order, each token `-` + prefix + `-` + name, all carrying the same value |
| Prefixer.PrefixedNameInjective | extension.js:59 | two prefixes give the same prefixed name only when they are equal |
| Prefixer.PrefixedPairsDistinct | extension.js:57-62 | the pairs' tokens are pairwise different exactly when the prefixes are |
| Prefixer.TranslateEdit | extension.js:70-90 | keeps the edit's kind, text and lines; adds the block's start character to a character position exactly when that position is on the block's first line |
| Prefixer.PieceAddressesDocument | extension.js:70-90 | a character position inside a block piece, shifted, holds the same character in the document |
| Prefixer.ReplacementFollowsColon | extension.js:70-90 | a shifted replacement starts right after a colon in the document and is as wide as the block's current value |
| Prefixer.ReplacedTextIsBlockValue | extension.js:184-226 | a planned replacement, once shifted, covers on one document line exactly the text `get_token_value` reads for the pair's property from the whole block |
| Prefixer.DeclaringLineHoldsBlockValue | extension.js:184-222 | the value read from the whole block is the slice of the first declaring line's piece that starts at that piece's own value offset |
| BlockValue.FirstDeclaringPartHoldsValue | extension.js:184-199 | the value read from newline-joined parts is a slice of the first part that declares the property, starting at that part's own value offset |
| BlockValue.JoinedValueOffset | extension.js:184-191 | the value offset in the joined parts is the first declaring part's own offset, moved by where that part starts |
| BlockValue.HeadValueOffset | extension.js:184-191 | a declaring first part keeps its value offset when a line break and more text follow |
| BlockValue.TailValueOffset | extension.js:184-191 | after a first part that does not declare the property, the value offset is the rest's, moved past that part and the line break |
| BlockValue.JoinedMatchBeforeBreak | extension.js:186 | a declaration match in `a + "\n" + b` starting at or before the break is a match of `a`, or a run of breaks and blanks reaching a match at the start of `b` |
| BlockValue.DeclMatchShiftLeft | extension.js:186 | a declaration match inside the second of two joined texts is a match of that text alone |
| BlockValue.DeclMatchShiftRight | extension.js:186 | a declaration match of a text stays one after text is put in front, unless it relied on the start of text |
| BlockValue.ValueOffsetIs | extension.js:184-191 | the leftmost declaration and the first colon after it determine the value offset |
| BlockValue.ValueStaysInPart | extension.js:193-199 | the value read from inside a part that ends in a line break stays inside that part |
| Prefixer.InsertionAtBlockEnd | extension.js:70-77 | a shifted insertion lands at the block's end position, clamped to its line |
| Prefixer.PlanEdits | extension.js:50-90 | one document edit per configured prefix, each the planned edit for the prefixed pair, shifted |
| Prefixer.PieceSlice | extension.js:142-152 | each piece of a forward block is its document line cut from the block's start character on the first line and from the line start elsewhere |
| Prefixer.PlanAtCaret | extension.js:47-65 | skips for a missing block exactly when `get_range` is false; for a block past the last line exactly when the block ends off the document; for a caret after no colon exactly when the block is in the document and no colon lies left of the caret; for an unconfigured name exactly when the block is in the document and the caret token is not configured; applies exactly when the block is in the document and the caret token is configured, with one shifted planned edit per configured prefix |
| Prefixer.PlanUpdate | extension.js:38-90 | skips an empty document exactly when it is one empty line; skips for the guard flag, the setting or the language exactly when one fails; once those pass, skips for a non-empty selection exactly when the selection is not empty, and then for a comment exactly when the caret is inside one; applies only when the selection is empty, the caret is outside a comment, the block exists and ends on a real line, and the caret token is configured, with one edit per prefix |
| Prefixer.EmptyText | extension.js:38 | the document text is empty exactly when the document is one empty line |

## Left out

- Host plumbing is not modelled: `activate`, `deactivate`, loading and
  reloading the settings, and event subscription (extension.js:13-30). The
  settings and the guard flag are the `Context` parameter of `PlanUpdate`.
- Applying the edits is not modelled: the asynchronous `editor.edit`, its
  undo-stop options, the caret reset and the clearing of the guard flag
  (extension.js:64-99). The same goes for the `console.error` logging. The
  model stops at the list of document edits handed to the editor.
- The `dontUpdate` flag is an input (`Context.busy`). Its role in ordering
  concurrent events is not modelled.
- `extension.js:377` builds the end-of-document position with a two-argument
  `Selection` call. The host's constructor is not part of this model. Either
  way, the pass makes no edit for such a block.
- The raw block text that `get_range` accumulates is computed but not
  constrained by a contract. Nothing downstream reads it. The cut
  `raw.length - newStuff.length` at extension.js:357 and 365 does not count
  the `"\n"` appended after the caret line's text (extension.js:328, 333,
  338), so when the upward scan kept the whole caret line, the cut keeps
  that line's first character.
- Characters are Unicode scalar values. JavaScript strings are UTF-16 code
  units, so characters outside the Basic Multilingual Plane are counted
  differently.
- Documents with `\r\n` line ends are modelled by their lines. The whole
  text is only used to test for emptiness, and the two agree on that.
- Settings whose keys coincide with inherited object properties (such as
  `constructor`) are not modelled. `prefixes` is a finite map, and a
  configured value is a list of strings.
- Prefixer.TranslateEdit: for a block whose start comes after its end
  (possible when the caret line has a `{` after the caret and no `{` before
  it), the source shifts by the range's start while the block is sliced
  from its earlier end. The document-address lemmas therefore require a
  forward block.
- Prefixer.ReplacedTextIsBlockValue: requires the prefixed property name
  to hold no line break. A name with one could match the declaration
  pattern across two lines of the block, which no single line's reading
  can see. Property names come from one line of the document and from the
  `prefixes` setting, and nothing in the model rules out a line break in a
  configured prefix.
- BlockLocator.IsUpScan: says only that the indentation string handed to
  `make_range` as `same_line` is white space, not which line it comes from
  (the leading white space of the first line passed on the way up that has
  any). Nothing downstream reads it.
- Running the pass again on its own output (idempotence) is not stated. It
  depends on how the editor applies overlapping edits, which is host
  behaviour.
- The `languageId` test is modelled as an ASCII case-insensitive comparison
  with `css` and `scss`.
