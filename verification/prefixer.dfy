/** The update pass (`Prefixer().update`): the guards that decide whether a
    caret move leads to edits, the prefixed declarations built for the
    property at the caret, and the translation of block-relative edit
    positions into document positions. */
module Prefixer {
  import opened JsString
  import opened Positions
  import opened TokenValue
  import opened BlockLocator
  import opened Planner
  import opened BlockValue
  import opened Patterns

  // ---------------------------------------------------------------------
  // Prefixed declarations

  /** `'-' + prefix + '-' + name`: the vendor-prefixed property name. */
  function PrefixedName(prefix: string, name: string): string {
    "-" + prefix + "-" + name
  }

  /** Different prefixes give different names for the same property, and the
      prefix can be read back from the name. */
  lemma PrefixedNameInjective(p: string, q: string, name: string)
    ensures PrefixedName(p, name) == PrefixedName(q, name) <==> p == q
  {
    if PrefixedName(p, name) == PrefixedName(q, name) {
      var s := PrefixedName(p, name);
      assert |p| == |q|;
      assert p == s[1..|p| + 1];
      assert q == s[1..|q| + 1];
    }
  }

  /** The modifications list: one pair per configured prefix, in order, each
      naming the prefixed property and carrying the value the block has for
      the unprefixed one. */
  function PrefixedPairs(prefixes: seq<string>, name: string, value: string): (r: seq<Pair>)
    ensures |r| == |prefixes|
    ensures forall i :: 0 <= i < |r| ==> r[i].value == value
    ensures forall i :: 0 <= i < |r| ==>
              && |r[i].token| == |prefixes[i]| + |name| + 2
              && r[i].token[..|prefixes[i]| + 2] == "-" + prefixes[i] + "-"
              && r[i].token[|prefixes[i]| + 2..] == name
  {
    seq(|prefixes|, i requires 0 <= i < |prefixes| => Pair(PrefixedName(prefixes[i], name), value))
  }

  /** The pairs name pairwise different properties exactly when the
      configured prefixes are pairwise different. */
  lemma PrefixedPairsDistinct(prefixes: seq<string>, name: string, value: string)
    ensures var r := PrefixedPairs(prefixes, name, value);
      (forall i, j :: 0 <= i < j < |r| ==> r[i].token != r[j].token) <==>
      (forall i, j :: 0 <= i < j < |prefixes| ==> prefixes[i] != prefixes[j])
  {
    var r := PrefixedPairs(prefixes, name, value);
    forall i, j | 0 <= i < j < |r|
      ensures r[i].token == r[j].token <==> prefixes[i] == prefixes[j]
    {
      PrefixedNameInjective(prefixes[i], prefixes[j], name);
    }
  }

  // ---------------------------------------------------------------------
  // From block-relative to document positions

  /** A position counted from the block's start: on the block's first line
      characters are counted from `base`'s character, on later lines from
      the start of the line. */
  function Shift(p: Position, base: Position): Position {
    if p.line == base.line then Position(p.line, p.character + base.character) else p
  }

  /** The edit as handed to the editor: its kind, text and lines unchanged,
      and each of its positions moved right by the block's start character
      when it lies on the block's first line, kept as is on any other line. */
  function TranslateEdit(e: Edit, base: Position): (r: Edit)
    ensures r.Insert? == e.Insert? && r.value == e.value
    ensures r.start.line == e.start.line
    ensures r.start.character == e.start.character + (if e.start.line == base.line then base.character else 0)
    ensures r.Replace? ==> r.end.line == e.end.line
    ensures r.Replace? ==>
      r.end.character == e.end.character + (if e.end.line == base.line then base.character else 0)
  {
    match e
    case Insert(s, v) => Insert(Shift(s, base), v)
    case Replace(s, t, v) => Replace(Shift(s, base), Shift(t, base), v)
  }

  /** The span of a block as `get_range` returns it: its start comes no
      later than its end and lies on an existing line, within it. */
  predicate IsForwardSpan(sel: Selection, doc: Document) {
    && InDocument(sel, doc)
    && !GreaterThan(sel.start, sel.end)
    && sel.start.character <= |doc[sel.start.line]|
  }

  /** Shifting a position inside a piece of a forward span by the span's
      start yields a document position that holds the same character, and
      the position just past a piece stays within its line. */
  lemma PieceAddressesDocument(sel: Selection, doc: Document, i: nat, k: nat)
    requires IsForwardSpan(sel, doc)
    requires i < |LinesBetween(sel, doc)| && k <= |LinesBetween(sel, doc)[i].text|
    ensures var piece := LinesBetween(sel, doc)[i];
      var p := Shift(Position(piece.line, k), sel.start);
      && p.line == piece.line < |doc|
      && p.character <= |doc[p.line]|
      && (k < |piece.text| ==> doc[p.line][p.character] == piece.text[k])
  {
    var piece := LinesBetween(sel, doc)[i];
    var a, b := PieceSlice(sel, doc, i);
    SliceAddress(doc[piece.line], a, b, piece.text, k);
    assert Shift(Position(piece.line, k), sel.start) == Position(piece.line, a + k);
  }

  /** Each piece of a forward span is a slice of its document line that
      starts at the span's start character on the span's first line and at
      the line start on every other line. */
  lemma PieceSlice(sel: Selection, doc: Document, i: nat) returns (a: nat, b: nat)
    requires IsForwardSpan(sel, doc)
    requires i < |LinesBetween(sel, doc)|
    ensures var piece := LinesBetween(sel, doc)[i];
      && sel.start.line <= piece.line < |doc|
      && a <= b <= |doc[piece.line]| && piece.text == doc[piece.line][a..b]
      && a == (if piece.line == sel.start.line then sel.start.character else 0)
  {
    assert Ordered(sel) == sel;
    var pieces := LinesBetween(sel, doc);
    var t := doc[pieces[i].line];
    if i == 0 {
      a := sel.start.character;
      b := if sel.start.line == sel.end.line then Clamp(sel.end.character, |t|) else |t|;
    } else {
      a := 0;
      b := if i == |pieces| - 1 then Clamp(sel.end.character, |t|) else |t|;
    }
  }

  /** Index `k` of a slice starting at `a` is index `a + k` of the line. */
  lemma SliceAddress(line: string, a: nat, b: nat, text: string, k: nat)
    requires a <= b <= |line| && text == line[a..b] && k <= |text|
    ensures a + k <= |line|
    ensures k < |text| ==> line[a + k] == text[k]
  {
  }

  /** A planned replacement, once shifted, starts in the document right
      after the colon of the declaration it rewrites, and spans as many
      characters on that line as the block's current value. */
  lemma ReplacementFollowsColon(sel: Selection, doc: Document, i: nat, existing: string, pair: Pair, e: Edit)
    requires IsForwardSpan(sel, doc)
    requires i < |LinesBetween(sel, doc)|
    requires IsValueReplacement(LinesBetween(sel, doc)[i], existing, pair, e)
    ensures var t := TranslateEdit(e, sel.start);
      && t.Replace?
      && t.start.line == t.end.line < |doc|
      && 0 < t.start.character <= |doc[t.start.line]|
      && doc[t.start.line][t.start.character - 1] == ':'
      && t.end.character == t.start.character + |existing|
  {
    var a, b := PieceSlice(sel, doc, i);
    ReplacementInPieceFollowsColon(doc, LinesBetween(sel, doc)[i], a, b, sel.start, existing, pair, e);
  }

  /** The same, for a replacement planned on one piece cut out of its
      document line from index `a`. */
  lemma ReplacementInPieceFollowsColon(doc: Document, piece: LinePiece, a: nat, b: nat, base: Position,
                                       existing: string, pair: Pair, e: Edit)
    requires piece.line < |doc| && a <= b <= |doc[piece.line]| && piece.text == doc[piece.line][a..b]
    requires a == (if piece.line == base.line then base.character else 0)
    requires IsValueReplacement(piece, existing, pair, e)
    ensures var t := TranslateEdit(e, base);
      && t.Replace?
      && t.start.line == t.end.line < |doc|
      && 0 < t.start.character <= |doc[t.start.line]|
      && doc[t.start.line][t.start.character - 1] == ':'
      && t.end.character == t.start.character + |existing|
  {
    var offset := ValueOffset(piece.text, pair.token).value;
    ValueOffsetFollowsColon(piece.text, pair.token);
    ShiftedReplacement(doc[piece.line], a, b, piece, base, offset, existing, e);
  }

  /** The value offset sits just past a colon of the text. */
  lemma ValueOffsetFollowsColon(text: string, token: string)
    requires ValueOffset(text, token).Some?
    ensures var offset := ValueOffset(text, token).value;
      0 < offset <= |text| && text[offset - 1] == ':'
  {
  }

  /** The same, for one piece cut out of `line` from index `a`. */
  lemma ShiftedReplacement(line: string, a: nat, b: nat, piece: LinePiece, base: Position,
                           offset: nat, existing: string, e: Edit)
    requires a <= b <= |line| && piece.text == line[a..b]
    requires a == (if piece.line == base.line then base.character else 0)
    requires 0 < offset <= |piece.text| && piece.text[offset - 1] == ':'
    requires e.Replace? && e.start == Position(piece.line, offset)
    requires e.end == Position(piece.line, offset + |existing|)
    ensures var t := TranslateEdit(e, base);
      && t.Replace?
      && t.start.line == t.end.line == piece.line
      && 0 < t.start.character <= |line|
      && line[t.start.character - 1] == ':'
      && t.end.character == t.start.character + |existing|
  {
    SliceAddress(line, a, b, piece.text, offset - 1);
  }

  /** A planned insertion, once shifted, lands at the end of the block:
      on the block's last line, at its end character clamped to the line. */
  lemma InsertionAtBlockEnd(sel: Selection, doc: Document, pair: Pair, e: Edit)
    requires IsForwardSpan(sel, doc)
    requires IsAppendedDeclaration(LinesBetween(sel, doc)[|LinesBetween(sel, doc)| - 1], pair, e)
    ensures TranslateEdit(e, sel.start).start
            == Position(sel.end.line, Clamp(sel.end.character, |doc[sel.end.line]|))
  {
    assert Ordered(sel) == sel;
  }

  /** `get_token_value` over a span reads the span's pieces joined with
      line breaks. */
  lemma TokenValueOfPieces(sel: Selection, doc: Document, token: string, lines: seq<LinePiece>)
    requires InDocument(sel, doc) && lines == LinesBetween(sel, doc)
    ensures GetTokenValue(sel, doc, token) == ReadValue(Join(Texts(lines), "\n"), token)
  {
    ValueIsJoinedLines(sel, doc);
  }

  /** On the first piece that declares `token`, the value `v` the joined
      pieces hold for `token` is the slice of that piece right after its own
      value offset `o`. */
  lemma FirstDeclaringPieceHoldsValue(lines: seq<LinePiece>, token: string, i: nat, j: string)
    returns (o: nat, v: string)
    requires NoLineBreak(token) && FirstDeclaringLine(lines, 0, i, token)
    requires j == Join(Texts(lines), "\n")
    ensures ValueOffset(lines[i].text, token) == Some(o) && ReadValue(j, token) == Some(v)
    ensures o + |v| <= |lines[i].text| && v == lines[i].text[o..o + |v|]
  {
    var parts := Texts(lines);
    assert forall k :: 0 <= k < i ==> !Declares(parts[k], token);
    o, v := FirstDeclaringPartHoldsValue(parts, token, i, j);
  }

  /** On the first line of the span that declares `token`, the span's value
      `v` for `token` is the slice of that line's piece right after the
      piece's own value offset `o`. */
  lemma DeclaringLineHoldsBlockValue(sel: Selection, doc: Document, token: string, i: nat, lines: seq<LinePiece>)
    returns (o: nat, v: string)
    requires InDocument(sel, doc) && NoLineBreak(token)
    requires lines == LinesBetween(sel, doc) && FirstDeclaringLine(lines, 0, i, token)
    ensures ValueOffset(lines[i].text, token) == Some(o) && GetTokenValue(sel, doc, token) == Some(v)
    ensures o + |v| <= |lines[i].text| && v == lines[i].text[o..o + |v|]
  {
    TokenValueOfPieces(sel, doc, token, lines);
    o, v := FirstDeclaringPieceHoldsValue(lines, token, i, Join(Texts(lines), "\n"));
  }

  /** A replacement of `existing`, found at `offset` of a piece cut out of
      `line` from index `a`, overwrites that same text of the line once
      shifted. */
  lemma ShiftedSlice(line: string, a: nat, b: nat, piece: LinePiece, base: Position,
                     offset: nat, existing: string, value: string, e: Edit)
    requires a <= b <= |line| && piece.text == line[a..b]
    requires a == (if piece.line == base.line then base.character else 0)
    requires offset + |existing| <= |piece.text| && existing == piece.text[offset..offset + |existing|]
    requires e == Replace(Position(piece.line, offset), Position(piece.line, offset + |existing|), value)
    ensures var t := TranslateEdit(e, base);
      && t.start.line == t.end.line == piece.line
      && t.start.character <= t.end.character <= |line|
      && line[t.start.character..t.end.character] == existing
  {
    var slice := line[a + offset..a + offset + |existing|];
    forall m | 0 <= m < |existing|
      ensures slice[m] == existing[m]
    {
      assert existing[m] == piece.text[offset + m];
      assert line[a..b][offset + m] == line[a + offset + m] == slice[m];
    }
    assert slice == existing;
  }

  /** The replacement a shifted plan makes comes from the first line `i` of
      the block that declares the pair's property, with the block's value
      `current` as the text it overwrites. */
  lemma PlannedReplacement(doc: Document, brackets: Selection, pair: Pair, t: Edit, lines: seq<LinePiece>)
    returns (e: Edit, i: nat, current: string)
    requires InDocument(brackets, doc) && lines == LinesBetween(brackets, doc)
    requires IsShiftedPlan(doc, brackets, brackets.start, pair, t) && t.Replace?
    ensures t == TranslateEdit(e, brackets.start)
    ensures FirstDeclaringLine(lines, 0, i, pair.token)
    ensures GetTokenValue(brackets, doc, pair.token) == Some(current)
    ensures IsValueReplacement(lines[i], current, pair, e)
  {
    var value := GetTokenValue(brackets, doc, pair.token);
    e :| IsPlannedEdit(lines, 0, value, pair, e) && t == TranslateEdit(e, brackets.start);
    assert e.Replace?;
    current := value.value;
    i :| FirstDeclaringLine(lines, 0, i, pair.token) && IsValueReplacement(lines[i], current, pair, e);
  }

  /** A value replacement on a piece whose value offset is `o` starts at
      `o` and spans the existing text. */
  lemma ValueReplacementAt(piece: LinePiece, existing: string, pair: Pair, e: Edit, o: nat)
    requires IsValueReplacement(piece, existing, pair, e) && ValueOffset(piece.text, pair.token) == Some(o)
    ensures e == Replace(Position(piece.line, o), Position(piece.line, o + |existing|), pair.value)
  {
  }

  /** A replacement of the text `current` found at offset `o` of piece `i`
      of a forward span overwrites that same text of the document once
      shifted by the span's start. */
  lemma ReplacementSlice(doc: Document, sel: Selection, lines: seq<LinePiece>, i: nat,
                         o: nat, current: string, value: string, e: Edit)
    requires IsForwardSpan(sel, doc) && lines == LinesBetween(sel, doc) && i < |lines|
    requires o + |current| <= |lines[i].text| && current == lines[i].text[o..o + |current|]
    requires e == Replace(Position(lines[i].line, o), Position(lines[i].line, o + |current|), value)
    ensures var t := TranslateEdit(e, sel.start);
      && t.start.line == t.end.line < |doc|
      && t.start.character <= t.end.character <= |doc[t.start.line]|
      && doc[t.start.line][t.start.character..t.end.character] == current
  {
    var a, b := PieceSlice(sel, doc, i);
    ShiftedSlice(doc[lines[i].line], a, b, lines[i], sel.start, o, current, value, e);
  }

  /** `ReplacedTextIsBlockValue` with the block's pieces `lines` and its
      value `value` named. */
  lemma ReplacedTextIsValue(doc: Document, brackets: Selection, pair: Pair, t: Edit,
                            lines: seq<LinePiece>, value: Option<string>)
    requires IsForwardSpan(brackets, doc) && NoLineBreak(pair.token)
    requires IsShiftedPlan(doc, brackets, brackets.start, pair, t) && t.Replace?
    requires lines == LinesBetween(brackets, doc) && value == GetTokenValue(brackets, doc, pair.token)
    ensures && value.Some? && t.start.line == t.end.line < |doc|
      && t.start.character <= t.end.character <= |doc[t.start.line]|
      && doc[t.start.line][t.start.character..t.end.character] == value.value
  {
    var e, i, current := PlannedReplacement(doc, brackets, pair, t, lines);
    var o, v := DeclaringLineHoldsBlockValue(brackets, doc, pair.token, i, lines);
    assert v == current;
    ValueReplacementAt(lines[i], current, pair, e, o);
    ReplacementSlice(doc, brackets, lines, i, o, v, pair.value, e);
  }

  /** A planned replacement, once shifted, overwrites exactly the block's
      current value for the pair's property: the document text between its
      two positions is what `get_token_value` reads from the whole block. */
  lemma ReplacedTextIsBlockValue(doc: Document, brackets: Selection, pair: Pair, t: Edit)
    requires IsForwardSpan(brackets, doc) && NoLineBreak(pair.token)
    requires IsShiftedPlan(doc, brackets, brackets.start, pair, t) && t.Replace?
    ensures var v := GetTokenValue(brackets, doc, pair.token);
      && v.Some? && t.start.line == t.end.line < |doc|
      && t.start.character <= t.end.character <= |doc[t.start.line]|
      && doc[t.start.line][t.start.character..t.end.character] == v.value
  {
    ReplacedTextIsValue(doc, brackets, pair, t, LinesBetween(brackets, doc), GetTokenValue(brackets, doc, pair.token));
  }

  // ---------------------------------------------------------------------
  // The update pass

  /** The settings and state the pass reads: the re-entrancy flag set while
      an edit is in flight, the `enabled` setting, the editor's language id,
      and the `prefixes` setting (property name to list of vendor prefixes). */
  datatype Context = Context(busy: bool, enabled: bool, languageId: string, prefixes: map<string, seq<string>>)

  /** Why a pass makes no edit. */
  datatype Reason =
    | EmptyDocument
    | Inactive
    | SelectionNotEmpty
    | InsideComment
    | NoEnclosingBlock
    | BlockRunsOffDocument
    | NoTokenAtCursor
    | UnconfiguredToken

  /** What a pass does: nothing, for a reason, or the edits in document
      positions, in the order they are handed to the editor. */
  datatype Outcome = Skipped(reason: Reason) | Apply(edits: seq<Edit>)

  /** ASCII upper case to lower case; every other character is unchanged
      (a case-insensitive regular expression without the `u` flag never
      folds a non-ASCII character onto an ASCII one). */
  function LowerAscii(c: char): char {
    if 'A' <= c <= 'Z' then (c as int + 32) as char else c
  }

  /** `/^(css|scss)$/i.test(id)` */
  predicate IsStyleLanguage(id: string) {
    || (|id| == 3 && LowerAscii(id[0]) == 'c' && LowerAscii(id[1]) == 's' && LowerAscii(id[2]) == 's')
    || (|id| == 4 && LowerAscii(id[0]) == 's' && LowerAscii(id[1]) == 'c'
        && LowerAscii(id[2]) == 's' && LowerAscii(id[3]) == 's')
  }

  /** The document's text is empty exactly when it is a single empty line. */
  lemma EmptyText(doc: Document)
    requires |doc| > 0
    ensures Join(doc, "\n") == "" <==> |doc| == 1 && doc[0] == ""
  {
  }

  /** `t` is the edit `set_token_values` plans for `pair` over the block
      `brackets`, shifted to document positions by `base`. */
  ghost predicate IsShiftedPlan(doc: Document, brackets: Selection, base: Position, pair: Pair, t: Edit)
    requires InDocument(brackets, doc)
  {
    exists e ::
      && IsPlannedEdit(LinesBetween(brackets, doc), 0, GetTokenValue(brackets, doc, pair.token), pair, e)
      && t == TranslateEdit(e, base)
  }

  /** The edits for the property `token` inside the block `range`: one per
      configured prefix, in order, each the planned edit for the prefixed
      property carrying the block's value for `token`, shifted to document
      positions. */
  function PlanEdits(doc: Document, range: BlockRange, token: string, prefixes: seq<string>): (r: seq<Edit>)
    requires InDocument(Selection(range.start, range.end), doc)
    ensures |r| == |prefixes|
    ensures forall i :: 0 <= i < |r| ==>
      IsShiftedPlan(doc, Selection(range.start, range.end), range.start,
                    Pair(PrefixedName(prefixes[i], token), GetTokenValue(Selection(range.start, range.end), doc, token).GetOr("")),
                    r[i])
  {
    var brackets := Selection(range.start, range.end);
    var value := GetTokenValue(brackets, doc, token).GetOr("");
    var pairs := PrefixedPairs(prefixes, token, value);
    var edits := SetTokenValues(brackets, doc, pairs);
    var r := seq(|edits|, i requires 0 <= i < |edits| => TranslateEdit(edits[i], range.start));
    PlannedWitnesses(doc, brackets, prefixes, token, value, edits, range.start, r);
    r
  }

  lemma PlannedWitnesses(doc: Document, brackets: Selection, prefixes: seq<string>, token: string, value: string,
                         edits: seq<Edit>, base: Position, r: seq<Edit>)
    requires InDocument(brackets, doc)
    requires edits == SetTokenValues(brackets, doc, PrefixedPairs(prefixes, token, value))
    requires |r| == |edits| && forall i :: 0 <= i < |r| ==> r[i] == TranslateEdit(edits[i], base)
    ensures |r| == |prefixes|
    ensures forall i :: 0 <= i < |r| ==>
      IsShiftedPlan(doc, brackets, base, Pair(PrefixedName(prefixes[i], token), value), r[i])
  {
    var pairs := PrefixedPairs(prefixes, token, value);
    forall i | 0 <= i < |r|
      ensures IsShiftedPlan(doc, brackets, base, Pair(PrefixedName(prefixes[i], token), value), r[i])
    {
      assert pairs[i] == Pair(PrefixedName(prefixes[i], token), value);
      assert IsPlannedEdit(LinesBetween(brackets, doc), 0, GetTokenValue(brackets, doc, pairs[i].token), pairs[i], edits[i]);
    }
  }

  /** Both ends of the block lie on existing lines, so the host can read it. */
  predicate BlockInDocument(doc: Document, range: BlockRange) {
    InDocument(Selection(range.start, range.end), doc)
  }

  /** `edits` is what the pass hands the editor for a caret at `caret`:
      the caret lies in a block that ends on an existing line, right after a
      property name configured in `prefixes`, and there is one edit per
      configured prefix, in order, each the planned edit for the prefixed
      property carrying the block's value for the name, shifted to
      document positions. */
  ghost predicate IsPrefixUpdate(doc: Document, caret: Position, prefixes: map<string, seq<string>>, edits: seq<Edit>)
    requires caret.line < |doc|
  {
    exists range, token ::
      && GetRange(caret, doc) == Some(range)
      && InDocument(Selection(range.start, range.end), doc)
      && TokenAtCursor(doc[caret.line], caret.character) == Some(token)
      && token in prefixes
      && |edits| == |prefixes[token]|
      && forall i :: 0 <= i < |edits| ==>
           IsShiftedPlan(doc, Selection(range.start, range.end), range.start,
                         Pair(PrefixedName(prefixes[token][i], token),
                              GetTokenValue(Selection(range.start, range.end), doc, token).GetOr("")),
                         edits[i])
  }

  /** The part of `update` after the editor-level guards: locate the block,
      read the property name at the caret, look it up, and plan. */
  function PlanAtCaret(doc: Document, caret: Position, prefixes: map<string, seq<string>>): (r: Outcome)
    requires caret.line < |doc|
    ensures r.Apply? ==> IsPrefixUpdate(doc, caret, prefixes, r.edits)
    ensures r.Skipped? ==> r.reason in {NoEnclosingBlock, BlockRunsOffDocument, NoTokenAtCursor, UnconfiguredToken}
    ensures r == Skipped(NoEnclosingBlock) <==> GetRange(caret, doc).None?
    ensures r == Skipped(BlockRunsOffDocument) <==>
      GetRange(caret, doc).Some? && !BlockInDocument(doc, GetRange(caret, doc).value)
    ensures r == Skipped(NoTokenAtCursor) <==>
      && GetRange(caret, doc).Some? && BlockInDocument(doc, GetRange(caret, doc).value)
      && forall m :: 0 <= m < Clamp(caret.character, |doc[caret.line]|) ==> doc[caret.line][m] != ':'
    ensures r == Skipped(UnconfiguredToken) <==>
      && GetRange(caret, doc).Some? && BlockInDocument(doc, GetRange(caret, doc).value)
      && TokenAtCursor(doc[caret.line], caret.character).Some?
      && TokenAtCursor(doc[caret.line], caret.character).value !in prefixes
    ensures r.Apply? <==>
      && GetRange(caret, doc).Some? && BlockInDocument(doc, GetRange(caret, doc).value)
      && TokenAtCursor(doc[caret.line], caret.character).Some?
      && TokenAtCursor(doc[caret.line], caret.character).value in prefixes
  {
    match GetRange(caret, doc)
    case None => Skipped(NoEnclosingBlock)
    case Some(range) =>
      if !BlockInDocument(doc, range) then Skipped(BlockRunsOffDocument)
      else
        match TokenAtCursor(doc[caret.line], caret.character)
        case None => Skipped(NoTokenAtCursor)
        case Some(token) =>
          if token !in prefixes then Skipped(UnconfiguredToken)
          else
            var r := Apply(PlanEdits(doc, range, token, prefixes[token]));
            assert IsPrefixUpdate(doc, caret, prefixes, r.edits);
            r
  }

  /** The body of `update` for an editor whose selection is `sel`: the
      checks in source order, each one that fails ending the pass. A pass
      whose block runs past the last line, or whose caret follows no
      colon, ends with the host throwing; both are skips here. */
  function PlanUpdate(doc: Document, sel: Selection, ctx: Context): (r: Outcome)
    requires InDocument(sel, doc)
    ensures r == Skipped(EmptyDocument) <==> |doc| == 1 && doc[0] == ""
    ensures !(|doc| == 1 && doc[0] == "") ==>
      (r == Skipped(Inactive) <==> ctx.busy || !ctx.enabled || !IsStyleLanguage(ctx.languageId))
    ensures r == Skipped(SelectionNotEmpty) ==> sel.start != sel.end
    ensures !(|doc| == 1 && doc[0] == "") && !ctx.busy && ctx.enabled && IsStyleLanguage(ctx.languageId) ==>
      (r == Skipped(SelectionNotEmpty) <==> sel.start != sel.end)
    ensures r == Skipped(InsideComment) ==>
      var c := InBetween(sel.start.character, doc[sel.start.line], "/*", "*/");
      c.afterStart || c.beforeEnd
    ensures && !(|doc| == 1 && doc[0] == "") && !ctx.busy && ctx.enabled && IsStyleLanguage(ctx.languageId)
            && sel.start == sel.end ==>
      var c := InBetween(sel.start.character, doc[sel.start.line], "/*", "*/");
      (r == Skipped(InsideComment) <==> c.afterStart || c.beforeEnd)
    ensures r.Apply? || r.reason !in {EmptyDocument, Inactive, SelectionNotEmpty, InsideComment} ==>
      && !(|doc| == 1 && doc[0] == "")
      && !ctx.busy && ctx.enabled && IsStyleLanguage(ctx.languageId)
      && sel.start == sel.end
      && var c := InBetween(sel.start.character, doc[sel.start.line], "/*", "*/");
         !c.afterStart && !c.beforeEnd
    ensures r.Apply? ==> IsPrefixUpdate(doc, sel.start, ctx.prefixes, r.edits)
    ensures r == Skipped(NoEnclosingBlock) ==> GetRange(sel.start, doc).None?
    ensures r == Skipped(BlockRunsOffDocument) ==>
      GetRange(sel.start, doc).Some? && !BlockInDocument(doc, GetRange(sel.start, doc).value)
    ensures r == Skipped(UnconfiguredToken) ==>
      && TokenAtCursor(doc[sel.start.line], sel.start.character).Some?
      && TokenAtCursor(doc[sel.start.line], sel.start.character).value !in ctx.prefixes
    ensures r == Skipped(NoTokenAtCursor) ==>
      forall m :: 0 <= m < Clamp(sel.start.character, |doc[sel.start.line]|) ==> doc[sel.start.line][m] != ':'
  {
    EmptyText(doc);
    if Join(doc, "\n") == "" then Skipped(EmptyDocument)
    else if ctx.busy || !ctx.enabled || !IsStyleLanguage(ctx.languageId) then Skipped(Inactive)
    else if sel.start != sel.end then Skipped(SelectionNotEmpty)
    else
      var comment := InBetween(sel.start.character, doc[sel.start.line], "/*", "*/");
      if comment.afterStart || comment.beforeEnd then Skipped(InsideComment)
      else PlanAtCaret(doc, sel.start, ctx.prefixes)
  }

  /** Conversely, a caret move in a non-empty style sheet, with nothing
      selected, outside a comment, inside a block that ends on an existing
      line, right after a configured property name, is always acted on,
      with one edit per configured prefix. */
  lemma UpdateApplies(doc: Document, caret: Position, ctx: Context, range: BlockRange, token: string)
    requires caret.line < |doc|
    requires !(|doc| == 1 && doc[0] == "")
    requires !ctx.busy && ctx.enabled && IsStyleLanguage(ctx.languageId)
    requires var c := InBetween(caret.character, doc[caret.line], "/*", "*/"); !c.afterStart && !c.beforeEnd
    requires GetRange(caret, doc) == Some(range) && InDocument(Selection(range.start, range.end), doc)
    requires TokenAtCursor(doc[caret.line], caret.character) == Some(token) && token in ctx.prefixes
    ensures var r := PlanUpdate(doc, Selection(caret, caret), ctx);
      r.Apply? && |r.edits| == |ctx.prefixes[token]|
  {
  }
}
