/** The Edit Planner: `set_token_values`. */
module Planner {
  import opened JsString
  import opened Positions
  import opened Patterns
  import opened TokenValue

  /** A declaration to enforce: a property name and the value it should have. */
  datatype Pair = Pair(token: string, value: string)

  /** An edit, with positions relative to the block (see `Prefixer.TranslateEdit`):
      replace the text between two positions, or insert text at one. */
  datatype Edit =
    | Replace(start: Position, end: Position, value: string)
    | Insert(start: Position, value: string)

  // ---------------------------------------------------------------------
  // Indentation

  /** `[ \t]` */
  predicate IsIndentChar(c: char) {
    c == ' ' || c == '\t'
  }

  /** `text[k..e]` is the last maximal run of spaces and tabs in `text`. */
  ghost predicate IsLastIndentRun(text: string, k: int, e: int) {
    && 0 <= k < e <= |text|
    && (forall m :: k <= m < e ==> IsIndentChar(text[m]))
    && (k == 0 || !IsIndentChar(text[k - 1]))
    && (forall m :: e <= m < |text| ==> !IsIndentChar(text[m]))
  }

  /** Just past the last space or tab below index `i`, or 0 if there is none. */
  function LastIndentEnd(text: string, i: nat): (e: nat)
    requires i <= |text|
    ensures e <= i
    ensures forall m :: e <= m < i ==> !IsIndentChar(text[m])
    ensures e > 0 ==> IsIndentChar(text[e - 1])
  {
    if i == 0 then 0
    else if IsIndentChar(text[i - 1]) then i
    else LastIndentEnd(text, i - 1)
  }

  /** Where the run of spaces and tabs that ends at `j` begins. */
  function RunStart(text: string, j: nat): (k: nat)
    requires j <= |text|
    ensures k <= j
    ensures forall m :: k <= m < j ==> IsIndentChar(text[m])
    ensures k == 0 || !IsIndentChar(text[k - 1])
    ensures j > 0 && IsIndentChar(text[j - 1]) ==> k < j
  {
    if j == 0 || !IsIndentChar(text[j - 1]) then j else RunStart(text, j - 1)
  }

  /** The last non-empty match of `/[ \t]* /g` in `text`, as a pair of
      indices. The global match lists the maximal runs of spaces and tabs
      (with empty matches between them), so the last non-empty one is the
      last maximal run. */
  function LastIndentRun(text: string): (r: Option<(nat, nat)>)
    ensures r.None? <==> forall m :: 0 <= m < |text| ==> !IsIndentChar(text[m])
    ensures r.Some? ==> IsLastIndentRun(text, r.value.0, r.value.1)
  {
    var e := LastIndentEnd(text, |text|);
    if e == 0 then None else Some((RunStart(text, e), e))
  }

  /** The indentation of an inserted declaration: the last run of spaces and
      tabs on the line, or a tab when the line has none. */
  function Indentation(text: string): (r: string)
    ensures (forall m :: 0 <= m < |text| ==> !IsIndentChar(text[m])) ==> r == "\t"
    ensures (exists m :: 0 <= m < |text| && IsIndentChar(text[m])) ==>
              exists k, e :: IsLastIndentRun(text, k, e) && r == text[k..e]
  {
    match LastIndentRun(text)
    case None => "\t"
    case Some((k, e)) => text[k..e]
  }

  // ---------------------------------------------------------------------
  // What one pair turns into

  /** Line `i` is the first at or after `from` that declares `token`. */
  ghost predicate FirstDeclaringLine(lines: seq<LinePiece>, from: int, i: int, token: string) {
    && 0 <= from <= i < |lines|
    && Declares(lines[i].text, token)
    && forall j :: from <= j < i ==> !Declares(lines[j].text, token)
  }

  /** The line trims to nothing. */
  ghost predicate IsBlankLine(text: string) {
    forall k :: 0 <= k < |text| ==> IsJsSpace(text[k])
  }

  /** The edit `set_token_values` plans for `pair` over the lines from index
      `from` on, given the value `current` the whole block has for the
      pair's token.
      - When the block has a value and some line declares the token: replace,
        on the first such line, the text that starts right after the colon
        of its first declaration and is as long as the block's value, by the
        pair's value.
      - Otherwise: insert, at the end of the last line, the indentation, the
        token, a colon, the value and a semicolon, then a line break when the
        last line is blank and a space when it is not. */
  ghost predicate IsPlannedEdit(lines: seq<LinePiece>, from: nat, current: Option<string>, pair: Pair, e: Edit)
    requires from < |lines|
  {
    if current.Some? && exists i :: from <= i < |lines| && Declares(lines[i].text, pair.token) then
      exists i :: FirstDeclaringLine(lines, from, i, pair.token) && IsValueReplacement(lines[i], current.value, pair, e)
    else
      IsAppendedDeclaration(lines[|lines| - 1], pair, e)
  }

  /** `e` replaces, on `piece`'s line, the `|existing|` characters that follow the
      colon of the first declaration of the pair's token by the pair's value. */
  ghost predicate IsValueReplacement(piece: LinePiece, existing: string, pair: Pair, e: Edit) {
    var offset := ValueOffset(piece.text, pair.token);
    && offset.Some?
    && e == Replace(Position(piece.line, offset.value), Position(piece.line, offset.value + |existing|), pair.value)
  }

  /** `e` appends a declaration of the pair at the end of `last`. */
  ghost predicate IsAppendedDeclaration(last: LinePiece, pair: Pair, e: Edit) {
    && e.Insert?
    && e.start == Position(last.line, |last.text|)
    && e.value == Indentation(last.text) + pair.token + ":" + pair.value + ";"
                  + (if IsBlankLine(last.text) then "\n" else " ")
  }

  /** The inner loop of `set_token_values` from line index `l`: it stops at
      the first line that declares the token when the block has a value,
      and otherwise falls through to the insertion on the last line. */
  function PlanPairFrom(lines: seq<LinePiece>, l: nat, current: Option<string>, pair: Pair): Edit
    requires l < |lines|
    decreases |lines| - l
  {
    var piece := lines[l];
    var offset := ValueOffset(piece.text, pair.token);
    if current.Some? && offset.Some? then
      Replace(Position(piece.line, offset.value), Position(piece.line, offset.value + |current.value|), pair.value)
    else if l == |lines| - 1 then
      Insert(Position(piece.line, |piece.text|),
             Indentation(piece.text) + pair.token + ":" + pair.value + ";"
             + (if Trim(piece.text) == "" then "\n" else " "))
    else
      PlanPairFrom(lines, l + 1, current, pair)
  }

  /** The inner loop plans exactly the edit `IsPlannedEdit` describes. */
  lemma {:induction false} PlanPairFromIsPlanned(lines: seq<LinePiece>, l: nat, current: Option<string>, pair: Pair)
    requires l < |lines|
    decreases |lines| - l
    ensures IsPlannedEdit(lines, l, current, pair, PlanPairFrom(lines, l, current, pair))
  {
    if current.Some? && ValueOffset(lines[l].text, pair.token).Some? {
      PlanReplacesHere(lines, l, current, pair);
    } else if l == |lines| - 1 {
      PlanInsertsAtLast(lines, l, current, pair);
    } else {
      PlanPairFromIsPlanned(lines, l + 1, current, pair);
      PlanSteps(lines, l, current, pair);
    }
  }

  /** With a value and a declaration on line `l`, the loop replaces there. */
  lemma PlanReplacesHere(lines: seq<LinePiece>, l: nat, current: Option<string>, pair: Pair)
    requires l < |lines| && current.Some? && ValueOffset(lines[l].text, pair.token).Some?
    ensures IsPlannedEdit(lines, l, current, pair, PlanPairFrom(lines, l, current, pair))
  {
    var o := ValueOffset(lines[l].text, pair.token).value;
    assert PlanPairFrom(lines, l, current, pair)
        == Replace(Position(lines[l].line, o), Position(lines[l].line, o + |current.value|), pair.value);
    PlannedReplaceHere(lines, l, current, pair, o);
  }

  /** On the last line without a replacement, the loop inserts. */
  lemma PlanInsertsAtLast(lines: seq<LinePiece>, l: nat, current: Option<string>, pair: Pair)
    requires l == |lines| - 1 && (current.None? || ValueOffset(lines[l].text, pair.token).None?)
    ensures IsPlannedEdit(lines, l, current, pair, PlanPairFrom(lines, l, current, pair))
  {
    PlannedInsertAtLast(lines, l, current, pair, PlanPairFrom(lines, l, current, pair));
  }

  /** Without a replacement on line `l`, the loop goes on to the next line. */
  lemma PlanSteps(lines: seq<LinePiece>, l: nat, current: Option<string>, pair: Pair)
    requires l + 1 < |lines| && (current.None? || ValueOffset(lines[l].text, pair.token).None?)
    requires IsPlannedEdit(lines, l + 1, current, pair, PlanPairFrom(lines, l + 1, current, pair))
    ensures IsPlannedEdit(lines, l, current, pair, PlanPairFrom(lines, l, current, pair))
  {
    PlannedEditStep(lines, l, current, pair, PlanPairFrom(lines, l, current, pair));
  }

  lemma PlannedReplaceHere(lines: seq<LinePiece>, l: nat, current: Option<string>, pair: Pair, o: nat)
    requires l < |lines| && current.Some? && ValueOffset(lines[l].text, pair.token) == Some(o)
    ensures var piece := lines[l];
      IsPlannedEdit(lines, l, current, pair, Replace(Position(piece.line, o), Position(piece.line, o + |current.value|), pair.value))
  {
    var e := Replace(Position(lines[l].line, o), Position(lines[l].line, o + |current.value|), pair.value);
    assert IsValueReplacement(lines[l], current.value, pair, e);
    assert Declares(lines[l].text, pair.token);
    assert FirstDeclaringLine(lines, l, l, pair.token);
    assert IsPlannedEdit(lines, l, current, pair, e);
  }

  lemma PlannedInsertAtLast(lines: seq<LinePiece>, l: nat, current: Option<string>, pair: Pair, e: Edit)
    requires l == |lines| - 1
    requires current.None? || ValueOffset(lines[l].text, pair.token).None?
    requires var text := lines[l].text;
      e == Insert(Position(lines[l].line, |text|),
                  Indentation(text) + pair.token + ":" + pair.value + ";"
                  + (if Trim(text) == "" then "\n" else " "))
    ensures IsPlannedEdit(lines, l, current, pair, e)
  {
    AppendedAtLast(lines[l], pair, e);
    NoDeclaringLineAtLast(lines, l, current, pair);
  }

  lemma AppendedAtLast(last: LinePiece, pair: Pair, e: Edit)
    requires e == Insert(Position(last.line, |last.text|),
                  Indentation(last.text) + pair.token + ":" + pair.value + ";"
                  + (if Trim(last.text) == "" then "\n" else " "))
    ensures IsAppendedDeclaration(last, pair, e)
  {
    TrimEmptyIffBlank(last.text);
  }

  lemma NoDeclaringLineAtLast(lines: seq<LinePiece>, l: nat, current: Option<string>, pair: Pair)
    requires l == |lines| - 1
    requires current.None? || ValueOffset(lines[l].text, pair.token).None?
    ensures !(current.Some? && exists i :: l <= i < |lines| && Declares(lines[i].text, pair.token))
  {
  }

  /** A line trims to the empty string exactly when it is all white space. */
  lemma TrimEmptyIffBlank(text: string)
    ensures (Trim(text) == "") == IsBlankLine(text)
  {
  }

  lemma PlannedEditStep(lines: seq<LinePiece>, l: nat, current: Option<string>, pair: Pair, e: Edit)
    requires l + 1 < |lines|
    requires current.None? || ValueOffset(lines[l].text, pair.token).None?
    requires IsPlannedEdit(lines, l + 1, current, pair, e)
    ensures IsPlannedEdit(lines, l, current, pair, e)
  {
  }

  /** `set_token_values(selection, document, pairs)`: one edit per pair, in
      pair order, each planned over the lines of the block against the
      value the whole block holds for that pair's token. */
  function SetTokenValues(sel: Selection, doc: Document, pairs: seq<Pair>): (r: seq<Edit>)
    requires InDocument(sel, doc)
    ensures |r| == |pairs|
    ensures forall i :: 0 <= i < |pairs| ==>
              IsPlannedEdit(LinesBetween(sel, doc), 0, GetTokenValue(sel, doc, pairs[i].token), pairs[i], r[i])
  {
    var lines := LinesBetween(sel, doc);
    var r := seq(|pairs|, i requires 0 <= i < |pairs| => PlanPairFrom(lines, 0, GetTokenValue(sel, doc, pairs[i].token), pairs[i]));
    assert forall i :: 0 <= i < |pairs| ==>
      IsPlannedEdit(lines, 0, GetTokenValue(sel, doc, pairs[i].token), pairs[i], r[i]) by {
      forall i | 0 <= i < |pairs| {
        PlanPairFromIsPlanned(lines, 0, GetTokenValue(sel, doc, pairs[i].token), pairs[i]);
      }
    }
    r
  }
}
