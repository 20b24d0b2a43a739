/** The Block Locator: `in_between`, `make_range` and `get_range`. */
module BlockLocator {
  import opened JsString
  import opened Positions

  // ---------------------------------------------------------------------
  // in_between

  /** The record `in_between` returns. */
  datatype Between = Between(between: bool, afterStart: bool, beforeEnd: bool, start: int, end: int)

  /** The text of `line` left of the caret. */
  function LeftOf(line: string, caretChar: nat): string {
    Substring(line, 0, caretChar)
  }

  /** The text of `line` from the caret on. */
  function RightOf(line: string, caretChar: nat): string {
    SubstringFrom(line, caretChar)
  }

  /** Some `a` occurs in `t` with no `b` starting at or after it. */
  ghost predicate OpenedLast(t: string, a: string, b: string) {
    exists i :: Occurs(t, a, i) && forall j :: Occurs(t, b, j) ==> j < i
  }

  /** Some `b` occurs in `t` with every `a` starting after it. */
  ghost predicate ClosedFirst(t: string, a: string, b: string) {
    exists i :: Occurs(t, b, i) && forall j :: Occurs(t, a, j) ==> i < j
  }

  /** `in_between(position, line, a, b)`: whether the caret sits after an
      unclosed `a` and before an unopened `b` on its line. `afterStart` holds
      exactly when the text left of the caret has an `a` after its last `b`
      (or has no `b`), and `start` then is where that last `a` begins;
      `beforeEnd` holds exactly when the text right of the caret has a `b`
      before any `a`, and `end` then is where that first `b` begins, counted
      from the line start. Otherwise `start` is where the last `b` left of
      the caret begins (0 when there is none) and `end` is where the first
      `a` right of the caret begins (the line's end when there is none). */
  function InBetween(caretChar: nat, line: string, a: string, b: string): (r: Between)
    ensures r.between == (r.afterStart || r.beforeEnd)
    ensures r.afterStart <==> OpenedLast(LeftOf(line, caretChar), a, b)
    ensures r.beforeEnd <==> ClosedFirst(RightOf(line, caretChar), a, b)
    ensures r.afterStart ==>
              && Occurs(LeftOf(line, caretChar), a, r.start)
              && forall j :: r.start < j ==> !Occurs(LeftOf(line, caretChar), a, j)
    ensures r.beforeEnd ==>
              && caretChar <= r.end
              && Occurs(RightOf(line, caretChar), b, r.end - caretChar)
              && forall j :: 0 <= j < r.end - caretChar ==> !Occurs(RightOf(line, caretChar), b, j)
    ensures !r.afterStart ==>
              if forall j :: !Occurs(LeftOf(line, caretChar), b, j) then r.start == 0
              else && Occurs(LeftOf(line, caretChar), b, r.start)
                   && forall j :: r.start < j ==> !Occurs(LeftOf(line, caretChar), b, j)
    ensures !r.beforeEnd ==>
              && caretChar <= r.end
              && if forall j :: !Occurs(RightOf(line, caretChar), a, j) then r.end == caretChar + |RightOf(line, caretChar)|
                 else && Occurs(RightOf(line, caretChar), a, r.end - caretChar)
                      && forall j :: 0 <= j < r.end - caretChar ==> !Occurs(RightOf(line, caretChar), a, j)
  {
    var beginning := LeftOf(line, caretChar);
    var rest := RightOf(line, caretChar);
    var blind := LastIndexOf(beginning, a);
    var blind2 := LastIndexOf(beginning, b);
    var bind := IndexOf(rest, b);
    var bind2 := IndexOf(rest, a);
    var afterStart := blind != -1 && (blind2 == -1 || blind2 < blind);
    var beforeEnd := bind != -1 && (bind2 == -1 || bind < bind2);
    var start := if afterStart then blind else if blind2 == -1 then 0 else blind2;
    var end := (if beforeEnd then bind else if bind2 == -1 then |rest| else bind2) + caretChar;
    assert afterStart ==> Occurs(beginning, a, blind);
    assert beforeEnd ==> Occurs(rest, b, bind);
    Between(afterStart || beforeEnd, afterStart, beforeEnd, start, end)
  }

  // ---------------------------------------------------------------------
  // make_range

  /** A JavaScript value that is either a boolean or a string, as the
      `same_line` argument of `make_range` is. */
  datatype JsFlag = Flag(b: bool) | Text(s: string)

  /** JavaScript truthiness of such a value. */
  predicate Truthy(v: JsFlag) {
    match v
    case Flag(b) => b
    case Text(s) => s != ""
  }

  /** The range object `get_range` returns. */
  datatype BlockRange = BlockRange(value: string, start: Position, end: Position, sameLine: JsFlag)

  /** `make_range(value, start, end, same_line)`: the fields as given, with
      `same_line || false` for the flag: a truthy flag is kept, a falsy one
      becomes `false`. */
  function MakeRange(value: string, start: Position, end: Position, sameLine: JsFlag): (r: BlockRange)
    ensures r.value == value && r.start == start && r.end == end
    ensures Truthy(r.sameLine) == Truthy(sameLine)
    ensures Truthy(sameLine) ==> r.sameLine == sameLine
    ensures !Truthy(sameLine) ==> r.sameLine == Flag(false)
  {
    BlockRange(value, start, end, if Truthy(sameLine) then sameLine else Flag(false))
  }

  // ---------------------------------------------------------------------
  // get_range: what the two scans decide on each line

  /** Scanning up, line `l`'s last `{` comes after its last `}`: the block
      opens here. */
  predicate UpOpens(doc: Document, l: nat)
    requires l < |doc|
  {
    LastIndexOf(doc[l], "{") > LastIndexOf(doc[l], "}")
  }

  /** Scanning up, line `l` holds a `}` that closes an earlier block before
      the caret: there is no beginning. On the caret's own line only a `}`
      left of the caret counts. */
  predicate UpCloses(doc: Document, caret: Position, l: nat)
    requires l < |doc|
  {
    var close := LastIndexOf(doc[l], "}");
    && !UpOpens(doc, l)
    && close != -1
    && (l != caret.line || caret.character > close)
  }

  /** Scanning up, line `l` decides nothing and the scan goes on. */
  predicate UpPasses(doc: Document, caret: Position, l: nat)
    requires l < |doc|
  {
    !UpOpens(doc, l) && !UpCloses(doc, caret, l)
  }

  /** Scanning down, line `l`'s first brace is a `}`: the block ends here. */
  predicate DownCloses(doc: Document, l: nat)
    requires l < |doc|
  {
    var open := IndexOf(doc[l], "{");
    var close := IndexOf(doc[l], "}");
    (open == -1 && close != -1) || (close != -1 && close < open)
  }

  /** Scanning down, line `l` opens a new block before any `}`: there is no
      end. On the caret's own line only a `{` right of the caret counts. */
  predicate DownOpens(doc: Document, caret: Position, l: nat)
    requires l < |doc|
  {
    var open := IndexOf(doc[l], "{");
    var close := IndexOf(doc[l], "}");
    var rev := (close == -1 && open != -1) || (open != -1 && open < close);
    && !DownCloses(doc, l)
    && rev
    && (l != caret.line || caret.character < open)
  }

  /** Scanning down, line `l` decides nothing and the scan goes on. */
  predicate DownPasses(doc: Document, caret: Position, l: nat)
    requires l < |doc|
  {
    !DownCloses(doc, l) && !DownOpens(doc, caret, l)
  }

  /** Line `l` is where the upward scan from line `top` stops: the first
      line at or above `top` that opens or closes. */
  ghost predicate UpStopsAt(doc: Document, caret: Position, top: int, l: nat) {
    && l <= top < |doc|
    && !UpPasses(doc, caret, l)
    && forall m: nat :: l < m <= top ==> UpPasses(doc, caret, m)
  }

  /** The start character the upward scan records on the line where it
      stops: just past the line's last `{` when the line opens the block,
      just past its last `}` otherwise. */
  function UpStopCharacter(doc: Document, l: nat): int
    requires l < |doc|
  {
    (if UpOpens(doc, l) then LastIndexOf(doc[l], "{") else LastIndexOf(doc[l], "}")) + 1
  }

  /** Line `l` is where the downward scan from line `from` stops: the first
      line at or below `from` that closes or opens. */
  ghost predicate DownStopsAt(doc: Document, caret: Position, from: nat, l: nat) {
    && from <= l < |doc|
    && !DownPasses(doc, caret, l)
    && forall m: nat :: from <= m < l ==> DownPasses(doc, caret, m)
  }

  /** The end character the downward scan records on the line where it
      stops: at the line's first `}` when the line closes the block, at its
      first `{` otherwise. */
  function DownStopCharacter(doc: Document, l: nat): int
    requires l < |doc|
  {
    if DownCloses(doc, l) then IndexOf(doc[l], "}") else IndexOf(doc[l], "{")
  }

  /** The start `get_range` reports when it scans: where the upward scan
      from the caret line stops, or (0, 0) when no line decides. */
  ghost predicate ScannedStart(doc: Document, caret: Position, start: Position)
    requires caret.line < |doc|
  {
    if forall m: nat :: m <= caret.line ==> UpPasses(doc, caret, m) then start == Position(0, 0)
    else UpStopsAt(doc, caret, caret.line, start.line) && start.character == UpStopCharacter(doc, start.line)
  }

  /** The end `get_range` reports when it scans: where the downward scan
      from the caret line stops, or (line count, length of the last line)
      when no line decides. */
  ghost predicate ScannedEnd(doc: Document, caret: Position, end: Position)
    requires caret.line < |doc|
  {
    if forall m: nat :: caret.line <= m < |doc| ==> DownPasses(doc, caret, m) then
      end == Position(|doc|, |doc[|doc| - 1]|)
    else
      DownStopsAt(doc, caret, caret.line, end.line) && end.character == DownStopCharacter(doc, end.line)
  }

  /** The upward scan from line `top` stops at a closing line: the caret is
      not inside a block as far as the lines above tell. */
  ghost predicate NoBeginningFrom(doc: Document, caret: Position, top: int) {
    exists l: nat :: UpStopsAt(doc, caret, top, l) && UpCloses(doc, caret, l)
  }

  /** The downward scan from line `from` stops at an opening line. */
  ghost predicate NoEndFrom(doc: Document, caret: Position, from: nat) {
    exists l: nat :: DownStopsAt(doc, caret, from, l) && DownOpens(doc, caret, l)
  }

  /** The caret sits between a `{` and a `}` of its own line. */
  ghost predicate BracesAroundOnLine(line: string, caretChar: nat) {
    OpenedLast(LeftOf(line, caretChar), "{", "}") && ClosedFirst(RightOf(line, caretChar), "{", "}")
  }

  // ---------------------------------------------------------------------
  // get_range: the two scans

  /** What the upward scan leaves behind. */
  datatype UpScan = UpScan(start: Option<Position>, raw: string, whitespace: string, noBeginning: bool)

  /** What the downward scan leaves behind. */
  datatype DownScan = DownScan(end: Option<Position>, raw: string, noEnd: bool)

  /** `ws` holds JavaScript white space only. */
  ghost predicate AllJsSpace(ws: string) {
    forall k :: 0 <= k < |ws| ==> IsJsSpace(ws[k])
  }

  /** `r` is what the upward scan from line `top`, entered with the
      indentation `whitespace`, leaves behind: see `ScanUp`. */
  ghost predicate IsUpScan(doc: Document, caret: Position, top: int, whitespace: string, r: UpScan)
    requires -1 <= top < |doc|
  {
    && (r.noBeginning <==> NoBeginningFrom(doc, caret, top))
    && (r.noBeginning ==> r.start.Some?)
    && (r.start.None? <==> forall m: nat :: m <= top ==> UpPasses(doc, caret, m))
    && (r.start.Some? ==>
          && r.start.value.line <= top && r.start.value.character <= |doc[r.start.value.line]|
          && UpStopsAt(doc, caret, top, r.start.value.line)
          && r.start.value.character == UpStopCharacter(doc, r.start.value.line))
    && (AllJsSpace(whitespace) ==> AllJsSpace(r.whitespace))
  }

  /** The upward loop of `get_range` from line `line` (down to -1). It stops
      on the first line that opens or closes; `noBeginning` tells which. */
  function ScanUp(doc: Document, caret: Position, line: int, raw: string, whitespace: string): (r: UpScan)
    requires -1 <= line < |doc|
    decreases line + 1
    ensures IsUpScan(doc, caret, line, whitespace, r)
  {
    if line < 0 then UpScan(None, raw, whitespace, false)
    else
      var text := doc[line];
      var open := LastIndexOf(text, "{");
      var close := LastIndexOf(text, "}");
      if open > close then
        var r := UpScan(Some(Position(line, open + 1)), SubstringFrom(text, open + 1) + "\n" + raw, whitespace, false);
        UpStopsOpening(doc, caret, line, whitespace, r);
        r
      else if (close != -1 && line != caret.line) || (close != -1 && line == caret.line && caret.character > close) then
        var r := UpScan(Some(Position(line, close + 1)), SubstringFrom(text, close + 1) + "\n" + raw, whitespace, true);
        UpStopsClosing(doc, caret, line, whitespace, r);
        r
      else
        var ws := if whitespace == "" then text[..LeadingSpaceLength(text)] else whitespace;
        var r := ScanUp(doc, caret, line - 1, text + "\n" + raw, ws);
        UpPassesLine(doc, caret, line, whitespace, ws, r);
        r
  }

  /** The upward scan stops on a line that opens the block. */
  lemma UpStopsOpening(doc: Document, caret: Position, line: nat, whitespace: string, r: UpScan)
    requires line < |doc| && UpOpens(doc, line)
    requires r.start == Some(Position(line, LastIndexOf(doc[line], "{") + 1))
    requires r.whitespace == whitespace && !r.noBeginning
    ensures IsUpScan(doc, caret, line, whitespace, r)
  {
    forall l: nat | l <= line && UpCloses(doc, caret, l)
      ensures l < line && !UpPasses(doc, caret, line)
    {
    }
    assert UpStopsAt(doc, caret, line, line);
  }

  /** The upward scan stops on a line that closes an earlier block. */
  lemma UpStopsClosing(doc: Document, caret: Position, line: nat, whitespace: string, r: UpScan)
    requires line < |doc| && UpCloses(doc, caret, line)
    requires r.start == Some(Position(line, LastIndexOf(doc[line], "}") + 1))
    requires r.whitespace == whitespace && r.noBeginning
    ensures IsUpScan(doc, caret, line, whitespace, r)
  {
    assert UpStopsAt(doc, caret, line, line);
  }

  /** The upward scan passes a line that neither opens nor closes, taking
      the line's indentation when it has none yet. */
  lemma UpPassesLine(doc: Document, caret: Position, line: nat, whitespace: string, ws: string, r: UpScan)
    requires line < |doc| && UpPasses(doc, caret, line)
    requires ws == if whitespace == "" then doc[line][..LeadingSpaceLength(doc[line])] else whitespace
    requires IsUpScan(doc, caret, line - 1, ws, r)
    ensures IsUpScan(doc, caret, line, whitespace, r)
  {
    NoBeginningStep(doc, caret, line);
    UpStopStep(doc, caret, line, r.start);
  }

  /** A line the upward scan passes does not change where it stops. */
  lemma UpStopStep(doc: Document, caret: Position, line: nat, start: Option<Position>)
    requires line < |doc| && UpPasses(doc, caret, line)
    requires start.Some? ==> UpStopsAt(doc, caret, line - 1, start.value.line)
    ensures start.Some? ==> UpStopsAt(doc, caret, line, start.value.line)
  {
  }

  /** A line the upward scan passes does not change where it stops. */
  lemma UpStopShift(doc: Document, caret: Position, line: nat, l: nat)
    requires line < |doc| && UpPasses(doc, caret, line)
    ensures UpStopsAt(doc, caret, line, l) <==> UpStopsAt(doc, caret, line - 1, l)
  {
  }

  /** A line the upward scan passes does not change whether it finds no
      beginning. */
  lemma NoBeginningStep(doc: Document, caret: Position, line: nat)
    requires line < |doc| && UpPasses(doc, caret, line)
    ensures NoBeginningFrom(doc, caret, line) <==> NoBeginningFrom(doc, caret, line - 1)
  {
    forall l: nat
      ensures UpStopsAt(doc, caret, line, l) <==> UpStopsAt(doc, caret, line - 1, l)
    {
      UpStopShift(doc, caret, line, l);
    }
  }

  /** The downward loop of `get_range` from line `line`. It stops on the
      first line that closes or opens; `noEnd` tells which, and `end` is
      `None` when it runs past the last line. */
  function ScanDown(doc: Document, caret: Position, line: nat, raw: string): (r: DownScan)
    requires caret.line <= line <= |doc|
    decreases |doc| - line
    ensures r.noEnd <==> NoEndFrom(doc, caret, line)
    ensures r.end.None? <==> forall m: nat :: line <= m < |doc| ==> DownPasses(doc, caret, m)
    ensures r.end.Some? ==> line <= r.end.value.line < |doc| && r.end.value.character <= |doc[r.end.value.line]|
    ensures r.end.Some? ==>
              && DownStopsAt(doc, caret, line, r.end.value.line)
              && r.end.value.character == DownStopCharacter(doc, r.end.value.line)
  {
    if line == |doc| then DownScan(None, raw, false)
    else
      var text := doc[line];
      var open := IndexOf(text, "{");
      var close := IndexOf(text, "}");
      var rev := (close == -1 && open != -1) || (open != -1 && open < close);
      if (open == -1 && close != -1) || (close != -1 && close < open) then
        assert DownCloses(doc, line) && !DownPasses(doc, caret, line);
        assert DownStopsAt(doc, caret, line, line);
        forall l: nat | line <= l < |doc| && DownOpens(doc, caret, l)
          ensures line < l && !DownPasses(doc, caret, line)
        {
        }
        var raw' := if line == caret.line then Substring(raw, 0, |raw| - |text|) + Substring(text, 0, close)
                    else raw + "\n" + Substring(text, 0, close);
        DownScan(Some(Position(line, close)), raw', false)
      else if (rev && caret.line != line) || (rev && caret.line == line && caret.character < open) then
        assert DownOpens(doc, caret, line) && !DownPasses(doc, caret, line);
        assert DownStopsAt(doc, caret, line, line);
        var raw' := if line == caret.line then Substring(raw, 0, |raw| - |text|) + Substring(text, 0, open)
                    else raw + "\n" + Substring(text, 0, open);
        DownScan(Some(Position(line, open)), raw', true)
      else
        assert DownPasses(doc, caret, line);
        NoEndStep(doc, caret, line);
        var r := ScanDown(doc, caret, line + 1, if line != caret.line then raw + "\n" + text else raw);
        DownStopStep(doc, caret, line, r.end);
        r
  }

  /** A line the downward scan passes does not change where it stops. */
  lemma DownStopStep(doc: Document, caret: Position, line: nat, end: Option<Position>)
    requires line < |doc| && DownPasses(doc, caret, line)
    requires end.Some? ==> DownStopsAt(doc, caret, line + 1, end.value.line)
    ensures end.Some? ==> DownStopsAt(doc, caret, line, end.value.line)
  {
  }

  /** A line the downward scan passes does not change where it stops. */
  lemma DownStopShift(doc: Document, caret: Position, line: nat, l: nat)
    requires line < |doc| && DownPasses(doc, caret, line)
    ensures DownStopsAt(doc, caret, line, l) <==> DownStopsAt(doc, caret, line + 1, l)
  {
  }

  /** A line the downward scan passes does not change whether it finds no
      end. */
  lemma NoEndStep(doc: Document, caret: Position, line: nat)
    requires line < |doc| && DownPasses(doc, caret, line)
    ensures NoEndFrom(doc, caret, line) <==> NoEndFrom(doc, caret, line + 1)
  {
    forall l: nat
      ensures DownStopsAt(doc, caret, line, l) <==> DownStopsAt(doc, caret, line + 1, l)
    {
      DownStopShift(doc, caret, line, l);
    }
  }

  /** Where the braces around the caret sit, when the caret is between a
      `{` and a `}` of its own line. */
  lemma BracesAroundPositions(line: string, caretChar: nat, first: Between)
    requires first == InBetween(caretChar, line, "{", "}")
    requires first.afterStart && first.beforeEnd
    ensures 0 <= first.start < caretChar && first.start < |line| && line[first.start] == '{'
    ensures caretChar <= first.end < |line| && line[first.end] == '}'
  {
    var left := LeftOf(line, caretChar);
    var right := RightOf(line, caretChar);
    assert left == line[..Clamp(caretChar, |line|)];
    assert right == line[Clamp(caretChar, |line|)..];
    assert left[first.start] == '{';
    assert right[first.end - caretChar] == '}';
  }

  /** The early return of `get_range`: the text between the braces around
      the caret on its own line. */
  function SameLineRange(caret: Position, doc: Document): (r: BlockRange)
    requires caret.line < |doc|
    requires BracesAroundOnLine(doc[caret.line], caret.character)
    ensures r.start.line == caret.line == r.end.line
    ensures 0 < r.start.character <= caret.character && doc[caret.line][r.start.character - 1] == '{'
    ensures caret.character <= r.end.character < |doc[caret.line]| && doc[caret.line][r.end.character] == '}'
    ensures var first := InBetween(caret.character, doc[caret.line], "{", "}");
      r.start.character == first.start + 1 && r.end.character == first.end
    ensures r.value == doc[caret.line][r.start.character..r.end.character]
    ensures r.sameLine == Flag(true)
  {
    var text := doc[caret.line];
    var first := InBetween(caret.character, text, "{", "}");
    BracesAroundPositions(text, caret.character, first);
    MakeRange(Substring(text, first.start + 1, first.end),
              Position(caret.line, first.start + 1), Position(caret.line, first.end), Flag(true))
  }

  /** The two scans of `get_range` and the range they make. */
  function ScannedRange(caret: Position, doc: Document): (r: Option<BlockRange>)
    requires caret.line < |doc|
    ensures r.None? <==> NoBeginningFrom(doc, caret, caret.line) && NoEndFrom(doc, caret, caret.line)
    ensures r.Some? ==> r.value.start.line <= caret.line <= r.value.end.line
    ensures r.Some? ==>
              && r.value.sameLine != Flag(true)
              && (r.value.sameLine.Text? ==> forall k :: 0 <= k < |r.value.sameLine.s| ==> IsJsSpace(r.value.sameLine.s[k]))
              && ((forall m: nat :: m <= caret.line ==> UpPasses(doc, caret, m)) ==> r.value.start == Position(0, 0))
              && ((forall m: nat :: caret.line <= m < |doc| ==> DownPasses(doc, caret, m)) ==>
                    r.value.end == Position(|doc|, |doc[|doc| - 1]|))
    ensures r.Some? ==> ScannedStart(doc, caret, r.value.start) && ScannedEnd(doc, caret, r.value.end)
  {
    var up := ScanUp(doc, caret, caret.line, "", "");
    var start := if up.start.Some? then up.start.value else Position(0, 0);
    var down := ScanDown(doc, caret, caret.line, up.raw);
    var end := if down.end.Some? then down.end.value else Position(|doc|, |doc[|doc| - 1]|);
    if down.noEnd && up.noBeginning then None
    else Some(MakeRange(down.raw, start, end, Text(up.whitespace)))
  }

  /** `get_range(selection, document)` for the caret at `caret`.

      - `None` (the source's `false`) exactly when the caret is not between
        braces of its own line and both scans report that the caret lies
        outside a block: the upward one meets a closing `}` first and the
        downward one an opening `{` first.
      - Otherwise the range starts on or above the caret line and ends on or
        below it.
      - Between braces of its own line, both ends lie on the caret line, just
        after that `{` and at that `}`, and `sameLine` is `true`.
      - Otherwise `sameLine` carries the indentation string the upward scan
        picked up (or `false` when it found none), never `true`; the start
        falls back to (0, 0) when no line above decides, and the end is
        (line count, length of the last line) when no line below decides. */
  function GetRange(caret: Position, doc: Document): (r: Option<BlockRange>)
    requires caret.line < |doc|
    ensures r.None? <==>
              && !BracesAroundOnLine(doc[caret.line], caret.character)
              && NoBeginningFrom(doc, caret, caret.line)
              && NoEndFrom(doc, caret, caret.line)
    ensures r.Some? ==> r.value.start.line <= caret.line <= r.value.end.line
    ensures BracesAroundOnLine(doc[caret.line], caret.character) ==>
              && r.Some?
              && r.value.start.line == caret.line == r.value.end.line
              && 0 < r.value.start.character <= caret.character
              && doc[caret.line][r.value.start.character - 1] == '{'
              && caret.character <= r.value.end.character < |doc[caret.line]|
              && doc[caret.line][r.value.end.character] == '}'
              && r.value.sameLine == Flag(true)
    ensures BracesAroundOnLine(doc[caret.line], caret.character) ==> r == Some(SameLineRange(caret, doc))
    ensures !BracesAroundOnLine(doc[caret.line], caret.character) ==> r == ScannedRange(caret, doc)
    ensures !BracesAroundOnLine(doc[caret.line], caret.character) && r.Some? ==>
              ScannedStart(doc, caret, r.value.start) && ScannedEnd(doc, caret, r.value.end)
  {
    var first := InBetween(caret.character, doc[caret.line], "{", "}");
    if first.afterStart && first.beforeEnd then Some(SameLineRange(caret, doc))
    else ScannedRange(caret, doc)
  }
}
