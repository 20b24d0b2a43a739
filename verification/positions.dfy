/** Document positions, their order, and the two ways the engine slices a
    span out of a document: as per-line pieces (`lines_between_selection`)
    and as one newline-joined string (`value_between_selection`). */
module Positions {
  import opened JsString

  /** A zero-based (line, character) position. */
  datatype Position = Position(line: nat, character: nat)

  /** Two positions in either order; the slicing functions order them. */
  datatype Selection = Selection(start: Position, end: Position)

  /** A document is its sequence of lines, without line terminators. */
  type Document = seq<string>

  /** One line of a sliced span: the document line number and the part of
      that line's text inside the span. */
  datatype LinePiece = LinePiece(line: nat, text: string)

  /** `range_greater_than(a, b)`: `a` comes strictly after `b`, comparing
      lines first and characters second. */
  predicate GreaterThan(a: Position, b: Position) {
    if a.line > b.line then true
    else if a.line < b.line then false
    else a.character > b.character
  }

  /** The comparison is a strict total order on positions. */
  lemma GreaterThanIsStrictTotalOrder(a: Position, b: Position, c: Position)
    ensures !GreaterThan(a, a)
    ensures GreaterThan(a, b) ==> !GreaterThan(b, a)
    ensures a != b ==> GreaterThan(a, b) || GreaterThan(b, a)
    ensures GreaterThan(a, b) && GreaterThan(b, c) ==> GreaterThan(a, c)
  {
  }

  /** The selection with its earlier position first. */
  function Ordered(sel: Selection): (r: Selection)
    ensures !GreaterThan(r.start, r.end)
    ensures (r.start == sel.start && r.end == sel.end) || (r.start == sel.end && r.end == sel.start)
  {
    if GreaterThan(sel.start, sel.end) then Selection(sel.end, sel.start) else sel
  }

  /** Both lines of the selection exist in the document (the host's
      `lineAt` fails on any other line). */
  predicate InDocument(sel: Selection, doc: Document) {
    sel.start.line < |doc| && sel.end.line < |doc|
  }

  /** The part of line `l` inside a span from `s` to `e` that covers more
      than one line. */
  function PieceText(doc: Document, s: Position, e: Position, l: nat): string
    requires s.line <= l <= e.line < |doc|
  {
    if l == s.line then SubstringFrom(doc[l], s.character)
    else if l == e.line then Substring(doc[l], 0, e.character)
    else doc[l]
  }

  /** The pieces of lines `l` through `e.line`. */
  function PiecesFrom(doc: Document, s: Position, e: Position, l: nat): (r: seq<LinePiece>)
    requires s.line <= l <= e.line + 1
    requires e.line < |doc|
    decreases e.line + 1 - l
    ensures |r| == e.line + 1 - l
    ensures forall i :: 0 <= i < |r| ==> r[i] == LinePiece(l + i, PieceText(doc, s, e, l + i))
  {
    if l > e.line then []
    else [LinePiece(l, PieceText(doc, s, e, l))] + PiecesFrom(doc, s, e, l + 1)
  }

  /** `lines_between_selection`: one piece per line of the span, numbered
      consecutively from the earlier line. The earlier line contributes its
      text from the start character on, the later line its text up to the
      end character, every line between them its whole text; a span on one
      line contributes the text between the two characters. */
  function LinesBetween(sel: Selection, doc: Document): (r: seq<LinePiece>)
    requires InDocument(sel, doc)
    ensures var o := Ordered(sel);
      && |r| == o.end.line - o.start.line + 1
      && (forall i :: 0 <= i < |r| ==> r[i].line == o.start.line + i)
      && (forall i :: 0 < i < |r| - 1 ==> r[i].text == doc[r[i].line])
      && (o.start.line == o.end.line ==>
            var t := doc[o.start.line];
            r[0].text == t[Clamp(o.start.character, |t|)..Clamp(o.end.character, |t|)])
      && (o.start.line < o.end.line ==>
            && r[0].text == doc[o.start.line][Clamp(o.start.character, |doc[o.start.line]|)..]
            && r[|r| - 1].text == doc[o.end.line][..Clamp(o.end.character, |doc[o.end.line]|)])
  {
    var o := Ordered(sel);
    if o.start.line == o.end.line then
      [LinePiece(o.start.line, Substring(doc[o.start.line], o.start.character, o.end.character))]
    else
      var r := PiecesFrom(doc, o.start, o.end, o.start.line);
      PiecesFromShape(doc, o.start, o.end);
      r
  }

  /** The pieces of a multi-line span: consecutive lines, whole lines in the
      middle, the first line from the start character, the last up to the
      end character. */
  lemma PiecesFromShape(doc: Document, s: Position, e: Position)
    requires s.line < e.line < |doc|
    ensures var r := PiecesFrom(doc, s, e, s.line);
      && |r| == e.line - s.line + 1
      && (forall i :: 0 <= i < |r| ==> r[i].line == s.line + i)
      && (forall i :: 0 < i < |r| - 1 ==> r[i].text == doc[r[i].line])
      && r[0].text == doc[s.line][Clamp(s.character, |doc[s.line]|)..]
      && r[|r| - 1].text == doc[e.line][..Clamp(e.character, |doc[e.line]|)]
  {
    var r := PiecesFrom(doc, s, e, s.line);
    assert r[0] == LinePiece(s.line, PieceText(doc, s, e, s.line));
    var last := doc[e.line];
    assert PieceText(doc, s, e, e.line) == Substring(last, 0, e.character) == last[..Clamp(e.character, |last|)];
    assert r[|r| - 1] == LinePiece(e.line, PieceText(doc, s, e, e.line));
  }

  /** The text of lines `l` through `e.line` of a multi-line span, each
      separated from the next by a newline. */
  function ValueFrom(doc: Document, s: Position, e: Position, l: nat): string
    requires s.line <= l <= e.line < |doc|
    decreases e.line - l
  {
    if l == e.line then PieceText(doc, s, e, l)
    else PieceText(doc, s, e, l) + "\n" + ValueFrom(doc, s, e, l + 1)
  }

  /** `value_between_selection`: the text of the span as one string. */
  function ValueBetween(sel: Selection, doc: Document): string
    requires InDocument(sel, doc)
  {
    var o := Ordered(sel);
    if o.start.line == o.end.line then
      Substring(doc[o.start.line], o.start.character, o.end.character)
    else
      ValueFrom(doc, o.start, o.end, o.start.line)
  }

  /** The texts of a list of pieces. */
  function Texts(pieces: seq<LinePiece>): (r: seq<string>)
    ensures |r| == |pieces|
    ensures forall i :: 0 <= i < |r| ==> r[i] == pieces[i].text
  {
    seq(|pieces|, i requires 0 <= i < |pieces| => pieces[i].text)
  }

  /** Swapping a selection's two positions changes neither slice. */
  lemma SliceIgnoresDirection(sel: Selection, doc: Document)
    requires InDocument(sel, doc)
    ensures LinesBetween(Selection(sel.end, sel.start), doc) == LinesBetween(sel, doc)
    ensures ValueBetween(Selection(sel.end, sel.start), doc) == ValueBetween(sel, doc)
  {
    var swapped := Selection(sel.end, sel.start);
    GreaterThanIsStrictTotalOrder(sel.start, sel.end, sel.start);
    if sel.start == sel.end {
      assert swapped == sel;
    } else {
      assert Ordered(swapped) == Ordered(sel);
    }
  }

  lemma {:induction false} ValueFromIsJoin(doc: Document, s: Position, e: Position, l: nat)
    requires s.line <= l <= e.line < |doc|
    decreases e.line - l
    ensures ValueFrom(doc, s, e, l) == Join(Texts(PiecesFrom(doc, s, e, l)), "\n")
  {
    var texts := Texts(PiecesFrom(doc, s, e, l));
    if l < e.line {
      ValueFromIsJoin(doc, s, e, l + 1);
      assert texts[1..] == Texts(PiecesFrom(doc, s, e, l + 1));
    }
  }

  /** The single string is the pieces joined with newlines. */
  lemma ValueIsJoinedLines(sel: Selection, doc: Document)
    requires InDocument(sel, doc)
    ensures ValueBetween(sel, doc) == Join(Texts(LinesBetween(sel, doc)), "\n")
  {
    var o := Ordered(sel);
    if o.start.line != o.end.line {
      ValueFromIsJoin(doc, o.start, o.end, o.start.line);
    }
  }
}
