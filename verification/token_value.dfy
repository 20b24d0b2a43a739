/** The Value Reader (`get_token_value`) and the Token Extractor
    (`token_at_cursor`). */
module TokenValue {
  import opened JsString
  import opened Positions
  import opened Patterns

  // ---------------------------------------------------------------------
  // Value Reader

  /** No colon at the indices `lo` up to `hi`. */
  ghost predicate NoColonIn(text: string, lo: int, hi: int) {
    forall m :: lo <= m < hi && 0 <= m < |text| ==> text[m] != ':'
  }

  /** `text.substring(p).indexOf(":")` finds the first colon at or after
      `p`, counted from `p`. */
  lemma ColonInSuffix(text: string, p: nat, c: nat)
    requires p <= c < |text| && text[c] == ':'
    ensures var colon := IndexOf(SubstringFrom(text, p), ":");
      0 <= colon && p + colon < |text| && text[p + colon] == ':' && NoColonIn(text, p, p + colon)
  {
    var suffix := SubstringFrom(text, p);
    assert suffix == text[p..];
    assert Occurs(suffix, ":", c - p);
    var colon := IndexOf(suffix, ":");
    assert suffix[colon] == ':';
    forall m | p <= m < p + colon
      ensures text[m] != ':'
    {
      assert !Occurs(suffix, ":", m - p);
      assert suffix[m - p] == text[m];
    }
  }

  /** Where the value of the first declaration of `token` in `text` begins:
      just after the first colon at or after the leftmost match of the
      declaration matcher. `None` when the matcher does not match. */
  function ValueOffset(text: string, token: string): (r: Option<nat>)
    ensures r.None? <==> !Declares(text, token)
    ensures r.Some? ==>
      exists p ::
        && IsFirstDecl(text, token, p) && p < r.value <= |text|
        && text[r.value - 1] == ':' && NoColonIn(text, p, r.value - 1)
  {
    match FirstDecl(text, token)
    case None => None
    case Some(p) =>
      DeclMatchHasColon(text, p, token);
      var c :| p <= c < |text| && text[c] == ':';
      ColonInSuffix(text, p, c);
      var colon := IndexOf(SubstringFrom(text, p), ":");
      assert IsFirstDecl(text, token, p);
      Some(p + colon + 1)
  }

  /** `v` is what the value terminator leaves of `rest`: the longest prefix
      of `rest` at no index of which a terminator match begins. */
  ghost predicate IsValueText(rest: string, v: string) {
    && |v| <= |rest| && v == rest[..|v|]
    && (forall i :: 0 <= i < |v| ==> !TerminatorAt(rest, i))
    && (|v| == |rest| || TerminatorAt(rest, |v|))
  }

  /** A value text holds no `;`, line feed or carriage return: each of them
      would begin a terminator match. */
  lemma ValueTextHasNoTerminatorChar(rest: string, v: string)
    requires IsValueText(rest, v)
    ensures forall i :: 0 <= i < |v| ==> v[i] != ';' && v[i] != '\n' && v[i] != '\r'
  {
    forall i | 0 <= i < |v|
      ensures v[i] != ';' && v[i] != '\n' && v[i] != '\r'
    {
      assert v[i] == rest[i];
      assert !TerminatorAt(rest, i);
    }
  }

  /** The value part of the text after the colon: everything before the
      leftmost terminator match, or all of it. */
  function CutAtTerminator(rest: string): (v: string)
    ensures IsValueText(rest, v)
  {
    match FirstTerminatorFrom(rest, 0)
    case None => rest
    case Some(q) => rest[..q]
  }

  /** `get_token_value` on the text of a block: the value of the first
      declaration of `token`, up to the first terminator (`;`, a line break,
      or a following `name:`), or to the end of the text when none follows;
      `None` when `token` is not declared. */
  function ReadValue(text: string, token: string): (r: Option<string>)
    ensures r.None? <==> !Declares(text, token)
    ensures r.Some? ==> ValueOffset(text, token).Some? && IsValueText(text[ValueOffset(text, token).value..], r.value)
    ensures r.Some? ==> forall i :: 0 <= i < |r.value| ==> r.value[i] != ';' && r.value[i] != '\n' && r.value[i] != '\r'
  {
    match ValueOffset(text, token)
    case None => None
    case Some(v) =>
      var value := CutAtTerminator(text[v..]);
      ValueTextHasNoTerminatorChar(text[v..], value);
      Some(value)
  }

  /** With no terminator after the colon the value runs to the end. */
  lemma ValueRunsToEndWithoutTerminator(text: string, token: string)
    requires ValueOffset(text, token).Some?
    requires forall i :: !TerminatorAt(text[ValueOffset(text, token).value..], i)
    ensures ReadValue(text, token) == Some(text[ValueOffset(text, token).value..])
  {
  }

  /** `get_token_value(selection, document, token)`: the Value Reader run on
      the text of the selection. */
  function GetTokenValue(sel: Selection, doc: Document, token: string): (r: Option<string>)
    requires InDocument(sel, doc)
    ensures r.None? <==> !Declares(ValueBetween(sel, doc), token)
    ensures r.Some? ==> forall i :: 0 <= i < |r.value| ==> r.value[i] != ';' && r.value[i] != '\n' && r.value[i] != '\r'
  {
    ReadValue(ValueBetween(sel, doc), token)
  }

  // ---------------------------------------------------------------------
  // Token Extractor

  /** `[;{}]`: the characters that end the walk to the left. */
  predicate IsDelimiter(c: char) {
    c == ';' || c == '{' || c == '}'
  }

  ghost predicate NoDelimiterIn(line: string, lo: int, hi: int) {
    forall m :: lo <= m < hi && 0 <= m < |line| ==> !IsDelimiter(line[m])
  }

  /** In `line[lo..hi]` no blank is followed by a non-blank. */
  ghost predicate BlanksTrail(line: string, lo: int, hi: int) {
    forall m, n :: lo <= m < n < hi && 0 <= m && n < |line| && IsBlank(line[m]) ==> IsBlank(line[n])
  }

  /** The walk that ended at `b` could not go further left: it reached the
      line start, a delimiter, or a blank in front of a non-blank. */
  ghost predicate StopsAt(line: string, b: int, c: int) {
    0 <= b <= c < |line| &&
    (b == 0 || IsDelimiter(line[b - 1]) || (IsBlank(line[b - 1]) && b < c && !IsBlank(line[b])))
  }

  /** `c` is the last colon strictly left of the caret. */
  ghost predicate IsLastColonBefore(line: string, caretChar: nat, c: int) {
    0 <= c < Clamp(caretChar, |line|) && line[c] == ':' &&
    forall m :: c < m < Clamp(caretChar, |line|) ==> line[m] != ':'
  }

  /** The loop of `token_at_cursor`, entered at index `i` with `reached`
      telling whether a non-blank character has been taken: the index where
      the token begins. */
  function WalkLeft(line: string, c: nat, i: nat, reached: bool): (b: nat)
    requires i <= c < |line|
    requires NoDelimiterIn(line, i, c) && BlanksTrail(line, i, c)
    requires reached <==> (i < c && !IsBlank(line[i]))
    decreases i
    ensures b <= i
    ensures NoDelimiterIn(line, b, c) && BlanksTrail(line, b, c)
    ensures StopsAt(line, b, c)
  {
    if i == 0 then 0
    else
      var ch := line[i - 1];
      if IsDelimiter(ch) then i
      else if IsBlank(ch) && reached then i
      else WalkLeft(line, c, i - 1, reached || !IsBlank(ch))
  }

  /** `line.substring(0, caret).lastIndexOf(":")`. */
  function ColonBeforeCaret(line: string, caretChar: nat): (r: int)
    ensures r == -1 <==> forall m :: 0 <= m < Clamp(caretChar, |line|) ==> line[m] != ':'
    ensures r != -1 ==> IsLastColonBefore(line, caretChar, r)
  {
    var left := Substring(line, 0, caretChar);
    assert left == line[..Clamp(caretChar, |line|)];
    OccursOneChar(left, ':');
    LastIndexOf(left, ":")
  }

  /** `token_at_cursor`: `None` exactly when no colon lies left of the caret;
      otherwise the text that ends right before the last such colon and
      reaches left up to a delimiter, the line start, or a blank in front of
      it. It has no delimiter in it, and no blank in it is followed by a
      non-blank: blanks between the name and the colon stay in. */
  function TokenAtCursor(line: string, caretChar: nat): (r: Option<string>)
    ensures r.None? <==> forall m :: 0 <= m < Clamp(caretChar, |line|) ==> line[m] != ':'
    ensures r.Some? ==>
      exists c ::
        && IsLastColonBefore(line, caretChar, c)
        && |r.value| <= c && r.value == line[c - |r.value|..c] && StopsAt(line, c - |r.value|, c)
    ensures r.Some? ==> forall i :: 0 <= i < |r.value| ==> !IsDelimiter(r.value[i])
    ensures r.Some? ==> forall i, j :: 0 <= i < j < |r.value| && IsBlank(r.value[i]) ==> IsBlank(r.value[j])
  {
    var colon := ColonBeforeCaret(line, caretChar);
    if colon == -1 then None
    else
      var b := WalkLeft(line, colon, colon, false);
      var tok := Substring(line, b, colon);
      TokenShape(line, b, colon, tok);
      Some(tok)
  }

  lemma TokenShape(line: string, b: nat, c: nat, tok: string)
    requires b <= c < |line| && tok == Substring(line, b, c)
    requires NoDelimiterIn(line, b, c) && BlanksTrail(line, b, c)
    ensures |tok| == c - b && tok == line[c - |tok|..c]
    ensures forall i :: 0 <= i < |tok| ==> !IsDelimiter(tok[i])
    ensures forall i, j :: 0 <= i < j < |tok| && IsBlank(tok[i]) ==> IsBlank(tok[j])
  {
    assert tok == line[b..c];
    assert forall i :: 0 <= i < |tok| ==> tok[i] == line[b + i];
  }
}
