/** The JavaScript string built-ins the engine leans on, with their edge cases
    written out: `substring` clamps and swaps its arguments, `indexOf` and
    `lastIndexOf` answer -1 on a miss, `trim` strips JavaScript white space from
    both ends, and `join` puts a separator between consecutive parts.

    A JavaScript string is a sequence of UTF-16 code units; here it is a
    `string`, one `char` per unit. */
module JsString {

  /** A JavaScript value that may be `null`. */
  datatype Option<+T> = None | Some(value: T) {
    /** `x || d` for a value that is either `null` or truthy. */
    function GetOr(default: T): T {
      match this
      case Some(v) => v
      case None => default
    }
  }

  /** `s` occurs in `t` starting at index `i`. */
  predicate Occurs(t: string, s: string, i: int) {
    0 <= i && i + |s| <= |t| && t[i..i + |s|] == s
  }

  /** A one-character string occurs exactly where that character is. */
  lemma OccursOneChar(t: string, c: char)
    ensures forall m :: 0 <= m < |t| ==> (Occurs(t, [c], m) <==> t[m] == c)
  {
    forall m | 0 <= m < |t|
      ensures Occurs(t, [c], m) <==> t[m] == c
    {
      assert t[m..m + 1] == [t[m]];
    }
  }

  /** An index argument of `substring`, clamped into `[0, len]`. */
  function Clamp(i: int, len: nat): (r: nat)
    ensures r <= len
    ensures 0 <= i <= len ==> r == i
    ensures i < 0 ==> r == 0
    ensures len < i ==> r == len
  {
    if i < 0 then 0 else if i > len then len else i
  }

  /** `s.substring(a, b)`: both indices clamped into `[0, |s|]`, and the
      smaller one taken as the start. */
  function Substring(s: string, a: int, b: int): (r: string)
    ensures 0 <= a <= b <= |s| ==> r == s[a..b]
    ensures 0 <= b <= a <= |s| ==> r == s[b..a]
    ensures |r| <= |s|
    ensures Clamp(a, |s|) <= Clamp(b, |s|) ==> r == s[Clamp(a, |s|)..Clamp(b, |s|)]
    ensures Clamp(b, |s|) <= Clamp(a, |s|) ==> r == s[Clamp(b, |s|)..Clamp(a, |s|)]
  {
    var lo := Clamp(a, |s|);
    var hi := Clamp(b, |s|);
    if lo <= hi then s[lo..hi] else s[hi..lo]
  }

  /** `s.substring(a)`: everything from the clamped index `a` on. */
  function SubstringFrom(s: string, a: int): (r: string)
    ensures r == s[Clamp(a, |s|)..]
  {
    Substring(s, a, |s|)
  }

  /** Reversed arguments give the same text. */
  lemma SubstringSymmetric(s: string, a: int, b: int)
    ensures Substring(s, a, b) == Substring(s, b, a)
  {
  }

  /** `t.indexOf(s, from)` for `from` not beyond the end: the first
      occurrence at or after `from`, or -1. */
  function IndexOfFrom(t: string, s: string, from: nat): (r: int)
    decreases |t| + 1 - from
    ensures r == -1 || (from <= r && Occurs(t, s, r))
    ensures r == -1 ==> forall i :: from <= i ==> !Occurs(t, s, i)
    ensures r != -1 ==> forall i :: from <= i < r ==> !Occurs(t, s, i)
  {
    if from + |s| > |t| then -1
    else if t[from..from + |s|] == s then from
    else IndexOfFrom(t, s, from + 1)
  }

  /** `t.indexOf(s)`: the first occurrence of `s` in `t`, or -1. */
  function IndexOf(t: string, s: string): (r: int)
    ensures r == -1 <==> forall i :: !Occurs(t, s, i)
    ensures r != -1 ==> Occurs(t, s, r) && forall i :: 0 <= i < r ==> !Occurs(t, s, i)
  {
    IndexOfFrom(t, s, 0)
  }

  /** The last occurrence of `s` in `t` starting at or below `i`, or -1. */
  function LastIndexAtOrBelow(t: string, s: string, i: int): (r: int)
    decreases i + 1
    ensures r == -1 || (r <= i && Occurs(t, s, r))
    ensures forall j :: r < j <= i ==> !Occurs(t, s, j)
  {
    if i < 0 then -1
    else if Occurs(t, s, i) then i
    else LastIndexAtOrBelow(t, s, i - 1)
  }

  /** `t.lastIndexOf(s)`: the last occurrence of `s` in `t`, or -1. */
  function LastIndexOf(t: string, s: string): (r: int)
    ensures r == -1 <==> forall i :: !Occurs(t, s, i)
    ensures r != -1 ==> Occurs(t, s, r) && forall i :: r < i ==> !Occurs(t, s, i)
  {
    LastIndexAtOrBelow(t, s, |t| - |s|)
  }

  /** The characters JavaScript's `trim` removes and `\s` matches: the
      WhiteSpace and LineTerminator characters of ECMAScript. */
  predicate IsJsSpace(c: char) {
    || c == '\t' || c == '\n' || c == '\U{B}' || c == '\U{C}' || c == '\r'
    || c == ' ' || c == '\U{A0}' || c == '\U{1680}'
    || ('\U{2000}' <= c <= '\U{200A}')
    || c == '\U{2028}' || c == '\U{2029}' || c == '\U{202F}' || c == '\U{205F}'
    || c == '\U{3000}' || c == '\U{FEFF}'
  }

  /** `s` with its leading white space removed. */
  function TrimStart(s: string): (r: string)
    ensures |r| <= |s| && r == s[|s| - |r|..]
    ensures forall k :: 0 <= k < |s| - |r| ==> IsJsSpace(s[k])
    ensures r != [] ==> !IsJsSpace(r[0])
  {
    if |s| > 0 && IsJsSpace(s[0]) then TrimStart(s[1..]) else s
  }

  /** `s` with its trailing white space removed. */
  function TrimEnd(s: string): (r: string)
    ensures |r| <= |s| && r == s[..|r|]
    ensures forall k :: |r| <= k < |s| ==> IsJsSpace(s[k])
    ensures r != [] ==> !IsJsSpace(r[|r| - 1])
  {
    if |s| > 0 && IsJsSpace(s[|s| - 1]) then TrimEnd(s[..|s| - 1]) else s
  }

  /** `s.trim()`: the slice of `s` left when the white space before and
      after it is removed; it neither starts nor ends with white space, and
      it is empty exactly when `s` is all white space. */
  function Trim(s: string): (r: string)
    ensures exists i :: && Occurs(s, r, i)
                        && (forall k :: 0 <= k < i ==> IsJsSpace(s[k]))
                        && (forall k :: i + |r| <= k < |s| ==> IsJsSpace(s[k]))
    ensures r != [] ==> !IsJsSpace(r[0]) && !IsJsSpace(r[|r| - 1])
    ensures r == [] <==> forall k :: 0 <= k < |s| ==> IsJsSpace(s[k])
  {
    var front := TrimStart(s);
    var r := TrimEnd(front);
    TrimmedSlice(s, front, r);
    r
  }

  /** Where the trimmed text sits in `s`, and that it is empty only when
      nothing is left after the leading white space. */
  lemma TrimmedSlice(s: string, front: string, r: string)
    requires |front| <= |s| && front == s[|s| - |front|..]
    requires |r| <= |front| && r == front[..|r|]
    requires front != [] ==> !IsJsSpace(front[0])
    requires forall k :: |r| <= k < |front| ==> IsJsSpace(front[k])
    ensures Occurs(s, r, |s| - |front|)
    ensures forall k :: |s| - |front| + |r| <= k < |s| ==> IsJsSpace(s[k])
    ensures r != [] ==> r[0] == front[0]
    ensures r == [] ==> front == []
  {
    var i := |s| - |front|;
    assert s[i..i + |r|] == front[..|r|];
    forall k | i + |r| <= k < |s|
      ensures IsJsSpace(s[k])
    {
      assert s[k] == front[k - i];
    }
  }

  /** The length of the leading white-space run of `s` (the host editor's
      `firstNonWhitespaceCharacterIndex` of a line). */
  function LeadingSpaceLength(s: string): (r: nat)
    ensures r <= |s|
    ensures forall k :: 0 <= k < r ==> IsJsSpace(s[k])
    ensures r < |s| ==> !IsJsSpace(s[r])
  {
    if |s| > 0 && IsJsSpace(s[0]) then 1 + LeadingSpaceLength(s[1..]) else 0
  }

  /** `parts.join(sep)`. */
  function Join(parts: seq<string>, sep: string): string {
    if |parts| == 0 then ""
    else if |parts| == 1 then parts[0]
    else parts[0] + sep + Join(parts[1..], sep)
  }
}
