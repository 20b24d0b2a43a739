/** The fixed regular expressions of the engine, each written as a
    hand-made scanner next to a declarative statement of what the pattern
    matches, with a lemma tying the two together.

    - The declaration matcher `(^|\{|\}|[ \r\t\n]+|;)TOKEN[ \t\r]*:`, where
      TOKEN is the escaped property name and so stands for itself.
    - The value terminator `[\w\-]+\W*\:|;|[\n\r]`.
    - `escape_regex`, which backslash-escapes every regex metacharacter.

    Only where a match BEGINS matters to the engine: it reads the matched
    text only to look it up again with `indexOf`, and because none of the
    alternatives above depends on what precedes it (except `^`, which can
    only match at 0), the first occurrence of the matched text is the
    leftmost match itself. */
module Patterns {
  import opened JsString

  /** `[ \t\r]` */
  predicate IsBlank(c: char) {
    c == ' ' || c == '\t' || c == '\r'
  }

  /** `[ \r\t\n]` */
  predicate IsBreakOrBlank(c: char) {
    c == ' ' || c == '\r' || c == '\t' || c == '\n'
  }

  /** `\w`, which without the `u` flag is ASCII only. */
  predicate IsWord(c: char) {
    ('a' <= c <= 'z') || ('A' <= c <= 'Z') || ('0' <= c <= '9') || c == '_'
  }

  /** `[\w\-]` */
  predicate IsWordOrDash(c: char) {
    IsWord(c) || c == '-'
  }

  /** `\{`, `\}` or `;`: the one-character boundaries before a property. */
  predicate IsBoundary(c: char) {
    c == '{' || c == '}' || c == ';'
  }

  // ---------------------------------------------------------------------
  // The declaration matcher, declaratively.

  /** From index `j` on: some `[ \t\r]*` and then a colon. */
  ghost predicate ColonAfterBlanks(t: string, j: int) {
    exists c :: 0 <= j <= c < |t| && t[c] == ':' && forall m :: j <= m < c ==> IsBlank(t[m])
  }

  /** `TOKEN[ \t\r]*:` matches at index `k`. */
  ghost predicate TokenThenColon(t: string, k: int, token: string) {
    Occurs(t, token, k) && ColonAfterBlanks(t, k + |token|)
  }

  /** Indices `lo` up to `hi` hold `[ \r\t\n]` characters only. */
  predicate AllBreakOrBlank(t: string, lo: int, hi: int) {
    0 <= lo <= hi <= |t| && forall m :: lo <= m < hi ==> IsBreakOrBlank(t[m])
  }

  /** The declaration matcher has a match beginning at index `p`. */
  ghost predicate DeclMatchAt(t: string, p: int, token: string) {
    || (p == 0 && TokenThenColon(t, 0, token))
    || (0 <= p < |t| && IsBoundary(t[p]) && TokenThenColon(t, p + 1, token))
    || (exists k :: p < k && AllBreakOrBlank(t, p, k) && TokenThenColon(t, k, token))
  }

  // ---------------------------------------------------------------------
  // The declaration matcher, as a scanner.

  predicate BlanksThenColon(t: string, j: nat)
    decreases |t| - j
  {
    j < |t| && (t[j] == ':' || (IsBlank(t[j]) && BlanksThenColon(t, j + 1)))
  }

  predicate TokenColonScan(t: string, k: nat, token: string) {
    k + |token| <= |t| && t[k..k + |token|] == token && BlanksThenColon(t, k + |token|)
  }

  predicate BreakRunThenToken(t: string, k: nat, token: string)
    decreases |t| - k
  {
    TokenColonScan(t, k, token) || (k < |t| && IsBreakOrBlank(t[k]) && BreakRunThenToken(t, k + 1, token))
  }

  predicate DeclScan(t: string, p: nat, token: string) {
    || (p == 0 && TokenColonScan(t, 0, token))
    || (p < |t| && IsBoundary(t[p]) && TokenColonScan(t, p + 1, token))
    || (p < |t| && IsBreakOrBlank(t[p]) && BreakRunThenToken(t, p + 1, token))
  }

  lemma {:induction false} BlanksThenColonMeaning(t: string, j: nat)
    decreases |t| - j
    ensures BlanksThenColon(t, j) <==> ColonAfterBlanks(t, j)
  {
    if j < |t| && t[j] != ':' && IsBlank(t[j]) {
      BlanksThenColonMeaning(t, j + 1);
      if ColonAfterBlanks(t, j) {
        var c :| 0 <= j <= c < |t| && t[c] == ':' && forall m :: j <= m < c ==> IsBlank(t[m]);
        assert c != j;
        assert ColonAfterBlanks(t, j + 1);
      }
    } else if j < |t| && t[j] == ':' {
      assert ColonAfterBlanks(t, j);
    } else {
      forall c | 0 <= j <= c < |t| && t[c] == ':'
        ensures j < c && !IsBlank(t[j])
      {
      }
    }
  }

  lemma TokenColonScanMeaning(t: string, k: nat, token: string)
    ensures TokenColonScan(t, k, token) <==> TokenThenColon(t, k, token)
  {
    BlanksThenColonMeaning(t, k + |token|);
  }

  lemma {:induction false} BreakRunThenTokenMeaning(t: string, k: nat, token: string)
    decreases |t| - k
    ensures BreakRunThenToken(t, k, token) <==>
      exists k' :: k <= k' && AllBreakOrBlank(t, k, k') && TokenThenColon(t, k', token)
  {
    TokenColonScanMeaning(t, k, token);
    if TokenColonScan(t, k, token) {
      assert AllBreakOrBlank(t, k, k);
    } else if k < |t| && IsBreakOrBlank(t[k]) {
      BreakRunThenTokenMeaning(t, k + 1, token);
      if BreakRunThenToken(t, k + 1, token) {
        var k' :| k + 1 <= k' && AllBreakOrBlank(t, k + 1, k') && TokenThenColon(t, k', token);
        assert AllBreakOrBlank(t, k, k');
      }
      if exists k' :: k <= k' && AllBreakOrBlank(t, k, k') && TokenThenColon(t, k', token) {
        var k' :| k <= k' && AllBreakOrBlank(t, k, k') && TokenThenColon(t, k', token);
        assert k' != k;
        assert AllBreakOrBlank(t, k + 1, k');
      }
    } else {
      forall k' | k <= k' && AllBreakOrBlank(t, k, k')
        ensures k' == k
      {
      }
    }
  }

  /** The scanner accepts exactly where the declaration matcher matches. */
  lemma DeclScanMeaning(t: string, p: nat, token: string)
    ensures DeclScan(t, p, token) <==> DeclMatchAt(t, p, token)
  {
    TokenColonScanMeaning(t, 0, token);
    TokenColonScanMeaning(t, p + 1, token);
    BreakAlternativeMeaning(t, p, token);
  }

  /** The white-space-run alternative, scanned from its first character. */
  lemma BreakAlternativeMeaning(t: string, p: nat, token: string)
    ensures (p < |t| && IsBreakOrBlank(t[p]) && BreakRunThenToken(t, p + 1, token)) <==>
            exists k :: p < k && AllBreakOrBlank(t, p, k) && TokenThenColon(t, k, token)
  {
    BreakRunThenTokenMeaning(t, p + 1, token);
    if exists k :: p < k && AllBreakOrBlank(t, p, k) && TokenThenColon(t, k, token) {
      var k :| p < k && AllBreakOrBlank(t, p, k) && TokenThenColon(t, k, token);
      assert IsBreakOrBlank(t[p]);
      assert AllBreakOrBlank(t, p + 1, k);
    }
    if p < |t| && IsBreakOrBlank(t[p]) && BreakRunThenToken(t, p + 1, token) {
      var k' :| p + 1 <= k' && AllBreakOrBlank(t, p + 1, k') && TokenThenColon(t, k', token);
      assert AllBreakOrBlank(t, p, k');
    }
  }

  /** The declaration matcher matches somewhere in `t`. */
  ghost predicate Declares(t: string, token: string) {
    exists p :: DeclMatchAt(t, p, token)
  }

  /** `p` is where the declaration matcher's leftmost match begins. */
  ghost predicate IsFirstDecl(t: string, token: string, p: int) {
    DeclMatchAt(t, p, token) && forall q :: 0 <= q < p ==> !DeclMatchAt(t, q, token)
  }

  /** A match of the declaration matcher ends in a colon. */
  lemma DeclMatchHasColon(t: string, p: nat, token: string)
    requires DeclMatchAt(t, p, token)
    ensures exists c :: p <= c < |t| && t[c] == ':'
  {
    var k: int;
    if p == 0 && TokenThenColon(t, 0, token) {
      k := 0;
    } else if 0 <= p < |t| && IsBoundary(t[p]) && TokenThenColon(t, p + 1, token) {
      k := p + 1;
    } else {
      k :| p < k && AllBreakOrBlank(t, p, k) && TokenThenColon(t, k, token);
    }
    var c :| 0 <= k + |token| <= c < |t| && t[c] == ':' && forall m :: k + |token| <= m < c ==> IsBlank(t[m]);
    assert p <= c;
  }

  /** The leftmost match of the declaration matcher at or after `p`. */
  function FirstDeclFrom(t: string, token: string, p: nat): (r: Option<nat>)
    decreases |t| + 1 - p
    ensures r.Some? ==> p <= r.value <= |t| && DeclMatchAt(t, r.value, token)
    ensures r.Some? ==> forall q :: p <= q < r.value ==> !DeclMatchAt(t, q, token)
    ensures r.None? ==> forall q :: p <= q ==> !DeclMatchAt(t, q, token)
  {
    if p > |t| then None
    else if DeclScan(t, p, token) then DeclScanMeaning(t, p, token); Some(p)
    else DeclScanMeaning(t, p, token); FirstDeclFrom(t, token, p + 1)
  }

  /** `t.match(matcher)[0]`'s position: the leftmost declaration of `token`
      in `t`, or `None` when the matcher does not match at all. */
  function FirstDecl(t: string, token: string): (r: Option<nat>)
    ensures r.None? <==> !Declares(t, token)
    ensures r.Some? ==> IsFirstDecl(t, token, r.value)
  {
    FirstDeclFrom(t, token, 0)
  }

  // ---------------------------------------------------------------------
  // The value terminator, declaratively.

  /** Indices `lo` up to `hi` hold `[\w\-]` characters only. */
  predicate AllWordOrDash(t: string, lo: int, hi: int) {
    0 <= lo <= hi <= |t| && forall m :: lo <= m < hi ==> IsWordOrDash(t[m])
  }

  /** Indices `lo` up to `hi` hold `\W` characters only. */
  predicate AllNonWord(t: string, lo: int, hi: int) {
    0 <= lo <= hi <= |t| && forall m :: lo <= m < hi ==> !IsWord(t[m])
  }

  /** `[\w\-]+\W*\:` matches at index `q`. */
  ghost predicate WordColonAt(t: string, q: int) {
    exists a, b :: q < a <= b < |t| && AllWordOrDash(t, q, a) && AllNonWord(t, a, b) && t[b] == ':'
  }

  /** The value terminator has a match beginning at index `q`. */
  ghost predicate TerminatorAt(t: string, q: int) {
    0 <= q < |t| && (t[q] == ';' || t[q] == '\n' || t[q] == '\r' || WordColonAt(t, q))
  }

  // ---------------------------------------------------------------------
  // The value terminator, as a scanner.

  predicate NonWordThenColon(t: string, i: nat)
    decreases |t| - i
  {
    i < |t| && (t[i] == ':' || (!IsWord(t[i]) && NonWordThenColon(t, i + 1)))
  }

  predicate WordsThenColon(t: string, i: nat)
    decreases |t| - i
  {
    NonWordThenColon(t, i) || (i < |t| && IsWordOrDash(t[i]) && WordsThenColon(t, i + 1))
  }

  predicate TerminatorScan(t: string, q: nat) {
    q < |t| && (t[q] == ';' || t[q] == '\n' || t[q] == '\r' || (IsWordOrDash(t[q]) && WordsThenColon(t, q + 1)))
  }

  lemma {:induction false} NonWordThenColonMeaning(t: string, i: nat)
    decreases |t| - i
    ensures NonWordThenColon(t, i) <==> exists b :: i <= b < |t| && AllNonWord(t, i, b) && t[b] == ':'
  {
    if i < |t| && t[i] == ':' {
      assert AllNonWord(t, i, i);
    } else if i < |t| && !IsWord(t[i]) {
      NonWordThenColonMeaning(t, i + 1);
      if NonWordThenColon(t, i + 1) {
        var b :| i + 1 <= b < |t| && AllNonWord(t, i + 1, b) && t[b] == ':';
        assert AllNonWord(t, i, b);
      }
      if exists b :: i <= b < |t| && AllNonWord(t, i, b) && t[b] == ':' {
        var b :| i <= b < |t| && AllNonWord(t, i, b) && t[b] == ':';
        assert AllNonWord(t, i + 1, b);
      }
    } else {
      forall b | i <= b < |t| && t[b] == ':'
        ensures i < b && IsWord(t[i])
      {
      }
    }
  }

  lemma {:induction false} WordsThenColonMeaning(t: string, i: nat)
    decreases |t| - i
    ensures WordsThenColon(t, i) <==>
      exists a, b :: i <= a <= b < |t| && AllWordOrDash(t, i, a) && AllNonWord(t, a, b) && t[b] == ':'
  {
    NonWordThenColonMeaning(t, i);
    if NonWordThenColon(t, i) {
      var b :| i <= b < |t| && AllNonWord(t, i, b) && t[b] == ':';
      assert AllWordOrDash(t, i, i);
    }
    if i < |t| && IsWordOrDash(t[i]) {
      WordsThenColonMeaning(t, i + 1);
      if WordsThenColon(t, i + 1) {
        var a, b :| i + 1 <= a <= b < |t| && AllWordOrDash(t, i + 1, a) && AllNonWord(t, a, b) && t[b] == ':';
        assert AllWordOrDash(t, i, a);
      }
    }
    if exists a, b :: i <= a <= b < |t| && AllWordOrDash(t, i, a) && AllNonWord(t, a, b) && t[b] == ':' {
      var a, b :| i <= a <= b < |t| && AllWordOrDash(t, i, a) && AllNonWord(t, a, b) && t[b] == ':';
      if a == i {
        assert NonWordThenColon(t, i);
      } else {
        assert IsWordOrDash(t[i]);
        WordsThenColonMeaning(t, i + 1);
        assert AllWordOrDash(t, i + 1, a);
      }
    }
  }

  /** The scanner accepts exactly where the value terminator matches. */
  lemma TerminatorScanMeaning(t: string, q: nat)
    ensures TerminatorScan(t, q) <==> TerminatorAt(t, q)
  {
    if q < |t| && IsWordOrDash(t[q]) {
      WordsThenColonMeaning(t, q + 1);
      if WordsThenColon(t, q + 1) {
        var a, b :| q + 1 <= a <= b < |t| && AllWordOrDash(t, q + 1, a) && AllNonWord(t, a, b) && t[b] == ':';
        assert AllWordOrDash(t, q, a);
      }
      if WordColonAt(t, q) {
        var a, b :| q < a <= b < |t| && AllWordOrDash(t, q, a) && AllNonWord(t, a, b) && t[b] == ':';
        assert AllWordOrDash(t, q + 1, a);
      }
    } else {
      assert forall a :: q < a ==> !AllWordOrDash(t, q, a);
    }
  }

  /** The leftmost match of the value terminator at or after `q`. */
  function FirstTerminatorFrom(t: string, q: nat): (r: Option<nat>)
    decreases |t| + 1 - q
    ensures r.Some? ==> q <= r.value < |t| && TerminatorAt(t, r.value)
    ensures r.Some? ==> forall i :: q <= i < r.value ==> !TerminatorAt(t, i)
    ensures r.None? ==> forall i :: q <= i ==> !TerminatorAt(t, i)
  {
    if q >= |t| then None
    else if TerminatorScan(t, q) then TerminatorScanMeaning(t, q); Some(q)
    else TerminatorScanMeaning(t, q); FirstTerminatorFrom(t, q + 1)
  }

  // ---------------------------------------------------------------------
  // escape_regex

  /** The characters `escape_regex` puts a backslash in front of:
      `-[]{}()*+?.,\^$|#` and everything `\s` matches. */
  predicate IsRegexSpecial(c: char) {
    || c == '-' || c == '[' || c == ']' || c == '{' || c == '}' || c == '(' || c == ')'
    || c == '*' || c == '+' || c == '?' || c == '.' || c == ',' || c == '\\' || c == '^'
    || c == '$' || c == '|' || c == '#' || IsJsSpace(c)
  }

  /** Pattern text `r` is a run of literal atoms spelling `s`: every
      metacharacter of `s` appears escaped, every other character as is. */
  predicate Spells(r: string, s: string)
    decreases |s|
  {
    if s == [] then r == []
    else if IsRegexSpecial(s[0]) then |r| >= 2 && r[0] == '\\' && r[1] == s[0] && Spells(r[2..], s[1..])
    else |r| >= 1 && r[0] == s[0] && Spells(r[1..], s[1..])
  }

  /** The number of metacharacters in `s`. */
  function CountSpecials(s: string): nat {
    if s == [] then 0
    else (if IsRegexSpecial(s[0]) then 1 else 0) + CountSpecials(s[1..])
  }

  /** `escape_regex(text)`: the pattern text that matches `text` literally,
      one escape per metacharacter. */
  function EscapeRegex(s: string): (r: string)
    ensures Spells(r, s)
    ensures |r| == |s| + CountSpecials(s)
  {
    if s == [] then []
    else
      var rest := EscapeRegex(s[1..]);
      var head := if IsRegexSpecial(s[0]) then ['\\', s[0]] else [s[0]];
      assert (head + rest)[|head|..] == rest;
      head + rest
  }

  /** Reading the pattern text back: a backslash makes the next character
      literal. */
  function UnescapeRegex(r: string): string
    decreases |r|
  {
    if r == [] then []
    else if r[0] == '\\' && |r| >= 2 then [r[1]] + UnescapeRegex(r[2..])
    else [r[0]] + UnescapeRegex(r[1..])
  }

  /** Escaping loses nothing: reading the escaped text back gives the
      original property name. */
  lemma {:induction false} EscapeRoundTrip(s: string)
    ensures UnescapeRegex(EscapeRegex(s)) == s
  {
    if s != [] {
      EscapeRoundTrip(s[1..]);
      var r := EscapeRegex(s);
      if IsRegexSpecial(s[0]) {
        assert r[2..] == EscapeRegex(s[1..]);
      } else {
        assert s[0] != '\\';
        assert r[1..] == EscapeRegex(s[1..]);
      }
    }
  }
}
