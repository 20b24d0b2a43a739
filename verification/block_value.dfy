/** Where the value `get_token_value` reads from a whole block lies on the
    block's lines.

    The Value Reader runs on the block's lines joined with `"\n"`, while
    the Edit Planner looks for declarations line by line. The two agree:
    the leftmost declaration in the joined text belongs to the first line
    that declares the property, its colon is the one that line's own
    reading finds, and the value after it stops at the latest at the line
    break that ends the line. So the value is a slice of that line, right
    after that line's value offset. The one condition is that the property
    name holds no line break: a name with one could match across lines. */
module BlockValue {
  import opened JsString
  import opened Patterns
  import opened TokenValue

  /** `t` holds no line feed. */
  predicate NoLineBreak(t: string) {
    forall k :: 0 <= k < |t| ==> t[k] != '\n'
  }

  // ---------------------------------------------------------------------
  // Where the parts sit in the joined text

  /** Where part `i` begins in `Join(parts, "\n")`. */
  function PartStart(parts: seq<string>, i: nat): nat
    requires i < |parts|
  {
    if i == 0 then 0 else |parts[0]| + 1 + PartStart(parts[1..], i - 1)
  }

  /** Part `i` sits at `PartStart(parts, i)` of the joined text, followed by
      a line break, or by the end of the text when it is the last part. */
  lemma {:induction false} JoinLayout(parts: seq<string>, i: nat)
    requires i < |parts|
    ensures var j := Join(parts, "\n"); var s := PartStart(parts, i);
      && s + |parts[i]| <= |j|
      && j[s..s + |parts[i]|] == parts[i]
      && (i + 1 < |parts| ==> s + |parts[i]| < |j| && j[s + |parts[i]|] == '\n')
      && (i + 1 == |parts| ==> s + |parts[i]| == |j|)
  {
    if |parts| > 1 {
      var rest := Join(parts[1..], "\n");
      var j := Join(parts, "\n");
      assert j == parts[0] + "\n" + rest;
      var off := |parts[0]| + 1;
      assert j[off..] == rest;
      if i > 0 {
        JoinLayout(parts[1..], i - 1);
        assert parts[1..][i - 1] == parts[i];
        var s' := PartStart(parts[1..], i - 1);
        assert j[off + s'..off + s' + |parts[i]|] == rest[s'..s' + |parts[i]|];
      }
    }
  }

  // ---------------------------------------------------------------------
  // The declaration matcher on joined texts

  /** A match of `TOKEN[ \t\r]*:` survives appending text. */
  lemma TokenThenColonExtends(t: string, x: string, k: int, token: string)
    requires TokenThenColon(t, k, token)
    ensures TokenThenColon(t + x, k, token)
  {
    var c :| 0 <= k + |token| <= c < |t| && t[c] == ':' && forall m :: k + |token| <= m < c ==> IsBlank(t[m]);
    assert (t + x)[k..k + |token|] == t[k..k + |token|];
    assert (t + x)[c] == ':';
    forall m | k + |token| <= m < c
      ensures IsBlank((t + x)[m])
    {
      assert (t + x)[m] == t[m];
    }
  }

  /** A match of the declaration matcher survives appending text. */
  lemma DeclMatchExtends(t: string, x: string, p: int, token: string)
    requires DeclMatchAt(t, p, token)
    ensures DeclMatchAt(t + x, p, token)
  {
    if p == 0 && TokenThenColon(t, 0, token) {
      TokenThenColonExtends(t, x, 0, token);
    } else if 0 <= p < |t| && IsBoundary(t[p]) && TokenThenColon(t, p + 1, token) {
      TokenThenColonExtends(t, x, p + 1, token);
    } else {
      var k :| p < k && AllBreakOrBlank(t, p, k) && TokenThenColon(t, k, token);
      TokenThenColonExtends(t, x, k, token);
      assert AllBreakOrBlank(t + x, p, k);
    }
  }

  /** A match of `TOKEN[ \t\r]*:` in `t` is one at the same place of
      `pre + t`. */
  lemma TokenThenColonShiftIn(pre: string, t: string, k: nat, token: string)
    requires TokenThenColon(t, k, token)
    ensures TokenThenColon(pre + t, |pre| + k, token)
  {
    var u := pre + t;
    var n := |pre|;
    assert u[n + k..n + k + |token|] == t[k..k + |token|];
    var c :| 0 <= k + |token| <= c < |t| && t[c] == ':' && forall m :: k + |token| <= m < c ==> IsBlank(t[m]);
    assert u[n + c] == ':';
    forall m | n + k + |token| <= m < n + c
      ensures IsBlank(u[m])
    {
      assert u[m] == t[m - n];
    }
    assert ColonAfterBlanks(u, n + k + |token|);
  }

  /** A match of `TOKEN[ \t\r]*:` in `pre + t` past `pre` is one of `t`. */
  lemma TokenThenColonShiftOut(pre: string, t: string, k: nat, token: string)
    requires TokenThenColon(pre + t, |pre| + k, token)
    ensures TokenThenColon(t, k, token)
  {
    var u := pre + t;
    var n := |pre|;
    assert u[n + k..n + k + |token|] == t[k..k + |token|];
    var c :| 0 <= n + k + |token| <= c < |u| && u[c] == ':' && forall m :: n + k + |token| <= m < c ==> IsBlank(u[m]);
    assert t[c - n] == ':';
    forall m | k + |token| <= m < c - n
      ensures IsBlank(t[m])
    {
      assert t[m] == u[n + m];
    }
    assert ColonAfterBlanks(t, k + |token|);
  }

  /** `TOKEN[ \t\r]*:` matches at `k` of `t` exactly when it matches at
      the same place of `pre + t`. */
  lemma TokenThenColonShift(pre: string, t: string, k: nat, token: string)
    ensures TokenThenColon(pre + t, |pre| + k, token) <==> TokenThenColon(t, k, token)
  {
    if TokenThenColon(pre + t, |pre| + k, token) {
      TokenThenColonShiftOut(pre, t, k, token);
    }
    if TokenThenColon(t, k, token) {
      TokenThenColonShiftIn(pre, t, k, token);
    }
  }

  /** A run of `[ \r\t\n]` in `t` is a run at the same place of `pre + t`. */
  lemma BreakRunShift(pre: string, t: string, p: nat, k: nat)
    ensures AllBreakOrBlank(pre + t, |pre| + p, |pre| + k) <==> AllBreakOrBlank(t, p, k)
  {
    var u := pre + t;
    if p <= k <= |t| {
      assert forall m :: p <= m < k ==> u[|pre| + m] == t[m];
      if AllBreakOrBlank(t, p, k) {
        forall m | |pre| + p <= m < |pre| + k
          ensures IsBreakOrBlank(u[m])
        {
          assert u[m] == t[m - |pre|];
        }
      }
    }
  }

  /** A match of the matcher's line-break alternative in `pre + t` that
      begins inside `t` is one of `t`. */
  lemma RunMatchShiftLeft(pre: string, t: string, q: nat, k: nat, token: string)
    requires |pre| + q < k && AllBreakOrBlank(pre + t, |pre| + q, k) && TokenThenColon(pre + t, k, token)
    ensures DeclMatchAt(t, q, token)
  {
    TokenThenColonShiftOut(pre, t, k - |pre|, token);
    BreakRunShift(pre, t, q, k - |pre|);
    assert AllBreakOrBlank(t, q, k - |pre|);
  }

  /** A match in `pre + t` that begins inside `t` is a match of `t`. */
  lemma DeclMatchShiftLeft(pre: string, t: string, q: nat, token: string)
    ensures DeclMatchAt(pre + t, |pre| + q, token) ==> DeclMatchAt(t, q, token)
  {
    var u := pre + t;
    var n := |pre|;
    if n + q == 0 && TokenThenColon(u, 0, token) {
      TokenThenColonShiftOut(pre, t, 0, token);
    } else if n + q < |u| && IsBoundary(u[n + q]) && TokenThenColon(u, n + q + 1, token) {
      TokenThenColonShiftOut(pre, t, q + 1, token);
      assert t[q] == u[n + q];
    } else if exists k :: n + q < k && AllBreakOrBlank(u, n + q, k) && TokenThenColon(u, k, token) {
      var k :| n + q < k && AllBreakOrBlank(u, n + q, k) && TokenThenColon(u, k, token);
      RunMatchShiftLeft(pre, t, q, k, token);
    }
  }

  /** A match of `t` is a match at the same place of `pre + t`, unless it
      rests on the start of text (`^`), which `pre + t` has elsewhere. */
  lemma DeclMatchShiftRight(pre: string, t: string, q: nat, token: string)
    ensures DeclMatchAt(t, q, token) ==>
              DeclMatchAt(pre + t, |pre| + q, token) || (q == 0 && TokenThenColon(t, 0, token))
  {
    var u := pre + t;
    var n := |pre|;
    if DeclMatchAt(t, q, token) && !(q == 0 && TokenThenColon(t, 0, token)) {
      if q < |t| && IsBoundary(t[q]) && TokenThenColon(t, q + 1, token) {
        TokenThenColonShift(pre, t, q + 1, token);
        assert u[n + q] == t[q];
      } else {
        var k :| q < k && AllBreakOrBlank(t, q, k) && TokenThenColon(t, k, token);
        TokenThenColonShift(pre, t, k, token);
        BreakRunShift(pre, t, q, k);
      }
    }
  }

  /** Where `TOKEN[ \t\r]*:` matches at or before the line break that
      follows `a`, the match lies inside `a`: neither the name nor the
      blanks nor the colon can be a line break. */
  lemma TokenThenColonBeforeBreak(a: string, b: string, k: nat, token: string)
    requires NoLineBreak(token) && k <= |a|
    ensures TokenThenColon(a + "\n" + b, k, token) ==> TokenThenColon(a, k, token)
  {
    var j := a + "\n" + b;
    if TokenThenColon(j, k, token) {
      var c :| 0 <= k + |token| <= c < |j| && j[c] == ':' && forall m :: k + |token| <= m < c ==> IsBlank(j[m]);
      assert j[|a|] == '\n';
      assert forall m :: k <= m < k + |token| ==> j[m] == j[k..k + |token|][m - k];
      assert forall m :: k <= m < k + |token| ==> j[m] != '\n';
      assert c < |a|;
      assert j[k..k + |token|] == a[k..k + |token|];
      assert a[c] == ':';
      forall m | k + |token| <= m < c
        ensures IsBlank(a[m])
      {
        assert a[m] == j[m];
      }
    }
  }

  /** A match of the matcher's boundary alternative that begins before the
      line break lies inside `a`. */
  lemma BoundaryMatchBeforeBreak(a: string, b: string, p: nat, token: string)
    requires NoLineBreak(token) && p <= |a|
    requires p < |a + "\n" + b| && IsBoundary((a + "\n" + b)[p]) && TokenThenColon(a + "\n" + b, p + 1, token)
    ensures DeclMatchAt(a, p, token)
  {
    var j := a + "\n" + b;
    assert j[|a|] == '\n';
    assert p < |a|;
    TokenThenColonBeforeBreak(a, b, p + 1, token);
    assert a[p] == j[p];
  }

  /** A match of the matcher's line-break alternative whose name begins at
      or before the line break lies inside `a`. */
  lemma RunMatchBeforeBreak(a: string, b: string, p: nat, k: nat, token: string)
    requires NoLineBreak(token) && p < k <= |a|
    requires AllBreakOrBlank(a + "\n" + b, p, k) && TokenThenColon(a + "\n" + b, k, token)
    ensures DeclMatchAt(a, p, token)
  {
    var j := a + "\n" + b;
    TokenThenColonBeforeBreak(a, b, k, token);
    forall m | p <= m < k
      ensures IsBreakOrBlank(a[m])
    {
      assert a[m] == j[m];
    }
    assert AllBreakOrBlank(a, p, k);
  }

  /** A match of the matcher's line-break alternative whose name begins
      after the line break runs across it to a match at the start of `b`. */
  lemma RunMatchAcrossBreak(a: string, b: string, p: nat, k: nat, token: string)
    requires p <= |a| < k
    requires AllBreakOrBlank(a + "\n" + b, p, k) && TokenThenColon(a + "\n" + b, k, token)
    ensures AllBreakOrBlank(a + "\n" + b, p, |a| + 1) && DeclMatchAt(b, 0, token)
  {
    var j := a + "\n" + b;
    var off := |a| + 1;
    assert j == (a + "\n") + b;
    TokenThenColonShiftOut(a + "\n", b, k - off, token);
    BreakRunShift(a + "\n", b, 0, k - off);
    assert AllBreakOrBlank(b, 0, k - off);
    if k - off == 0 {
      assert TokenThenColon(b, 0, token);
    } else {
      assert 0 < k - off && AllBreakOrBlank(b, 0, k - off) && TokenThenColon(b, k - off, token);
    }
  }

  /** A match of the declaration matcher in `a + "\n" + b` that begins at
      or before the line break is either a match of `a`, or a run of line
      breaks and blanks reaching across the break to a match at the start
      of `b`. */
  lemma JoinedMatchBeforeBreak(a: string, b: string, p: nat, token: string)
    requires NoLineBreak(token) && p <= |a|
    ensures DeclMatchAt(a + "\n" + b, p, token) ==>
      || DeclMatchAt(a, p, token)
      || (AllBreakOrBlank(a + "\n" + b, p, |a| + 1) && DeclMatchAt(b, 0, token))
  {
    var j := a + "\n" + b;
    if p == 0 && TokenThenColon(j, 0, token) {
      TokenThenColonBeforeBreak(a, b, 0, token);
    } else if p < |j| && IsBoundary(j[p]) && TokenThenColon(j, p + 1, token) {
      BoundaryMatchBeforeBreak(a, b, p, token);
    } else if exists k :: p < k && AllBreakOrBlank(j, p, k) && TokenThenColon(j, k, token) {
      var k :| p < k && AllBreakOrBlank(j, p, k) && TokenThenColon(j, k, token);
      if k <= |a| {
        RunMatchBeforeBreak(a, b, p, k, token);
      } else {
        RunMatchAcrossBreak(a, b, p, k, token);
      }
    }
  }

  /** A declaration at the very start of `b` makes the line break in front
      of it begin a match of `a + "\n" + b`. */
  lemma BreakBeginsMatch(a: string, b: string, token: string)
    ensures TokenThenColon(b, 0, token) ==> DeclMatchAt(a + "\n" + b, |a|, token)
  {
    var j := a + "\n" + b;
    assert j == (a + "\n") + b;
    TokenThenColonShift(a + "\n", b, 0, token);
    assert j[|a|] == '\n';
    assert AllBreakOrBlank(j, |a|, |a| + 1);
  }

  // ---------------------------------------------------------------------
  // The leftmost declaration and its colon on joined texts

  /** When `a` declares the token, its leftmost declaration and the colon
      after it are the joined text's too. */
  lemma HeadFirstDecl(a: string, b: string, token: string, p: nat, c: nat)
    requires NoLineBreak(token)
    requires IsFirstDecl(a, token, p) && p <= c < |a| && a[c] == ':' && NoColonIn(a, p, c)
    ensures var j := a + "\n" + b;
      IsFirstDecl(j, token, p) && j[c] == ':' && NoColonIn(j, p, c)
  {
    var j := a + "\n" + b;
    assert j == a + ("\n" + b);
    DeclMatchExtends(a, "\n" + b, p, token);
    assert j[c] == ':';
    forall q: nat | q < p
      ensures !DeclMatchAt(j, q, token)
    {
      JoinedMatchBeforeBreak(a, b, q, token);
      assert !DeclMatchAt(a, q, token);
    }
    forall m | p <= m < c
      ensures j[m] != ':'
    {
      assert j[m] == a[m];
    }
  }

  /** When `a` does not declare the token, a leftmost declaration of the
      joined text that begins before the line break reaches across it: `b`
      then declares the token at its start, and the first colon after the
      declaration is `b`'s first colon. */
  lemma TailFirstDeclAcross(a: string, b: string, token: string, pj: nat, p: nat, c: nat)
    requires NoLineBreak(token) && !Declares(a, token)
    requires IsFirstDecl(a + "\n" + b, token, pj) && pj <= |a|
    requires IsFirstDecl(b, token, p) && p <= c < |b| && b[c] == ':' && NoColonIn(b, p, c)
    ensures var j := a + "\n" + b;
      p == 0 && j[|a| + 1 + c] == ':' && NoColonIn(j, pj, |a| + 1 + c)
  {
    var j := a + "\n" + b;
    var off := |a| + 1;
    JoinedMatchBeforeBreak(a, b, pj, token);
    assert !DeclMatchAt(a, pj, token);
    assert AllBreakOrBlank(j, pj, off) && DeclMatchAt(b, 0, token);
    assert j[off..] == b;
    forall m | pj <= m < off + c
      ensures j[m] != ':'
    {
      if m >= off {
        assert j[m] == b[m - off];
      }
    }
  }

  /** With no declaration at or before the line break, none of the joined
      text begins before `b`'s leftmost one, moved past `a` and the break. */
  lemma NoDeclBeforeShifted(a: string, b: string, token: string, p: int)
    requires forall q :: 0 <= q <= |a| ==> !DeclMatchAt(a + "\n" + b, q, token)
    requires forall q :: 0 <= q < p ==> !DeclMatchAt(b, q, token)
    ensures forall q :: 0 <= q < |a| + 1 + p ==> !DeclMatchAt(a + "\n" + b, q, token)
  {
    var j := a + "\n" + b;
    assert j == (a + "\n") + b;
    forall q: nat | |a| < q < |a| + 1 + p
      ensures !DeclMatchAt(j, q, token)
    {
      DeclMatchShiftLeft(a + "\n", b, q - (|a| + 1), token);
    }
  }

  /** A declaration of `b` is one of the joined text, moved past `a` and the
      line break, unless the break itself begins a match. */
  lemma DeclShifted(a: string, b: string, token: string, p: nat)
    requires DeclMatchAt(b, p, token)
    ensures DeclMatchAt(a + "\n" + b, |a| + 1 + p, token) || DeclMatchAt(a + "\n" + b, |a|, token)
  {
    assert a + "\n" + b == (a + "\n") + b;
    DeclMatchShiftRight(a + "\n", b, p, token);
    BreakBeginsMatch(a, b, token);
  }

  /** A colon of `b`, and a colon-free stretch before it, are found again
      in the joined text past `a` and the line break. */
  lemma ColonShifted(a: string, b: string, p: nat, c: nat)
    requires p <= c < |b| && b[c] == ':' && NoColonIn(b, p, c)
    ensures var j := a + "\n" + b; var off := |a| + 1;
      j[off + c] == ':' && NoColonIn(j, off + p, off + c)
  {
    var j := a + "\n" + b;
    var off := |a| + 1;
    assert j[off..] == b;
    forall m | off + p <= m < off + c
      ensures j[m] != ':'
    {
      assert j[m] == b[m - off];
    }
  }

  /** When no declaration of the joined text begins at or before the line
      break, its leftmost declaration is `b`'s, moved past `a` and the
      break. */
  lemma TailFirstDeclShifted(a: string, b: string, token: string, p: nat, c: nat)
    requires forall q :: 0 <= q <= |a| ==> !DeclMatchAt(a + "\n" + b, q, token)
    requires IsFirstDecl(b, token, p) && p <= c < |b| && b[c] == ':' && NoColonIn(b, p, c)
    ensures var j := a + "\n" + b; var off := |a| + 1;
      IsFirstDecl(j, token, off + p) && j[off + c] == ':' && NoColonIn(j, off + p, off + c)
  {
    NoDeclBeforeShifted(a, b, token, p);
    DeclShifted(a, b, token, p);
    ColonShifted(a, b, p, c);
  }

  /** Some match beginning at `q` gives a leftmost one, at or before `q`. */
  lemma LeftmostDecl(t: string, token: string, q: int) returns (p: nat)
    requires DeclMatchAt(t, q, token)
    ensures IsFirstDecl(t, token, p) && p <= q
  {
    p := FirstDecl(t, token).value;
  }

  // ---------------------------------------------------------------------
  // The value offset on joined texts

  /** `p` is where the leftmost declaration of `token` in `t` begins and
      `v` is one past the first colon after it: the offset the Value Reader
      reads from. */
  ghost predicate ValueOffsetVia(t: string, token: string, p: int, v: int) {
    IsFirstDecl(t, token, p) && p < v <= |t| && t[v - 1] == ':' && NoColonIn(t, p, v - 1)
  }

  /** The leftmost declaration behind the value offset `ValueOffset`
      computes. */
  lemma ValueOffsetWitness(t: string, token: string) returns (p: int, v: nat)
    requires Declares(t, token)
    ensures ValueOffset(t, token) == Some(v) && ValueOffsetVia(t, token, p, v)
  {
    v := ValueOffset(t, token).value;
    p :| IsFirstDecl(t, token, p) && p < v <= |t| && t[v - 1] == ':' && NoColonIn(t, p, v - 1);
  }

  /** A match of the declaration matcher begins at a real index. */
  lemma DeclMatchAtNatural(t: string, p: int, token: string)
    requires DeclMatchAt(t, p, token)
    ensures 0 <= p
  {
  }

  /** There is one leftmost declaration. */
  lemma LeftmostUnique(t: string, token: string, p: int, p': int)
    requires IsFirstDecl(t, token, p) && IsFirstDecl(t, token, p')
    ensures p == p'
  {
    DeclMatchAtNatural(t, p, token);
    DeclMatchAtNatural(t, p', token);
  }

  /** `FirstDecl` finds the leftmost declaration. */
  lemma FirstDeclIs(t: string, token: string, p: int)
    requires IsFirstDecl(t, token, p)
    ensures FirstDecl(t, token) == Some(p)
  {
    assert Declares(t, token);
    LeftmostUnique(t, token, p, FirstDecl(t, token).value);
  }

  /** `text.substring(p).indexOf(":")` finds the first colon at or after
      `p`, counted from `p`. */
  lemma ColonIndexIs(t: string, p: nat, c: nat)
    requires p <= c < |t| && t[c] == ':' && NoColonIn(t, p, c)
    ensures IndexOf(SubstringFrom(t, p), ":") == c - p
  {
    var u := SubstringFrom(t, p);
    assert u == t[p..];
    assert u[c - p..c - p + 1] == ":";
    assert Occurs(u, ":", c - p);
    var r := IndexOf(u, ":");
    assert r != -1 && r <= c - p;
    assert Occurs(u, ":", r);
    assert u[r..r + 1] == [u[r]];
    assert u[r] == t[p + r];
  }

  /** `ValueOffset` reads on from the leftmost declaration `p`. */
  lemma ValueOffsetFrom(t: string, token: string, p: nat)
    requires FirstDecl(t, token) == Some(p)
    ensures ValueOffset(t, token) == Some(p + IndexOf(SubstringFrom(t, p), ":") + 1)
  {
  }

  /** `ValueOffsetVia` pins down what `ValueOffset` computes. */
  lemma ValueOffsetIs(t: string, token: string, p: int, v: int)
    requires ValueOffsetVia(t, token, p, v)
    ensures ValueOffset(t, token) == Some(v)
  {
    DeclMatchAtNatural(t, p, token);
    FirstDeclIs(t, token, p);
    ColonIndexIs(t, p, v - 1);
    ValueOffsetFrom(t, token, p);
  }

  /** When `a` declares the token, a line break and more text after it
      leave the value offset where it is. */
  lemma HeadValueOffset(a: string, b: string, token: string, p: int, v: int)
    requires NoLineBreak(token) && ValueOffsetVia(a, token, p, v)
    ensures ValueOffsetVia(a + "\n" + b, token, p, v)
  {
    HeadFirstDecl(a, b, token, p, v - 1);
  }

  /** When `a` does not declare the token but a match begins at or before
      the line break, the value offset of `a + "\n" + b` is `b`'s, moved
      past `a` and the line break. */
  lemma TailValueOffsetAcross(a: string, b: string, token: string, q: nat, p: int, v: int) returns (pj: int)
    requires NoLineBreak(token) && !Declares(a, token) && ValueOffsetVia(b, token, p, v)
    requires q <= |a| && DeclMatchAt(a + "\n" + b, q, token)
    ensures ValueOffsetVia(a + "\n" + b, token, pj, |a| + 1 + v)
  {
    pj := LeftmostDecl(a + "\n" + b, token, q);
    TailFirstDeclAcross(a, b, token, pj, p, v - 1);
  }

  /** When `a` does not declare the token, the value offset of
      `a + "\n" + b` is `b`'s, moved past `a` and the line break. */
  lemma TailValueOffset(a: string, b: string, token: string, p: int, v: int) returns (pj: int)
    requires NoLineBreak(token) && !Declares(a, token) && ValueOffsetVia(b, token, p, v)
    ensures ValueOffsetVia(a + "\n" + b, token, pj, |a| + 1 + v)
  {
    if q :| 0 <= q <= |a| && DeclMatchAt(a + "\n" + b, q, token) {
      pj := TailValueOffsetAcross(a, b, token, q, p, v);
    } else {
      TailFirstDeclShifted(a, b, token, p, v - 1);
      pj := |a| + 1 + p;
    }
  }

  /** Dropping the first of several parts: the joined text is that part,
      a line break and the rest joined, and part `i` becomes part `i - 1`
      of the rest. */
  lemma DropFirstPart(parts: seq<string>, token: string, i: nat)
    requires 0 < i < |parts|
    requires forall k :: 0 <= k < i ==> !Declares(parts[k], token)
    ensures Join(parts, "\n") == parts[0] + "\n" + Join(parts[1..], "\n")
    ensures PartStart(parts, i) == |parts[0]| + 1 + PartStart(parts[1..], i - 1)
    ensures parts[1..][i - 1] == parts[i] && !Declares(parts[0], token)
    ensures forall k :: 0 <= k < i - 1 ==> !Declares(parts[1..][k], token)
  {
    forall k | 0 <= k < i - 1
      ensures !Declares(parts[1..][k], token)
    {
      assert parts[1..][k] == parts[k + 1];
    }
  }

  /** The value offset of the joined parts is the offset of the first
      declaring part, counted from where that part begins. */
  lemma {:induction false} JoinedValueOffset(parts: seq<string>, token: string, i: nat, p: int, v: int)
    returns (pj: int)
    requires NoLineBreak(token)
    requires i < |parts| && ValueOffsetVia(parts[i], token, p, v)
    requires forall k :: 0 <= k < i ==> !Declares(parts[k], token)
    decreases i
    ensures ValueOffsetVia(Join(parts, "\n"), token, pj, PartStart(parts, i) + v)
  {
    if i == 0 {
      if |parts| == 1 {
        pj := p;
      } else {
        assert Join(parts, "\n") == parts[0] + "\n" + Join(parts[1..], "\n");
        HeadValueOffset(parts[0], Join(parts[1..], "\n"), token, p, v);
        pj := p;
      }
    } else {
      DropFirstPart(parts, token, i);
      var rest := parts[1..];
      var pr := JoinedValueOffset(rest, token, i - 1, p, v);
      pj := TailValueOffset(parts[0], Join(rest, "\n"), token, pr, PartStart(rest, i - 1) + v);
    }
  }

  /** A value text read from `o` into a part `j[s..s + |part|]` that is
      followed by a line break or by the end of `j` stays inside that
      part. */
  lemma ValueStaysInPart(j: string, s: nat, part: string, o: nat, w: string)
    requires o <= |part| && s + |part| <= |j| && j[s..s + |part|] == part
    requires s + |part| < |j| ==> j[s + |part|] == '\n'
    requires IsValueText(j[s + o..], w)
    ensures o + |w| <= |part| && w == part[o..o + |w|]
  {
    var e := s + |part|;
    if e < |j| {
      assert j[s + o..][e - s - o] == '\n';
      assert TerminatorAt(j[s + o..], e - s - o);
    }
    assert |w| <= |part| - o;
    forall m | 0 <= m < |w|
      ensures w[m] == part[o + m]
    {
      assert w[m] == j[s + o..][m] == j[s + o + m];
      assert part[o + m] == j[s..e][o + m] == j[s + o + m];
    }
  }

  /** The value read from `j` at offset `s + o`, where the part `j[s..]`
      ends in a line break or at the end of `j`, is a slice of the part
      from `o` on. */
  lemma ValueInPart(j: string, s: nat, part: string, o: nat, token: string, pj: int) returns (w: string)
    requires o <= |part| && s + |part| <= |j| && j[s..s + |part|] == part
    requires s + |part| < |j| ==> j[s + |part|] == '\n'
    requires ValueOffsetVia(j, token, pj, s + o)
    ensures ReadValue(j, token) == Some(w) && o + |w| <= |part| && w == part[o..o + |w|]
  {
    ValueOffsetIs(j, token, pj, s + o);
    w := ReadValueFrom(j, token, s + o);
    ValueStaysInPart(j, s, part, o, w);
  }

  /** What the Value Reader reads is the value text after the offset. */
  lemma ReadValueFrom(j: string, token: string, v: nat) returns (w: string)
    requires ValueOffset(j, token) == Some(v)
    ensures ReadValue(j, token) == Some(w) && v <= |j| && IsValueText(j[v..], w)
  {
    w := ReadValue(j, token).value;
  }

  /** The value the joined parts hold for `token` is the slice of the first
      declaring part `i` that starts at the value offset `o` of that part. */
  lemma PartHoldsValueAt(parts: seq<string>, token: string, i: nat, p: int, o: nat, j: string) returns (w: string)
    requires NoLineBreak(token)
    requires i < |parts| && ValueOffsetVia(parts[i], token, p, o)
    requires forall k :: 0 <= k < i ==> !Declares(parts[k], token)
    requires j == Join(parts, "\n")
    ensures ReadValue(j, token) == Some(w) && o + |w| <= |parts[i]| && w == parts[i][o..o + |w|]
  {
    var pj := JoinedValueOffset(parts, token, i, p, o);
    JoinLayout(parts, i);
    w := ValueInPart(j, PartStart(parts, i), parts[i], o, token, pj);
  }

  /** The value the joined parts hold for `token` is the slice of the first
      declaring part that starts at that part's own value offset. */
  lemma FirstDeclaringPartHoldsValue(parts: seq<string>, token: string, i: nat, j: string)
    returns (o: nat, w: string)
    requires NoLineBreak(token)
    requires i < |parts| && Declares(parts[i], token)
    requires forall k :: 0 <= k < i ==> !Declares(parts[k], token)
    requires j == Join(parts, "\n")
    ensures ValueOffset(parts[i], token) == Some(o) && ReadValue(j, token) == Some(w)
    ensures o + |w| <= |parts[i]| && w == parts[i][o..o + |w|]
  {
    var p, v := ValueOffsetWitness(parts[i], token);
    w := PartHoldsValueAt(parts, token, i, p, v, j);
    o := v;
  }
}
