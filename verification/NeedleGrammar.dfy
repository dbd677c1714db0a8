/**
  * Which texts a needle matches: each of its characters in any spelling, at most MAX_GAP spelled format characters
  * before every character but the first. The matcher accepts exactly these texts.
  */
module NeedleGrammar {
  import opened Utf8
  import opened Tokens
  import opened Matcher
  import opened Grammar

  /** At most g spelled format characters. */
  ghost predicate Gaps(u: Unicode, t: Bytes, g: nat) {
    || t == []
    || (g > 0 && exists w, r :: 0 < w <= |t| && IsGap(u, r) && Spells(t[..w], r) && Gaps(u, t[w..], g - 1))
  }

  /** t spells r, or is r as it stands where it starts no escape or is not taken to. */
  predicate Shows(t: Bytes, r: Rune) {
    Spells(t, r) || (IsEscapeStart(r) && t == [r])
  }

  ghost predicate CharText(n: Needle, t: Bytes, want: Rune) {
    exists r :: EqualRune(r, want, n.fold) && Shows(t, r)
  }

  /** t is format characters, in number at most g, and then a spelling of want; the character starts at position a. */
  ghost predicate StepText(u: Unicode, n: Needle, t: Bytes, want: Rune, g: nat, a: nat) {
    a <= |t| && Gaps(u, t[..a], g) && CharText(n, t[a..], want)
  }

  /** t spells the needle from its k-th character on. */
  ghost predicate TextFrom(u: Unicode, n: Needle, t: Bytes, k: nat)
    requires k <= |n.runes|
    decreases |n.runes| - k
  {
    if k == |n.runes| then t == []
    else
      exists a, w ::
        0 <= a <= w <= |t| && StepText(u, n, t[..w], n.runes[k], Allowed(k), a) && TextFrom(u, n, t[w..], k + 1)
  }

  function Allowed(k: nat): nat {
    if k == 0 then 0 else MAX_GAP
  }

  ghost predicate NeedleText(u: Unicode, n: Needle, t: Bytes) {
    TextFrom(u, n, t, 0)
  }

  predicate PlainRune(u: Unicode, r: Rune) {
    IsScalar(r) && !IsEscapeStart(r) && !IsGap(u, r)
  }

  /** A needle of proper characters, none of which starts an escape or is a format character. */
  predicate PlainNeedle(u: Unicode, n: Needle) {
    n.runes != [] && forall k :: 0 <= k < |n.runes| ==> PlainRune(u, n.runes[k])
  }

  lemma PlainSupplied(q: Query, d: Bytes, want: Rune)
    requires q.escaped && PlainRune(q.u, want) && d != [] && ReadToken(d, true, q.final).Token?
    ensures var t, s := ReadToken(d, true, q.final), Supplied(q, d, ReadToken(d, true, q.final), want);
            && (s.RuneAt? <==> EqualRune(t.r, want, q.n.fold)) && (s.RuneAt? ==> s.w == t.w)
            && (s.RuneAt? ==> IsScalar(t.r) && !IsEscapeStart(t.r) && !IsGap(q.u, t.r))
  {
    hide ReadToken;
  }

  lemma CutAt(d: Bytes, v: nat, a: nat, w: nat)
    requires v <= a <= w <= |d|
    ensures d[..w][..a][..v] == d[..v]
    ensures d[..w][..a][v..] == d[v..][..w - v][..a - v]
    ensures d[..w][a..] == d[v..][..w - v][a - v..]
  {
    assert d[..w][..a] == d[..a] && d[v..][..w - v] == d[v..w];
    assert d[..a][..v] == d[..v] && d[..a][v..] == d[v..a] == d[v..w][..a - v];
    assert d[..w][a..] == d[a..w] == d[v..w][a - v..];
  }

  /** The first of the format characters in front. */
  lemma StepSplit(u: Unicode, n: Needle, d: Bytes, w: nat, want: Rune, g: nat, a: nat) returns (v: nat, r: Rune)
    requires 0 < a <= w <= |d| && StepText(u, n, d[..w], want, g, a)
    ensures g > 0 && 0 < v <= a && IsGap(u, r) && Spells(d[..v], r)
    ensures StepText(u, n, d[v..][..w - v], want, g - 1, a - v)
  {
    hide Spells, IsGap, CharText;
    var t := d[..w];
    v, r :| 0 < v <= a && IsGap(u, r) && Spells(t[..a][..v], r) && Gaps(u, t[..a][v..], g - 1);
    CutAt(d, v, a, w);
  }

  /** A text of the grammar is found, and to its very end. */
  lemma {:induction false} FindComplete(q: Query, d: Bytes, want: Rune, first: bool, gap: nat, a: nat, w: nat)
    requires q.escaped && PlainRune(q.u, want) && a <= w <= |d|
    requires gap <= MAX_GAP && StepText(q.u, q.n, d[..w], want, if first then 0 else MAX_GAP - gap, a)
    ensures FindRune(q, d, want, first, gap).RuneAt? && FindRune(q, d, want, first, gap).w == w
    decreases a
  {
    hide ReadToken, Supplied, Spells, IsGap, Gaps;
    if a == 0 {
      var r :| EqualRune(r, want, q.n.fold) && Shows(d[..w][0..], r);
      assert d[..w][0..] == d[..w];
      TokenComplete(d, w, r, q.final);
      PlainSupplied(q, d, want);
    } else {
      var v, r := StepSplit(q.u, q.n, d, w, want, if first then 0 else MAX_GAP - gap, a);
      GapIsScalar(q.u, r);
      TokenComplete(d, v, r, q.final);
      PlainSupplied(q, d, want);
      FindComplete(q, d[v..], want, first, gap + 1, a - v, w - v);
    }
  }

  lemma GapIsScalar(u: Unicode, r: Rune)
    requires IsGap(u, r)
    ensures IsScalar(r) && !IsEscapeStart(r)
  {
  }

  lemma StepWithoutGap(u: Unicode, n: Needle, t: Bytes, want: Rune, g: nat)
    requires CharText(n, t, want)
    ensures StepText(u, n, t, want, g, 0)
  {
    hide CharText;
    assert t[0..] == t;
  }

  /** One more format character in front. */
  lemma StepAfterGap(u: Unicode, n: Needle, d: Bytes, v: nat, w: nat, r: Rune, want: Rune, g: nat, b: nat)
    requires 0 < v <= w <= |d| && IsGap(u, r) && Spells(d[..v], r) && StepText(u, n, d[v..][..w - v], want, g, b)
    ensures StepText(u, n, d[..w], want, g + 1, v + b)
  {
    hide Spells, IsGap;
    var t, a := d[..w], v + b;
    assert t[a..] == d[v..][..w - v][b..];
    assert t[..a][..v] == d[..v] && t[..a][v..] == d[v..][..w - v][..b];
    assert Spells(t[..a][..v], r);
  }

  /** What is supplied is a text of the character wanted. */
  lemma SuppliedSound(q: Query, d: Bytes, want: Rune)
    requires IsScalar(want) && d != [] && ReadToken(d, q.escaped, q.final).Token?
    requires Supplied(q, d, ReadToken(d, q.escaped, q.final), want).RuneAt?
    ensures CharText(q.n, d[..Supplied(q, d, ReadToken(d, q.escaped, q.final), want).w], want)
  {
    hide ReadToken, Spells, LiteralRune, EncodeRune;
    var t := ReadToken(d, q.escaped, q.final);
    EncodeDecode(d);
    if EqualRune(t.r, want, q.n.fold) {
      EqualScalar(t.r, want, q.n.fold);
      TokenShows(d, q.escaped, q.final);
    } else {
      EqualScalar(LiteralRune(d).0, want, q.n.fold);
      EncodedShows(d);
    }
  }

  lemma EqualScalar(got: Rune, want: Rune, fold: bool)
    requires IsScalar(want) && EqualRune(got, want, fold)
    ensures IsScalar(got)
  {
  }

  /** A token is read from a text of its character, whether escapes are read or not. */
  lemma TokenShows(d: Bytes, escaped: bool, final: bool)
    requires d != [] && ReadToken(d, escaped, final).Token? && IsScalar(ReadToken(d, escaped, final).r)
    ensures var t := ReadToken(d, escaped, final); Shows(d[..t.w], t.r)
  {
    hide ReadToken, Spells, LiteralRune, EncodeRune;
    var t := ReadToken(d, escaped, final);
    if t.sp.form == Literal {
      EncodedShows(d);
    } else {
      TokenSound(d, final);
    }
  }

  lemma EncodedShows(d: Bytes)
    requires d != [] && IsScalar(LiteralRune(d).0)
    ensures var (r, w) := LiteralRune(d); Shows(d[..w], r)
  {
    hide LiteralRune, PercentText, SpellsJsonU, SpellsJsonShort, SpellsHexEscape, SpellsNumerically, SpellsByName;
    EncodeDecode(d);
  }

  /** What is found is a text of the grammar. */
  lemma {:induction false} FindSound(q: Query, d: Bytes, want: Rune, first: bool, gap: nat) returns (a: nat)
    requires IsScalar(want) && gap <= MAX_GAP && FindRune(q, d, want, first, gap).RuneAt?
    ensures var w := FindRune(q, d, want, first, gap).w;
            a <= w && StepText(q.u, q.n, d[..w], want, if first then 0 else MAX_GAP - gap, a)
    decreases |d|
  {
    hide ReadToken, Supplied, Spells, IsGap, Gaps, EqualRune, IsScalar, FindRune, StepText, CharText;
    var w := FindRune(q, d, want, first, gap).w;
    if d == [] {
      FindRuneAtEnd(q, want, first, gap);
    }
    var t := ReadToken(d, q.escaped, q.final);
    FindRuneStep(q, d, want, first, gap);
    if Supplied(q, d, t, want).RuneAt? {
      SuppliedSound(q, d, want);
      a := 0;
      StepWithoutGap(q.u, q.n, d[..w], want, if first then 0 else MAX_GAP - gap);
    } else {
      GapIsScalar(q.u, t.r);
      TokenShows(d, q.escaped, q.final);
      var b := FindSound(q, d[t.w..], want, first, gap + 1);
      a := t.w + b;
      StepAfterGap(q.u, q.n, d, t.w, w, t.r, want, MAX_GAP - gap - 1, b);
    }
  }

  /** A text of the grammar at the start of d is matched to its end. */
  lemma {:induction false} MatchComplete(q: Query, d: Bytes, k: nat, e: nat)
    requires q.escaped && PlainNeedle(q.u, q.n) && k <= |q.n.runes| && e <= |d| && TextFrom(q.u, q.n, d[..e], k)
    ensures MatchFrom(q, d, k).Match? && MatchFrom(q, d, k).w == e
    decreases |q.n.runes| - k
  {
    hide FindRune, StepText, PlainRune;
    if k < |q.n.runes| {
      var t := d[..e];
      var a, w :| 0 <= a <= w <= |t| && StepText(q.u, q.n, t[..w], q.n.runes[k], Allowed(k), a) &&
        TextFrom(q.u, q.n, t[w..], k + 1);
      assert t[..w] == d[..w] && t[w..] == d[w..][..e - w];
      FindComplete(q, d, q.n.runes[k], k == 0, 0, a, w);
      MatchComplete(q, d[w..], k + 1, e - w);
    }
  }

  predicate ScalarNeedle(n: Needle) {
    n.runes != [] && forall k :: 0 <= k < |n.runes| ==> IsScalar(n.runes[k])
  }

  /** What is matched is a text of the grammar, whichever characters the needle holds and however they are read. */
  lemma {:induction false} MatchSound(q: Query, d: Bytes, k: nat)
    requires ScalarNeedle(q.n) && k <= |q.n.runes| && MatchFrom(q, d, k).Match?
    ensures MatchFrom(q, d, k).w <= |d| && TextFrom(q.u, q.n, d[..MatchFrom(q, d, k).w], k)
    decreases |q.n.runes| - k
  {
    hide FindRune, StepText, PlainRune;
    if k < |q.n.runes| {
      var f, e := FindRune(q, d, q.n.runes[k], k == 0, 0), MatchFrom(q, d, k).w;
      var a := FindSound(q, d, q.n.runes[k], k == 0, 0);
      MatchSound(q, d[f.w..], k + 1);
      var t := d[..e];
      assert t[..f.w] == d[..f.w] && t[f.w..] == d[f.w..][..e - f.w];
      assert 0 <= a <= f.w <= |t| && StepText(q.u, q.n, t[..f.w], q.n.runes[k], Allowed(k), a) &&
        TextFrom(q.u, q.n, t[f.w..], k + 1);
    }
  }

  /**
    * The matcher accepts at d exactly when a text of the grammar starts there, and the text it finds is the only one.
    */
  lemma MatchIffNeedleText(q: Query, d: Bytes)
    requires q.escaped && PlainNeedle(q.u, q.n)
    ensures MatchHere(q, d).Match? <==> exists e :: 0 <= e <= |d| && NeedleText(q.u, q.n, d[..e])
    ensures forall e :: 0 <= e <= |d| && NeedleText(q.u, q.n, d[..e]) ==>
              MatchHere(q, d).Match? && MatchHere(q, d).w == e
  {
    if MatchHere(q, d).Match? {
      MatchSound(q, d, 0);
      assert NeedleText(q.u, q.n, d[..MatchHere(q, d).w]);
    }
    forall e | 0 <= e <= |d| && NeedleText(q.u, q.n, d[..e])
      ensures MatchHere(q, d).Match? && MatchHere(q, d).w == e
    {
      MatchComplete(q, d, 0, e);
    }
  }

  // ---- the spellings a match records

  /** At position a of d stands a spelling of want, and sp is how it is spelled. */
  ghost predicate SpelledAt(q: Query, d: Bytes, a: nat, want: Rune, sp: Spelling) {
    && a < |d| && ReadToken(d[a..], true, q.final).Token?
    && var t := ReadToken(d[a..], true, q.final);
      EqualRune(t.r, want, q.n.fold) && sp.form == t.sp.form && (!q.n.fold ==> sp == t.sp)
      && (q.n.fold && IsLetter(q.u, t.r) ==> sp.hexCase == if t.r == want then Lower else Upper)
      && (!IsLetter(q.u, t.r) ==> sp == t.sp)
  }

  lemma {:induction false} FindRecords(q: Query, d: Bytes, want: Rune, first: bool, gap: nat) returns (a: nat)
    requires q.escaped && PlainRune(q.u, want) && FindRune(q, d, want, first, gap).RuneAt?
    ensures var f := FindRune(q, d, want, first, gap);
            SpelledAt(q, d, a, want, f.sp) && a + ReadToken(d[a..], true, q.final).w == f.w
    decreases |d|
  {
    hide ReadToken, IsGap, PlainRune;
    var t := ReadToken(d, true, q.final);
    PlainSupplied(q, d, want);
    if EqualRune(t.r, want, q.n.fold) {
      a := 0;
      assert d[0..] == d;
    } else {
      var b := FindRecords(q, d[t.w..], want, first, gap + 1);
      a := t.w + b;
      assert d[t.w..][b..] == d[a..];
    }
  }

  /** sps are the spellings of the needle's characters, from the k-th on, at growing positions of d. */
  ghost predicate RecordedFrom(q: Query, d: Bytes, k: nat, sps: seq<Spelling>)
    requires k <= |q.n.runes|
    decreases |q.n.runes| - k
  {
    if k == |q.n.runes| then sps == []
    else
      sps != [] && exists a: nat ::
        SpelledAt(q, d, a, q.n.runes[k], sps[0]) &&
          RecordedFrom(q, d[a + ReadToken(d[a..], true, q.final).w..], k + 1, sps[1..])
  }

  /** A match records how each of its characters is spelled. */
  lemma {:induction false} MatchRecords(q: Query, d: Bytes, k: nat)
    requires q.escaped && PlainNeedle(q.u, q.n) && k <= |q.n.runes| && MatchFrom(q, d, k).Match?
    ensures RecordedFrom(q, d, k, MatchFrom(q, d, k).sps)
    decreases |q.n.runes| - k
  {
    hide FindRune, SpelledAt, PlainRune, ReadToken;
    if k < |q.n.runes| {
      var f, m := FindRune(q, d, q.n.runes[k], k == 0, 0), MatchFrom(q, d, k);
      var a := FindRecords(q, d, q.n.runes[k], k == 0, 0);
      SpelledInside(q, d, a, q.n.runes[k], f.sp);
      MatchRecords(q, d[f.w..], k + 1);
      assert m.sps[0] == f.sp && m.sps[1..] == MatchFrom(q, d[f.w..], k + 1).sps;
    }
  }

  lemma SpelledInside(q: Query, d: Bytes, a: nat, want: Rune, sp: Spelling)
    requires SpelledAt(q, d, a, want, sp)
    ensures a < |d|
  {
  }
}
