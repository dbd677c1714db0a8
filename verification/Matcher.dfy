/**
  * Matching one needle at one position: each of its characters in any spelling, with up to MAX_GAP format
  * characters before every character but the first.
  */
module Matcher {
  import opened Utf8
  import opened Tokens
  import opened TokenLaws

  /** How many format characters may separate two characters of a match. */
  const MAX_GAP: int := 16

  /** The Unicode tables outside ASCII: the format characters, the letters and the upper-case mapping. */
  datatype Unicode = Unicode(format: int -> bool, letter: int -> bool, upper: Rune -> Rune)

  /** isGap. Format characters start at U+00AD, and no surrogate is one. */
  predicate IsGap(u: Unicode, r: Rune) {
    0xAD <= r <= MAX_RUNE && IsScalar(r) && u.format(r)
  }

  function AsciiLower(r: Rune): Rune {
    if 0x41 <= r <= 0x5A then r + 32 else r
  }

  function ToUpper(u: Unicode, r: Rune): Rune {
    if 0x61 <= r <= 0x7A then r - 32 else if r < 0x80 then r else u.upper(r)
  }

  predicate IsLetter(u: Unicode, r: Rune) {
    if r < 0x80 then 0x41 <= r <= 0x5A || 0x61 <= r <= 0x7A else u.letter(r)
  }

  /** A needle's characters and those of its replacement. */
  datatype Needle = Needle(runes: seq<Rune>, repl: seq<Rune>, fold: bool, literalEscape: bool)

  predicate HoldsEscapeStart(rs: seq<Rune>) {
    exists k :: 0 <= k < |rs| && IsEscapeStart(rs[k])
  }

  predicate ValidNeedle(n: Needle) {
    n.runes != [] && (n.literalEscape <==> HoldsEscapeStart(n.runes))
  }

  predicate EqualRune(got: Rune, want: Rune, fold: bool) {
    got == want || (fold && got < 0x80 && want < 0x80 && AsciiLower(got) == want)
  }

  /** What is looked for, and how: whether escapes are read, and whether the data is all there is. */
  datatype Query = Query(u: Unicode, n: Needle, escaped: bool, final: bool)

  datatype RuneResult = NoRune | RuneMore | RuneAt(w: nat, sp: Spelling) {

    /** The result seen from skip bytes earlier. */
    function Shift(skip: nat): RuneResult {
      if RuneAt? then RuneAt(skip + w, sp) else this
    }
  }

  datatype MatchResult = NoMatch | MatchMore | Match(w: nat, sps: seq<Spelling>) {

    /** The result seen from before the characters spelled by init, which took skip bytes. */
    function After(skip: nat, init: seq<Spelling>): MatchResult {
      if Match? then Match(skip + w, init + sps) else this
    }
  }

  /** How a matched character is recorded: a fold needle notes the case of the letter instead of the escape's. */
  function RecordedSpelling(q: Query, r: Rune, want: Rune, sp: Spelling): Spelling {
    if q.n.fold && r != want then sp.(hexCase := Upper)
    else if q.n.fold && IsLetter(q.u, r) then sp.(hexCase := Lower)
    else sp
  }

  /** The token at d taken as want: as the escape it is, or else as the literal byte that starts the escape. */
  function Supplied(q: Query, d: Bytes, t: Token, want: Rune): (s: RuneResult)
    requires d != [] && t.Token? && 1 <= t.w <= |d| && t.w <= MAX_TOKEN
    ensures s.RuneAt? ==> 1 <= s.w <= |d| && s.w <= MAX_TOKEN
    ensures !s.RuneMore?
  {
    if EqualRune(t.r, want, q.n.fold) then RuneAt(t.w, RecordedSpelling(q, t.r, want, t.sp))
    else if q.escaped && t.w > 1 && t.sp.form != Literal && EqualRune(LiteralRune(d).0, want, q.n.fold) then
      RuneAt(LiteralRune(d).1, PLAIN)
    else NoRune
  }

  /**
    * The next character of the needle, after gap format characters; only a character that is not the first may follow
    * any.
    */
  function FindRune(q: Query, d: Bytes, want: Rune, first: bool, gap: nat): (f: RuneResult)
    ensures f.RuneAt? ==> 1 <= f.w <= |d|
    decreases |d|
  {
    if d == [] then (if q.final then NoRune else RuneMore)
    else
      var t := ReadToken(d, q.escaped, q.final);
      if t.NeedMore? then RuneMore
      else
        var s := Supplied(q, d, t, want);
        if s.RuneAt? then s
        else if first || gap >= MAX_GAP || !IsGap(q.u, t.r) then NoRune
        else FindRune(q, d[t.w..], want, first, gap + 1).Shift(t.w)
  }

  /** Matching from the needle's k-th character on. */
  function MatchFrom(q: Query, d: Bytes, k: nat): MatchResult
    requires k <= |q.n.runes|
    decreases |q.n.runes| - k
  {
    if k == |q.n.runes| then Match(0, [])
    else
      match FindRune(q, d, q.n.runes[k], k == 0, 0)
      case NoRune => NoMatch
      case RuneMore => MatchMore
      case RuneAt(w, sp) => MatchFrom(q, d[w..], k + 1).After(w, [sp])
  }

  /** matchAt on the bytes from a position on. */
  function MatchHere(q: Query, d: Bytes): MatchResult {
    MatchFrom(q, d, 0)
  }

  lemma AfterAfter(m: MatchResult, skip: nat, init: seq<Spelling>, skip': nat, init': seq<Spelling>)
    ensures m.After(skip', init').After(skip, init) == m.After(skip + skip', init + init')
  {
    if m.Match? {
      assert init + (init' + m.sps) == init + init' + m.sps;
    }
  }

  lemma FindRuneAtEnd(q: Query, want: Rune, first: bool, gap: nat)
    ensures FindRune(q, [], want, first, gap) == if q.final then NoRune else RuneMore
  {
  }

  /** One turn of the inner loop of matchAt. */
  lemma FindRuneTurn(q: Query, data: Bytes, at: nat, want: Rune, first: bool, gap: nat)
    requires at < |data|
    ensures var here, t := FindRune(q, data[at..], want, first, gap), ReadToken(data[at..], q.escaped, q.final);
            if t.NeedMore? then here.RuneMore?
            else if Supplied(q, data[at..], t, want).RuneAt? then here == Supplied(q, data[at..], t, want)
            else if first || gap >= MAX_GAP || !IsGap(q.u, t.r) then here.NoRune?
            else here == FindRune(q, data[at + t.w..], want, first, gap + 1).Shift(t.w)
  {
    hide ReadToken, LiteralRune, Supplied, IsGap;
    var t := ReadToken(data[at..], q.escaped, q.final);
    if t.Token? {
      assert data[at..][t.w..] == data[at + t.w..];
    }
  }

  /** The inner loop of matchAt. */
  method FindRuneAt(q: Query, data: Bytes, start: nat, want: Rune, first: bool) returns (f: RuneResult)
    requires start <= |data|
    ensures f == FindRune(q, data[start..], want, first, 0)
  {
    hide FindRune, ReadToken, LiteralRune, Supplied, IsGap;
    ghost var goal := FindRune(q, data[start..], want, first, 0);
    var at, gap := start, 0;
    while true
      invariant start <= at <= |data| && 0 <= gap
      invariant goal == FindRune(q, data[at..], want, first, gap).Shift(at - start)
      decreases |data| - at
    {
      if at >= |data| {
        assert data[at..] == [];
        FindRuneAtEnd(q, want, first, gap);
        return if q.final then NoRune else RuneMore;
      }
      FindRuneTurn(q, data, at, want, first, gap);
      var t := Token(data[at], 1, PLAIN);
      if data[at] >= 0x80 || IsEscapeStart(data[at]) {
        t := ReadToken(data[at..], q.escaped, q.final);
        if t.NeedMore? {
          return RuneMore;
        }
      } else {
        PlainByteToken(data[at..], q.escaped, q.final);
      }
      var s := Supplied(q, data[at..], t, want);
      if s.RuneAt? {
        return RuneAt(at + s.w - start, s.sp);
      }
      if first || gap >= MAX_GAP || !IsGap(q.u, t.r) {
        return NoRune;
      }
      at, gap := at + t.w, gap + 1;
    }
  }

  method MatchAt(q: Query, data: Bytes, i: nat) returns (m: MatchResult)
    requires i <= |data|
    ensures m == MatchHere(q, data[i..])
  {
    hide FindRune;
    ghost var goal := MatchHere(q, data[i..]);
    var at, spellings := i, [];
    for k := 0 to |q.n.runes|
      invariant i <= at <= |data|
      invariant goal == MatchFrom(q, data[at..], k).After(at - i, spellings)
    {
      var f := FindRuneAt(q, data, at, q.n.runes[k], k == 0);
      match f
      case NoRune => return NoMatch;
      case RuneMore => return MatchMore;
      case RuneAt(w, sp) =>
        assert data[at..][w..] == data[at + w..];
        AfterAfter(MatchFrom(q, data[at + w..], k + 1), at - i, spellings, w, [sp]);
        at, spellings := at + w, spellings + [sp];
    }
    return Match(at - i, spellings);
  }

  /** A decided search does not change when bytes are appended. */
  lemma {:induction false} FindRuneStable(q: Query, q': Query, d: Bytes, more: Bytes, want: Rune, first: bool, gap: nat)
    requires !q.final && q' == q.(final := q'.final) && !FindRune(q, d, want, first, gap).RuneMore?
    ensures FindRune(q', d + more, want, first, gap) == FindRune(q, d, want, first, gap)
    decreases |d|
  {
    hide ReadToken, FindRune, Supplied, IsGap;
    if d == [] {
      FindRuneAtEnd(q, want, first, gap);
    } else {
      var t := ReadToken(d, q.escaped, false);
      FindRuneStep(q, d, want, first, gap);
      ReadTokenStable(d, more, q.escaped, q'.final);
      FindRuneStep(q', d + more, want, first, gap);
      SuppliedStable(q, q', d, more, t, want);
      if Supplied(q, d, t, want).NoRune? && !first && gap < MAX_GAP && IsGap(q.u, t.r) {
        assert (d + more)[t.w..] == d[t.w..] + more;
        FindRuneStable(q, q', d[t.w..], more, want, first, gap + 1);
      }
    }
  }

  lemma FindRuneStep(q: Query, d: Bytes, want: Rune, first: bool, gap: nat)
    requires d != []
    ensures var here, t := FindRune(q, d, want, first, gap), ReadToken(d, q.escaped, q.final);
            if t.NeedMore? then here.RuneMore?
            else if Supplied(q, d, t, want).RuneAt? then here == Supplied(q, d, t, want)
            else if first || gap >= MAX_GAP || !IsGap(q.u, t.r) then here.NoRune?
            else here == FindRune(q, d[t.w..], want, first, gap + 1).Shift(t.w)
  {
    hide ReadToken, LiteralRune, Supplied, IsGap;
  }

  lemma SuppliedStable(q: Query, q': Query, d: Bytes, more: Bytes, t: Token, want: Rune)
    requires q' == q.(final := q'.final) && d != [] && t == ReadToken(d, q.escaped, false) && t.Token?
    ensures Supplied(q', d + more, t, want) == Supplied(q, d, t, want)
  {
    hide ReadToken;
    if t.sp.form != Literal {
      assert LiteralRune(d) == (d[0], 1) == LiteralRune(d + more);
    }
  }

  lemma {:induction false} MatchFromStable(q: Query, q': Query, d: Bytes, more: Bytes, k: nat)
    requires !q.final && q' == q.(final := q'.final) && k <= |q.n.runes| && !MatchFrom(q, d, k).MatchMore?
    ensures MatchFrom(q', d + more, k) == MatchFrom(q, d, k)
    decreases |q.n.runes| - k
  {
    hide FindRune;
    if k < |q.n.runes| {
      var f := FindRune(q, d, q.n.runes[k], k == 0, 0);
      FindRuneStable(q, q', d, more, q.n.runes[k], k == 0, 0);
      if f.RuneAt? {
        assert (d + more)[f.w..] == d[f.w..] + more;
        MatchFromStable(q, q', d[f.w..], more, k + 1);
      }
    }
  }

  /** The most bytes a character takes with the format characters before it. */
  const MAX_STEP: int := 204

  /** One character takes at most its own token and a token for each format character still allowed before it. */
  lemma {:induction false} FindRuneBounds(q: Query, d: Bytes, want: Rune, first: bool, gap: nat)
    requires gap <= MAX_GAP
    ensures var f, span := FindRune(q, d, want, first, gap), if first then MAX_TOKEN else MAX_STEP - MAX_TOKEN * gap;
            && (f.RuneMore? ==> !q.final && |d| < span)
            && (f.RuneAt? ==> f.w <= span)
    decreases |d|
  {
    hide ReadToken, FindRune, Supplied, IsGap;
    if d == [] {
      FindRuneAtEnd(q, want, first, gap);
    } else {
      var t := ReadToken(d, q.escaped, q.final);
      FindRuneStep(q, d, want, first, gap);
      if t.Token? && !first && gap < MAX_GAP {
        FindRuneBounds(q, d[t.w..], want, first, gap + 1);
      }
    }
  }

  /** The most bytes the needle can span from its k-th character on. */
  function MaxSpan(n: Needle, k: nat): int {
    if k == 0 then MAX_STEP * (|n.runes| - 1) + MAX_TOKEN else MAX_STEP * (|n.runes| - k)
  }

  /**
    * A match of an n-character needle spans at most n*12 + (n-1)*16*12 bytes, with one recorded spelling for each
    * character; an undecided match is at least one byte shorter than that.
    */
  lemma {:induction false} MatchFromBounds(q: Query, d: Bytes, k: nat)
    requires k <= |q.n.runes|
    ensures var m := MatchFrom(q, d, k);
            && (m.MatchMore? ==> !q.final && |d| < MaxSpan(q.n, k))
            && (m.Match? && k < |q.n.runes| ==> m.w <= MaxSpan(q.n, k))
            && (m.Match? ==> |q.n.runes| - k <= m.w <= |d| && |m.sps| == |q.n.runes| - k)
    decreases |q.n.runes| - k
  {
    hide FindRune;
    if k < |q.n.runes| {
      FindRuneBounds(q, d, q.n.runes[k], k == 0, 0);
      var f := FindRune(q, d, q.n.runes[k], k == 0, 0);
      if f.RuneAt? {
        MatchFromBounds(q, d[f.w..], k + 1);
      }
    }
  }
}
