/**
  * A needle in its own bytes. Read without escapes it always matches them. Read with escapes it does exactly when none
  * of its %, \ and & happens to start an escape that spells that very character: the escape is then taken, and the
  * bytes behind it are missed.
  */
module OwnText {
  import opened Utf8
  import opened Tokens
  import opened Grammar
  import opened Matcher
  import opened NeedleGrammar
  import opened Reference
  import opened Replacing

  /** The needle's own bytes from its k-th character on, and what follows them. */
  function TextFromRune(n: Needle, k: nat, rest: Bytes): Bytes
    requires k <= |n.runes|
  {
    EncodeRunes(n.runes[k..]) + rest
  }

  /** A proper character, or a byte that is none. */
  predicate OwnRune(r: Rune) {
    IsScalar(r) || r > MAX_RUNE
  }

  /** Read as it stands, the text gives the needle's character at each of its places. */
  predicate ReadsAsItself(n: Needle, rest: Bytes) {
    n.runes != [] && forall k :: 0 <= k < |n.runes| ==> OwnRune(n.runes[k]) && ReadsItself(n, rest, k)
  }

  predicate ReadsItself(n: Needle, rest: Bytes, k: nat)
    requires k < |n.runes|
  {
    var d := TextFromRune(n, k, rest);
    d != [] && LiteralRune(d) == (n.runes[k], |EncodeRune(n.runes[k])|)
  }

  /** The k-th character starts an escape, and that escape spells the character itself. */
  ghost predicate SelfEscaped(n: Needle, rest: Bytes, k: nat) {
    && k < |n.runes| && IsEscapeStart(n.runes[k])
    && exists w :: 2 <= w <= |TextFromRune(n, k, rest)| && Spells(TextFromRune(n, k, rest)[..w], n.runes[k])
  }

  ghost predicate SelfEscapes(n: Needle, rest: Bytes) {
    exists k :: SelfEscaped(n, rest, k)
  }

  ghost predicate SelfEscapesFrom(n: Needle, rest: Bytes, k: nat) {
    exists j :: k <= j && SelfEscaped(n, rest, j)
  }

  // ---- one character

  lemma TextCons(n: Needle, k: nat, rest: Bytes)
    requires k < |n.runes|
    ensures TextFromRune(n, k, rest) == EncodeRune(n.runes[k]) + TextFromRune(n, k + 1, rest)
    ensures |EncodeRunes(n.runes[k..])| == |EncodeRune(n.runes[k])| + |EncodeRunes(n.runes[k + 1..])|
    ensures TextFromRune(n, k, rest)[|EncodeRune(n.runes[k])|..] == TextFromRune(n, k + 1, rest)
  {
    hide EncodeRune, EncodeRunes;
    assert n.runes[k..] == [n.runes[k]] + n.runes[k + 1..];
    EncodeRunesCons(n.runes[k], n.runes[k + 1..]);
    Assoc(EncodeRune(n.runes[k]), EncodeRunes(n.runes[k + 1..]), rest);
  }

  /** Proper characters read as themselves whatever follows. */
  lemma ScalarsReadAsThemselves(n: Needle, rest: Bytes)
    requires ScalarNeedle(n)
    ensures ReadsAsItself(n, rest)
  {
    hide EncodeRune, EncodeRunes, LiteralRune, TextFromRune;
    forall k | 0 <= k < |n.runes|
      ensures ReadsItself(n, rest, k)
    {
      TextCons(n, k, rest);
      DecodeEncode(n.runes[k], TextFromRune(n, k + 1, rest));
    }
  }

  lemma {:induction false} RunesFrom(b: Bytes, k: nat) returns (c: Bytes)
    requires k < |Runes(b)|
    ensures c != [] && Runes(b)[k..] == Runes(c)
    decreases k
  {
    hide LiteralRune;
    if k == 0 {
      c := b;
    } else {
      var w := LiteralRune(b).1;
      c := RunesFrom(b[w..], k - 1);
      assert Runes(b)[k..] == Runes(b[w..])[k - 1..];
    }
  }

  /** Any byte string, with nothing behind it, reads as its own characters. */
  lemma BytesReadAsThemselves(n: Needle, b: Bytes)
    requires n.runes == Runes(b) && b != []
    ensures ReadsAsItself(n, [])
  {
    hide EncodeRune, EncodeRunes, LiteralRune, IsScalar;
    forall k | 0 <= k < |n.runes|
      ensures OwnRune(n.runes[k]) && ReadsItself(n, [], k)
    {
      var c := RunesFrom(b, k);
      EncodeRunesInvertsRunes(c);
      assert TextFromRune(n, k, []) == c && n.runes[k] == n.runes[k..][0] == Runes(c)[0];
      EncodeDecode(c);
    }
  }

  lemma EscapeStartReads(d: Bytes)
    requires d != [] && IsEscapeStart(d[0])
    ensures LiteralRune(d) == (d[0], 1)
  {
  }

  /** The token at a character of the needle is the character, an escape for another one, or an escape for it. */
  lemma OwnToken(n: Needle, rest: Bytes, k: nat, escaped: bool)
    requires ReadsAsItself(n, rest) && k < |n.runes|
    ensures var d := TextFromRune(n, k, rest);
            && d != [] && LiteralRune(d) == (n.runes[k], |EncodeRune(n.runes[k])|)
            && var t := ReadToken(d, escaped, true);
              && (t.sp.form == Literal ==> t == Token(n.runes[k], |EncodeRune(n.runes[k])|, PLAIN))
              && (t.sp.form != Literal ==> escaped && IsEscapeStart(n.runes[k]))
              && (escaped ==> (t.sp.form != Literal && t.r == n.runes[k] <==> SelfEscaped(n, rest, k)))
  {
    hide EncodeRune, EncodeRunes, Spells, LiteralRune, EscapeAt, LiteralToken, IsEscapeStart, TextFromRune, OwnRune;
    var d, r := TextFromRune(n, k, rest), n.runes[k];
    assert ReadsItself(n, rest, k);
    if IsEscapeStart(d[0]) {
      EscapeStartReads(d);
    }
    if escaped {
      var t := ReadToken(d, true, true);
      if t.sp.form != Literal && t.r == r {
        OneByte(r);
        TokenSound(d, true);
        assert Spells(d[..t.w], r);
      }
      if SelfEscaped(n, rest, k) {
        var w :| 2 <= w <= |d| && Spells(d[..w], r);
        OneByte(r);
        TokenComplete(d, w, r, true);
      }
    }
  }

  lemma OneByte(r: Rune)
    requires IsEscapeStart(r)
    ensures IsScalar(r) && |EncodeRune(r)| == 1
  {
  }

  /** Case is folded for letters only. */
  lemma EscapeStartIsNoLetter(got: Rune, want: Rune, fold: bool)
    requires IsEscapeStart(want) && EqualRune(got, want, fold)
    ensures got == want
  {
  }

  /** A character in its own bytes. */
  predicate InOwnBytes(sp: Spelling) {
    sp.form == Literal && sp.hexCase != Upper
  }

  /** A character that is not self-escaped is found in its own bytes. */
  lemma FindOwn(q: Query, rest: Bytes, k: nat)
    requires q.final && ReadsAsItself(q.n, rest) && k < |q.n.runes| && (q.escaped ==> !SelfEscaped(q.n, rest, k))
    ensures var f := FindRune(q, TextFromRune(q.n, k, rest), q.n.runes[k], k == 0, 0);
            f.RuneAt? && f.w == |EncodeRune(q.n.runes[k])| && InOwnBytes(f.sp)
  {
    hide EncodeRune, ReadToken, SelfEscaped, TextFromRune, FindRune, IsEscapeStart, EqualRune, IsLetter;
    var d := TextFromRune(q.n, k, rest);
    OwnToken(q.n, rest, k, q.escaped);
    FindRuneStep(q, d, q.n.runes[k], k == 0, 0);
    var t := ReadToken(d, q.escaped, true);
    EqualsItself(q.n.runes[k], q.n.fold);
    if t.sp.form != Literal && EqualRune(t.r, q.n.runes[k], q.n.fold) {
      EscapeStartIsNoLetter(t.r, q.n.runes[k], q.n.fold);
    }
  }

  lemma EqualsItself(r: Rune, fold: bool)
    ensures EqualRune(r, r, fold)
  {
  }

  // ---- the whole needle

  /** The needle matches its own bytes, and is recorded as written there. */
  lemma {:induction false} OwnMatchFrom(q: Query, rest: Bytes, k: nat)
    requires q.final && ReadsAsItself(q.n, rest) && k <= |q.n.runes|
    requires q.escaped ==> !SelfEscapesFrom(q.n, rest, k)
    ensures var m := MatchFrom(q, TextFromRune(q.n, k, rest), k);
            && m.Match? && m.w == |EncodeRunes(q.n.runes[k..])|
            && forall j :: 0 <= j < |m.sps| ==> InOwnBytes(m.sps[j])
    decreases |q.n.runes| - k
  {
    hide EncodeRune, EncodeRunes, SelfEscaped, TextFromRune, FindRune, InOwnBytes, ReadsItself, OwnRune;
    if k == |q.n.runes| {
      assert q.n.runes[k..] == [];
      EncodeNoRunes();
    } else {
      FindOwn(q, rest, k);
      TextCons(q.n, k, rest);
      OwnMatchFrom(q, rest, k + 1);
    }
  }

  // ---- no spelling is shorter than the character's own bytes

  lemma SpellsLength(t: Bytes, r: Rune)
    requires IsScalar(r) && Spells(t, r)
    ensures |t| >= |EncodeRune(r)|
  {
    hide SpellsHexEscape, PercentText, Value, AllHex, AllDigits;
    if PercentText(t, EncodeRune(r)) {
      PercentTextLength(t, EncodeRune(r));
    } else if SpellsHexEscape(t, r) {
      HexEscapeWidth(t, r);
    }
  }

  lemma TokenLength(d: Bytes, escaped: bool)
    requires d != [] && OwnRune(ReadToken(d, escaped, true).r)
    ensures var t := ReadToken(d, escaped, true); t.w >= |EncodeRune(t.r)|
  {
    hide EncodeRune, Spells, EscapeAt, DecodeRune, IsEscapeStart;
    var t := ReadToken(d, escaped, true);
    if t.sp.form == Literal {
      EncodeDecode(d);
    } else if IsScalar(t.r) {
      TokenSound(d, true);
      SpellsLength(d[..t.w], t.r);
    } else {
      ByteLength(t.r);
    }
  }

  lemma ByteLength(r: Rune)
    requires r > MAX_RUNE
    ensures |EncodeRune(r)| == 1
  {
  }

  lemma EqualRuneLength(got: Rune, want: Rune, fold: bool)
    requires OwnRune(want) && EqualRune(got, want, fold)
    ensures OwnRune(got) && |EncodeRune(got)| == |EncodeRune(want)|
  {
  }

  lemma {:induction false} FindLength(q: Query, d: Bytes, want: Rune, first: bool, gap: nat)
    requires q.final && OwnRune(want) && FindRune(q, d, want, first, gap).RuneAt?
    ensures FindRune(q, d, want, first, gap).w >= |EncodeRune(want)|
    decreases |d|
  {
    hide EncodeRune, ReadToken, LiteralRune, EqualRune, FindRune, IsGap, OwnRune;
    if d == [] {
      FindRuneAtEnd(q, want, first, gap);
    } else {
      FindRuneStep(q, d, want, first, gap);
      var t := ReadToken(d, q.escaped, true);
      if EqualRune(t.r, want, q.n.fold) {
        EqualRuneLength(t.r, want, q.n.fold);
        TokenLength(d, q.escaped);
      } else if Supplied(q, d, t, want).RuneAt? {
        EqualRuneLength(LiteralRune(d).0, want, q.n.fold);
        EncodeDecode(d);
      } else {
        FindLength(q, d[t.w..], want, first, gap + 1);
      }
    }
  }

  lemma {:induction false} MatchLength(q: Query, d: Bytes, k: nat)
    requires q.final && k <= |q.n.runes| && MatchFrom(q, d, k).Match?
    requires forall j :: 0 <= j < |q.n.runes| ==> OwnRune(q.n.runes[j])
    ensures MatchFrom(q, d, k).w >= |EncodeRunes(q.n.runes[k..])|
    decreases |q.n.runes| - k
  {
    hide EncodeRune, EncodeRunes, FindRune;
    if k == |q.n.runes| {
      assert q.n.runes[k..] == [];
      EncodeNoRunes();
    } else {
      var f := FindRune(q, d, q.n.runes[k], k == 0, 0);
      FindLength(q, d, q.n.runes[k], k == 0, 0);
      MatchLength(q, d[f.w..], k + 1);
      TextCons(q.n, k, []);
    }
  }

  // ---- self-escapes

  /** A self-escaped character takes its escape, which is longer than its own byte. */
  lemma FindSelfEscaped(q: Query, rest: Bytes, k: nat)
    requires q.final && q.escaped && ReadsAsItself(q.n, rest) && SelfEscaped(q.n, rest, k)
    ensures var f := FindRune(q, TextFromRune(q.n, k, rest), q.n.runes[k], k == 0, 0);
            f.RuneAt? && f.w > |EncodeRune(q.n.runes[k])|
  {
    hide EncodeRune, ReadToken, TextFromRune, FindRune, EqualRune, IsLetter, Spells;
    var d := TextFromRune(q.n, k, rest);
    OwnToken(q.n, rest, k, true);
    FindRuneStep(q, d, q.n.runes[k], k == 0, 0);
    EqualsItself(q.n.runes[k], q.n.fold);
    OneByte(q.n.runes[k]);
  }

  lemma SelfEscapedInside(n: Needle, rest: Bytes, k: nat)
    requires SelfEscaped(n, rest, k)
    ensures k < |n.runes|
  {
  }

  lemma {:induction false} SelfEscapedIsWider(q: Query, rest: Bytes, k: nat)
    requires q.final && q.escaped && ReadsAsItself(q.n, rest) && k <= |q.n.runes| && SelfEscapesFrom(q.n, rest, k)
    requires MatchFrom(q, TextFromRune(q.n, k, rest), k).Match?
    ensures MatchFrom(q, TextFromRune(q.n, k, rest), k).w > |EncodeRunes(q.n.runes[k..])|
    decreases |q.n.runes| - k
  {
    hide EncodeRune, EncodeRunes, TextFromRune, FindRune, InOwnBytes, SelfEscaped, ReadsItself, OwnRune;
    var j :| k <= j && SelfEscaped(q.n, rest, j);
    SelfEscapedInside(q.n, rest, j);
    var d := TextFromRune(q.n, k, rest);
    var f := FindRune(q, d, q.n.runes[k], k == 0, 0);
    TextCons(q.n, k, rest);
    if SelfEscaped(q.n, rest, k) {
      FindSelfEscaped(q, rest, k);
      MatchLength(q, d[f.w..], k + 1);
    } else {
      FindOwn(q, rest, k);
      assert SelfEscapesFrom(q.n, rest, k + 1);
      SelfEscapedIsWider(q, rest, k + 1);
    }
  }

  /**
    * A needle matches its own bytes: always when escapes are not read, and when they are exactly if none of its
    * characters escapes itself.
    */
  lemma MatchesOwnText(u: Unicode, n: Needle, rest: Bytes)
    requires ReadsAsItself(n, rest)
    ensures var t := EncodeRunes(n.runes);
            var plain := MatchHere(Query(u, n, false, true), t + rest);
            var read := MatchHere(Query(u, n, true, true), t + rest);
            && plain.Match? && plain.w == |t|
            && (read.Match? && read.w == |t| <==> !SelfEscapes(n, rest))
            && (read.Match? ==> read.w >= |t|)
  {
    hide EncodeRunes, SelfEscaped, MatchFrom, InOwnBytes, OwnRune, ReadsItself;
    assert n.runes[0..] == n.runes;
    OwnMatchFrom(Query(u, n, false, true), rest, 0);
    var q := Query(u, n, true, true);
    if SelfEscapes(n, rest) {
      assert SelfEscapesFrom(n, rest, 0);
      if MatchHere(q, EncodeRunes(n.runes) + rest).Match? {
        SelfEscapedIsWider(q, rest, 0);
      }
    } else {
      OwnMatchFrom(q, rest, 0);
    }
  }

  // ---- what the scrub does with it

  /** The reading with escapes is tried unless the needle starts with an escape for another character. */
  lemma OwnPass(u: Unicode, n: Needle, rest: Bytes)
    requires ReadsAsItself(n, rest) && ValidNeedle(n)
    ensures var d := EncodeRunes(n.runes) + rest;
            && d != []
            && (!IsEscapeStart(n.runes[0]) ==> PassMatch(u, n, true, d) == MatchHere(Query(u, n, true, true), d))
            && (n.literalEscape ==> PassMatch(u, n, false, d) == MatchHere(Query(u, n, false, true), d))
            && (IsEscapeStart(n.runes[0]) ==> n.literalEscape && IsEscapeStart(d[0]))
  {
    hide EncodeRune, EncodeRunes, ReadToken, SelfEscaped, MatchHere, LiteralRune, IsEscapeStart, OwnRune;
    assert n.runes[0..] == n.runes;
    OwnToken(n, rest, 0, true);
    OwnToken(n, rest, 0, false);
    EqualsItself(n.runes[0], n.fold);
    FirstByteIff(n, rest);
  }

  lemma FirstByteIff(n: Needle, rest: Bytes)
    requires ReadsAsItself(n, rest)
    ensures var d := TextFromRune(n, 0, rest); d != [] && (IsEscapeStart(d[0]) <==> IsEscapeStart(n.runes[0]))
  {
    hide EncodeRunes, DecodeRune;
    TextCons(n, 0, rest);
    assert ReadsItself(n, rest, 0);
    if IsEscapeStart(TextFromRune(n, 0, rest)[0]) {
      EscapeStartReads(TextFromRune(n, 0, rest));
    }
  }

  lemma PassIsMatch(u: Unicode, n: Needle, escaped: bool, d: Bytes)
    requires d != [] && ValidNeedle(n)
    ensures PassMatch(u, n, escaped, d) in {NoMatch, MatchHere(Query(u, n, escaped, true), d)}
  {
    hide MatchHere, ReadToken;
  }

  /** Only a text of the needle is ever replaced, whichever characters it holds. */
  lemma HitSound(u: Unicode, ns: seq<Needle>, d: Bytes)
    requires d != [] && ValidNeedles(ns) && HitAt(u, ns, d).Hit? && ScalarNeedle(ns[HitAt(u, ns, d).index])
    ensures NeedleText(u, ns[HitAt(u, ns, d).index], d[..HitAt(u, ns, d).w])
  {
    hide PassMatch, Longest, MatchFrom, TextFrom, ScalarNeedle;
    var h := HitAt(u, ns, d);
    var escaped := Longest(u, ns, true, d).Hit?;
    LongestIsLongest(u, ns, escaped, d);
    PassIsMatch(u, ns[h.index], escaped, d);
    MatchSound(Query(u, ns[h.index], escaped, true), d, 0);
  }

  /** Some needle is replaced where the bytes of needle i stand, unless i escapes itself behind its first character. */
  lemma OwnTextHits(u: Unicode, ns: seq<Needle>, i: nat, rest: Bytes)
    requires ValidNeedles(ns) && i < |ns| && ReadsAsItself(ns[i], rest)
    requires IsEscapeStart(ns[i].runes[0]) || !SelfEscapes(ns[i], rest)
    ensures EncodeRunes(ns[i].runes) + rest != [] && HitAt(u, ns, EncodeRunes(ns[i].runes) + rest).Hit?
  {
    hide EncodeRunes, SelfEscapes, MatchHere, PassMatch, Longest, IsEscapeStart;
    var d := EncodeRunes(ns[i].runes) + rest;
    OwnPass(u, ns[i], rest);
    MatchesOwnText(u, ns[i], rest);
    LongestIsLongest(u, ns, true, d);
    LongestIsLongest(u, ns, false, d);
  }

  /** So in any body the first byte of such an occurrence is never copied. */
  lemma OwnTextIsReplaced(u: Unicode, ns: seq<Needle>, i: nat, before: Bytes, rest: Bytes)
    requires ValidNeedles(ns) && i < |ns| && ReadsAsItself(ns[i], rest)
    requires IsEscapeStart(ns[i].runes[0]) || !SelfEscapes(ns[i], rest)
    ensures var d := before + (EncodeRunes(ns[i].runes) + rest);
            |before| < |d| && Replaced(u, ns, d, |before|) && !Copied(u, ns, d, |before|)
  {
    hide EncodeRunes, SelfEscapes, HitAt, IsEscapeStart, Replaced, Copied, ReadsAsItself;
    OwnTextHits(u, ns, i, rest);
    var own := EncodeRunes(ns[i].runes) + rest;
    assert (before + own)[|before|..] == own;
    HitIsReplaced(u, ns, before + own, |before|);
  }

  lemma OnlyNeedle(u: Unicode, n: Needle, escaped: bool, d: Bytes)
    requires d != [] && ValidNeedle(n)
    ensures var m := PassMatch(u, n, escaped, d);
            Longest(u, [n], escaped, d) == if m.Match? then Hit(0, m.w, m.sps) else Miss
  {
    hide PassMatch;
    assert [n][..0] == [];
  }

  /** With the first byte no escape start, only the reading with escapes is tried. */
  lemma OnlyWithEscapes(u: Unicode, n: Needle, rest: Bytes)
    requires ValidNeedle(n) && ReadsAsItself(n, rest) && !IsEscapeStart(n.runes[0])
    ensures EncodeRunes(n.runes) + rest != []
    ensures HitAt(u, [n], EncodeRunes(n.runes) + rest) == Longest(u, [n], true, EncodeRunes(n.runes) + rest)
  {
    hide Longest, EncodeRunes, ReadsAsItself, IsEscapeStart;
    FirstByteIff(n, rest);
    assert n.runes[0..] == n.runes;
  }

  /** A needle alone, and any bytes it stands for alone: they are replaced exactly under that condition. */
  lemma OwnTextHitsIff(u: Unicode, n: Needle)
    requires ReadsAsItself(n, []) && ValidNeedle(n)
    ensures EncodeRunes(n.runes) != []
    ensures HitAt(u, [n], EncodeRunes(n.runes)).Hit? <==> IsEscapeStart(n.runes[0]) || !SelfEscapes(n, [])
  {
    hide EncodeRunes, SelfEscapes, MatchHere, PassMatch, Longest, IsEscapeStart, ReadsAsItself;
    var t := EncodeRunes(n.runes);
    assert t + [] == t;
    OwnPass(u, n, []);
    if IsEscapeStart(n.runes[0]) || !SelfEscapes(n, []) {
      OwnTextHits(u, [n], 0, []);
    } else {
      MatchesOwnText(u, n, []);
      OnlyNeedle(u, n, true, t);
      OnlyWithEscapes(u, n, []);
    }
  }

  lemma SelfEscapesHere(n: Needle, rest: Bytes, k: nat)
    requires SelfEscaped(n, rest, k)
    ensures SelfEscapes(n, rest)
  {
    hide SelfEscaped;
  }

  lemma {:induction false} AsciiText(rs: seq<Rune>)
    requires forall k :: 0 <= k < |rs| ==> rs[k] < 0x80
    ensures EncodeRunes(rs) == rs
  {
    if rs != [] {
      AsciiText(rs[1..]);
      assert rs == [rs[0]] + rs[1..];
    }
  }

  lemma {:induction false} AsciiRunes(b: Bytes)
    requires forall k :: 0 <= k < |b| ==> b[k] < 0x80
    ensures Runes(b) == b
  {
    if b != [] {
      AsciiRunes(b[1..]);
      assert b == [b[0]] + b[1..];
    }
  }

  lemma PercentSpelled()
    ensures Spells([PERCENT, 0x32, 0x35], PERCENT)
  {
    var t := [PERCENT, 0x32, 0x35];
    var digits := t[1..];
    assert digits == [0x32, 0x35] && digits[..1] == [0x32] && digits[..1][..0] == [];
    assert Value(digits[..1], 16) == 2;
    assert Value(digits, 16) == PERCENT;
    assert t[0..] == t && t[..0] == [];
    assert PercentText(t, [PERCENT]);
  }

  /** The text is a%25b. */
  predicate IsExample(d: seq<int>) {
    && |d| == 5 && d[0] == 'a' as int && d[1] == '%' as int && d[2] == '2' as int && d[3] == '5' as int
    && d[4] == 'b' as int
  }

  lemma ExampleEscapesItself(n: Needle)
    requires IsExample(n.runes)
    ensures SelfEscaped(n, [], 1)
  {
    hide Spells, EncodeRunes;
    AsciiText(n.runes[1..]);
    var own := TextFromRune(n, 1, []);
    assert own[..3] == [PERCENT, 0x32, 0x35];
    PercentSpelled();
    assert Spells(own[..3], PERCENT);
  }

  /** The needle a%25b does not match its own bytes: %25 is taken for its %, and then its 2 is missing. */
  lemma OwnTextMissed(u: Unicode, n: Needle, body: Bytes)
    requires IsExample(body) && ValidNeedle(n) && n.runes == Runes(body)
    ensures SelfEscaped(n, [], 1) && HitAt(u, [n], body).Miss?
  {
    hide EncodeRunes, HitAt, SelfEscapes, SelfEscaped, Runes, ReadsAsItself;
    AsciiRunes(body);
    AsciiText(n.runes);
    ExampleEscapesItself(n);
    SelfEscapesHere(n, [], 1);
    ScalarsReadAsThemselves(n, []);
    OwnTextHitsIff(u, n);
  }
}
