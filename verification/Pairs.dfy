/**
  * What the scrub promises of the pairs it was built from: each needle stands for its own pair, what is written for a
  * match is that pair's replacement, and a needle met in its own bytes is replaced by the replacement's own bytes.
  */
module Pairs {
  import opened Utf8
  import opened Tokens
  import opened Matcher
  import opened HexCases
  import opened Printer
  import opened Reference
  import opened Replacing
  import opened Tables
  import opened Alignment
  import opened EncodedMatch
  import opened OwnText

  // ---- needles and pairs

  /** The pairs with something to find. */
  function PairsToFind(ps: seq<ScrubPair>): seq<ScrubPair> {
    if ps == [] then []
    else PairsToFind(ps[..|ps| - 1]) + if ps[|ps| - 1].needle == [] then [] else [ps[|ps| - 1]]
  }

  /** n finds what p says, replaces it with what p says, and folds case if p says so. */
  predicate StandsForPair(n: Needle, p: ScrubPair) {
    EncodeRunes(n.runes) == p.needle && EncodeRunes(n.repl) == p.repl && n.fold == p.fold
  }

  lemma NeedleStandsFor(p: ScrubPair)
    ensures StandsForPair(NeedleOf(p), p) && (NeedleOf(p).runes == [] <==> p.needle == [])
  {
    EncodeRunesInvertsRunes(p.needle);
    EncodeRunesInvertsRunes(p.repl);
  }

  /** The needles are the pairs with something to find, one for one and in order. */
  lemma {:induction false} NeedlesArePairs(ps: seq<ScrubPair>)
    ensures |NeedlesOf(ps)| == |PairsToFind(ps)|
    ensures forall k :: 0 <= k < |PairsToFind(ps)| ==> StandsForPair(NeedlesOf(ps)[k], PairsToFind(ps)[k])
  {
    hide NeedleOf, StandsForPair;
    if ps != [] {
      NeedlesArePairs(ps[..|ps| - 1]);
      NeedleStandsFor(ps[|ps| - 1]);
    }
  }

  lemma {:induction false} NeedlesReadPairs(ps: seq<ScrubPair>)
    ensures |NeedlesOf(ps)| == |PairsToFind(ps)|
    ensures forall k :: 0 <= k < |PairsToFind(ps)| ==> NeedlesOf(ps)[k] == NeedleOf(PairsToFind(ps)[k])
  {
    hide NeedleOf;
    if ps != [] {
      NeedlesReadPairs(ps[..|ps| - 1]);
      NeedleStandsFor(ps[|ps| - 1]);
    }
  }

  // ---- what is written for a match

  /** A replacement that can be written anywhere and read back: proper characters, none of them %, \ or &. */
  predicate PlainReplacement(p: ScrubPair) {
    forall k :: 0 <= k < |Runes(p.repl)| ==> IsScalar(Runes(p.repl)[k]) && !IsEscapeStart(Runes(p.repl)[k])
  }

  /**
    * Where the scrub stops on a match of pair p, the text it writes there reads back, in whatever spelling, as the
    * replacement of p.
    */
  lemma PairIsWritten(u: Unicode, ps: seq<ScrubPair>, d: Bytes, k: nat) returns (p: ScrubPair, out: Bytes, text: Bytes)
    requires k < |d| && Stops(u, NeedlesOf(ps), d, k) && HitAt(u, NeedlesOf(ps), d[k..]).Hit?
    ensures var ns := NeedlesOf(ps); var h := HitAt(u, ns, d[k..]);
            && h.index < |PairsToFind(ps)| && p == PairsToFind(ps)[h.index]
            && Scrub(u, ns, d) == out + text + Scrub(u, ns, d[k..][h.w..])
    ensures !p.fold && PlainReplacement(p) ==> RunesRead(ReadAll(text)) == Runes(p.repl)
  {
    hide HitAt, Stops, Scrub, ReadAll, Replacement, Runes;
    var ns := NeedlesOf(ps);
    var h := HitAt(u, ns, d[k..]);
    NeedlesReadPairs(ps);
    p := PairsToFind(ps)[h.index];
    out, text := OutputAt(u, ns, d, k);
    if !p.fold && PlainReplacement(p) {
      PrintParseExact(u, ns[h.index], h.sps);
    }
  }

  // ---- in its own bytes

  lemma {:induction false} EncodeRunesSnoc(rs: seq<Rune>)
    requires rs != []
    ensures EncodeRunes(rs) == EncodeRunes(rs[..|rs| - 1]) + EncodeRune(rs[|rs| - 1])
  {
    hide EncodeRune, EncodeRunes;
    var k := |rs| - 1;
    if k == 0 {
      assert rs == [rs[0]] + [] && rs[..0] == [];
      EncodeRunesCons(rs[0], []);
      EncodeNoRunes();
    } else {
      var rest, init := rs[1..], rs[1..k];
      EncodeRunesSnoc(rest);
      assert rs == [rs[0]] + rest && rs[..k] == [rs[0]] + init && rest[..k - 1] == init;
      EncodeRunesCons(rs[0], rest);
      EncodeRunesCons(rs[0], init);
      Assoc(EncodeRune(rs[0]), EncodeRunes(init), EncodeRune(rs[k]));
    }
  }

  predicate AllInOwnBytes(sps: seq<Spelling>) {
    forall j :: 0 <= j < |sps| ==> InOwnBytes(sps[j])
  }

  predicate AllInForm(sps: seq<Spelling>, f: Form) {
    forall j :: 0 <= j < |sps| ==> sps[j].form == f
  }

  lemma {:induction false} NotInCapitals(sps: seq<Spelling>)
    requires AllInOwnBytes(sps)
    ensures CaseOf(sps, Literal) != Upper
  {
    if sps != [] {
      NotInCapitals(sps[..|sps| - 1]);
    }
  }

  lemma {:induction false} RuneFromMatch(rs: seq<Rune>, sps: seq<Spelling>, f: Form, r: Rune)
    requires |rs| == |sps| && AllInForm(sps, f)
    ensures ByRune(rs, sps, r).Some? ==> ByRune(rs, sps, r).value.form == f
  {
    if rs != [] {
      RuneFromMatch(rs[..|rs| - 1], sps[..|rs| - 1], f, r);
    }
  }

  lemma {:induction false} ClassFromMatch(rs: seq<Rune>, sps: seq<Spelling>, f: Form, c: nat)
    requires |rs| == |sps| && AllInForm(sps, f)
    ensures ByClass(rs, sps, c).Some? ==> ByClass(rs, sps, c).value.form == f
  {
    if rs != [] {
      ClassFromMatch(rs[..|rs| - 1], sps[..|rs| - 1], f, c);
    }
  }

  lemma TakenFromMatch(n: Needle, sps: seq<Spelling>, f: Form, r: Rune)
    requires |n.runes| == |sps| > 0 && AllInForm(sps, f)
    ensures SpellingFor(n, sps, r).form == f
  {
    hide ByRune, ByClass;
    RuneFromMatch(n.runes, sps, f, r);
    ClassFromMatch(n.runes, sps, f, Class(r));
    ClassFromMatch(n.runes, sps, f, 0);
  }

  /** A match in its own bytes is replaced by the replacement's own bytes. */
  lemma {:induction false} WrittenInOwnBytes(u: Unicode, n: Needle, sps: seq<Spelling>, rs: seq<Rune>)
    requires |n.runes| == |sps| > 0 && AllInOwnBytes(sps)
    ensures Replacement(u, n, sps, rs) == EncodeRunes(rs)
  {
    hide EncodeRune, EncodeRunes, SpellingFor, CaseOf;
    if rs == [] {
      EncodeNoRunes();
    } else {
      var k := |rs| - 1;
      WrittenInOwnBytes(u, n, sps, rs[..k]);
      NotInCapitals(sps);
      TakenFromMatch(n, sps, Literal, rs[k]);
      EncodeRunesSnoc(rs);
    }
  }

  lemma OwnHit(u: Unicode, n: Needle, rest: Bytes)
    requires ReadsAsItself(n, rest) && ValidNeedle(n) && !SelfEscapes(n, rest)
    ensures EncodeRunes(n.runes) + rest != []
    ensures var h := HitAt(u, [n], EncodeRunes(n.runes) + rest);
            h.Hit? && h.index == 0 && h.w == |EncodeRunes(n.runes)| && AllInOwnBytes(h.sps)
  {
    hide EncodeRunes, SelfEscaped, MatchFrom, InOwnBytes, ReadsAsItself, PassMatch, Longest, IsEscapeStart;
    var d := EncodeRunes(n.runes) + rest;
    assert n.runes[0..] == n.runes;
    OwnPass(u, n, rest);
    OwnTextHits(u, [n], 0, rest);
    OnlyNeedle(u, n, true, d);
    OnlyNeedle(u, n, false, d);
    OwnMatchFrom(Query(u, n, true, true), rest, 0);
    OwnMatchFrom(Query(u, n, false, true), rest, 0);
    PassIsMatch(u, n, true, d);
    PassIsMatch(u, n, false, d);
  }

  lemma OneNeedle(p: ScrubPair)
    requires p.needle != []
    ensures ValidNeedle(NeedleOf(p)) && NeedlesOf([p]) == [NeedleOf(p)]
  {
    hide Runes;
    assert [p][..0] == [];
    NeedleStandsFor(p);
  }

  /** Scrubbing the bytes of a pair's needle gives the bytes of its replacement, and goes on behind them. */
  lemma OwnTextIsExchanged(u: Unicode, p: ScrubPair, rest: Bytes)
    requires ReadsAsItself(NeedleOf(p), rest) && !SelfEscapes(NeedleOf(p), rest)
    ensures Scrub(u, NeedlesOf([p]), p.needle + rest) == p.repl + Scrub(u, NeedlesOf([p]), rest)
  {
    hide HitAt, OwnRune, ReadsItself, SelfEscapes, Scrub, EncodeRunes, Replacement, NeedleOf, AllInOwnBytes;
    var n := NeedleOf(p);
    NeedleStandsFor(p);
    OneNeedle(p);
    OwnHit(u, n, rest);
    var d := p.needle + rest;
    var h := HitAt(u, [n], d);
    var text := StrideText(u, [n], d);
    WrittenInOwnBytes(u, n, h.sps, n.repl);
    assert d[|p.needle|..] == rest;
  }

  lemma NeedleReads(p: ScrubPair)
    requires p.needle != []
    ensures ReadsAsItself(NeedleOf(p), [])
  {
    BytesReadAsThemselves(NeedleOf(p), p.needle);
  }

  /**
    * A body that is a pair's needle, whatever bytes it is, becomes the replacement, unless the needle escapes itself;
    * and it is found at all exactly if it does not, or starts with an escape start.
    */
  lemma BodyIsExchanged(u: Unicode, p: ScrubPair)
    requires p.needle != []
    ensures !SelfEscapes(NeedleOf(p), []) ==> Scrub(u, NeedlesOf([p]), p.needle) == p.repl
    ensures HitAt(u, NeedlesOf([p]), p.needle).Hit? <==>
              IsEscapeStart(NeedleOf(p).runes[0]) || !SelfEscapes(NeedleOf(p), [])
  {
    hide HitAt, SelfEscapes, EncodeRunes, NeedleOf, ReadsAsItself;
    NeedleStandsFor(p);
    OneNeedle(p);
    NeedleReads(p);
    OwnTextHitsIff(u, NeedleOf(p));
    assert p.needle + [] == p.needle;
    if !SelfEscapes(NeedleOf(p), []) {
      OwnTextIsExchanged(u, p, []);
      assert Scrub(u, NeedlesOf([p]), []) == [];
    }
  }

  // ---- in capitals

  function UpperAll(u: Unicode, rs: seq<Rune>): seq<Rune> {
    seq(|rs|, k requires 0 <= k < |rs| => ToUpper(u, rs[k]))
  }

  /** A match of a fold needle that is spelled literally, and in capitals first, is replaced in capitals. */
  lemma {:induction false} WrittenInCapitals(u: Unicode, n: Needle, sps: seq<Spelling>, rs: seq<Rune>, k: nat)
    requires |n.runes| == |sps| > 0 && n.fold && AllInForm(sps, Literal)
    requires FirstCased(sps, Literal, k) && sps[k].hexCase == Upper
    ensures Replacement(u, n, sps, rs) == EncodeRunes(UpperAll(u, rs))
  {
    hide EncodeRune, EncodeRunes, SpellingFor, CaseOf, AllInForm, FirstCased, ToUpper;
    if rs == [] {
      EncodeNoRunes();
    } else {
      var i := |rs| - 1;
      WrittenInCapitals(u, n, sps, rs[..i], k);
      TakenFromMatch(n, sps, Literal, rs[i]);
      CapitalsTaken(u, n, sps, rs[i], k);
      EncodeRunesSnoc(UpperAll(u, rs));
      assert UpperAll(u, rs)[..i] == UpperAll(u, rs[..i]);
    }
  }

  // ---- in the form of the match

  /** A match that is spelled in one form throughout is replaced in that form, wherever it can spell the character. */
  lemma WrittenInForm(u: Unicode, n: Needle, sps: seq<Spelling>, f: Form)
    requires |n.runes| == |sps| > 0 && AllInForm(sps, f)
    requires forall k :: 0 <= k < |n.repl| ==> Legible(Written(u, n, sps, n.repl[k]), f)
    ensures var read := ReadAll(Replacement(u, n, sps, n.repl));
            && |read| == |n.repl|
            && forall k :: 0 <= k < |read| ==>
                 read[k].1 == if CanSpell(Written(u, n, sps, n.repl[k]), f) then f else Literal
  {
    hide Replacement, Legible, Written, SpellingFor, CanSpell, AllInForm;
    forall r: Rune
      ensures SpellingFor(n, sps, r).form == f
    {
      TakenFromMatch(n, sps, f, r);
    }
    ReadInvertsReplacement(u, n, sps, n.repl, []);
    var text := Replacement(u, n, sps, n.repl);
    assert text + [] == text && ReadAll([]) == [];
    assert ReadAll(text) == Meant(u, n, sps, n.repl);
  }

  // ---- wherever it stands

  /** Wherever the bytes of a pair's needle stand in a body, their first byte is replaced, unless it escapes itself. */
  lemma PairIsReplaced(u: Unicode, ps: seq<ScrubPair>, i: nat, before: Bytes, rest: Bytes)
    requires i < |ps| && ps[i].needle != [] && ReadsAsItself(NeedleOf(ps[i]), rest)
    requires IsEscapeStart(NeedleOf(ps[i]).runes[0]) || !SelfEscapes(NeedleOf(ps[i]), rest)
    ensures var d := before + (ps[i].needle + rest);
            |before| < |d| && Replaced(u, NeedlesOf(ps), d, |before|) && !Copied(u, NeedlesOf(ps), d, |before|)
  {
    hide NeedleOf, Replaced, Copied, ReadsItself, OwnRune, SelfEscapes, IsEscapeStart;
    NeedleStandsFor(ps[i]);
    var k := NeedlesOfHas(ps, i);
    OwnTextIsReplaced(u, NeedlesOf(ps), k, before, rest);
  }

  /** So no body shows the secret as it is, before anything and behind anything. */
  lemma SecretIsReplaced(u: Unicode, t: Transforms, value: Bytes, placeholder: Bytes, before: Bytes, rest: Bytes)
    requires value != [] && ReadsAsItself(NeedleOf(ScrubPair(value, placeholder, false)), rest)
    requires !SelfEscapes(NeedleOf(ScrubPair(value, placeholder, false)), rest)
    ensures var d, ns := before + (value + rest), NeedlesOf(PairsFor(t, value, placeholder));
            |before| < |d| && Replaced(u, ns, d, |before|) && !Copied(u, ns, d, |before|)
  {
    hide NeedleOf, Replaced, Copied, ReadsAsItself, SelfEscapes, PairsFor;
    PairsForIsSound(t, value, placeholder);
    PairIsReplaced(u, PairsFor(t, value, placeholder), 0, before, rest);
  }
}
