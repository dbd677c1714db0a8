/**
  * The bound on held bytes cannot be lowered: for every length there is a needle and a chunk of which exactly
  * 204(n-1) + 11 bytes are held.
  */
module HeldBound {
  import opened Utf8
  import opened Tokens
  import opened Matcher
  import opened Grammar
  import opened NeedleGrammar
  import opened Printer
  import opened Reference
  import opened Tables
  import opened Scanner

  /** A character outside the Basic Multilingual Plane, and a format character there (U+E0001, LANGUAGE TAG). */
  const FACE: Rune := 0x1F600
  const TAG: Rune := 0xE0001

  function Repeat(r: Rune, n: nat): (rs: seq<Rune>)
    ensures |rs| == n && forall i :: 0 <= i < n ==> rs[i] == r
  {
    seq(n, _ => r)
  }

  function FaceNeedle(n: nat): Needle {
    Needle(Repeat(FACE, n), [], false, false)
  }

  /** The longest spelling of a character, twelve bytes. */
  function Wide(r: Rune): Bytes {
    Spell(r, Percent, Upper)
  }

  lemma WideSpells(r: Rune)
    requires 0x10000 <= r <= MAX_RUNE
    ensures |Wide(r)| == 12 && Spells(Wide(r), r) && Wide(r)[0] == PERCENT
  {
    hide Spells, Spell;
    SpellSpells(r, Percent, Upper);
    WideIsPercentText(r);
    PercentTextLength(Wide(r), EncodeRune(r));
  }

  lemma WideIsPercentText(r: Rune)
    ensures PercentText(Wide(r), EncodeRune(r)) && |Wide(r)| > 0 && Wide(r)[0] == PERCENT
  {
    hide EncodeRune, PercentText;
    PercentBytesOfText(EncodeRune(r), false);
    PercentBytesOfStart(EncodeRune(r), false);
  }

  function GapText(g: nat): Bytes {
    if g == 0 then [] else Wide(TAG) + GapText(g - 1)
  }

  lemma {:induction false} GapTextIsGaps(u: Unicode, g: nat)
    requires u.format(TAG)
    ensures |GapText(g)| == 12 * g && Gaps(u, GapText(g), g)
  {
    hide Spells, Wide;
    if g > 0 {
      WideSpells(TAG);
      GapTextIsGaps(u, g - 1);
      var t := GapText(g);
      assert t[..12] == Wide(TAG) && t[12..] == GapText(g - 1);
      assert IsGap(u, TAG) && Spells(t[..12], TAG);
    }
  }

  /** The longest text of the needle from its k-th character on. */
  function LongText(n: nat, k: nat): Bytes
    requires k <= n
    decreases n - k
  {
    if k == n then [] else GapText(Allowed(k)) + Wide(FACE) + LongText(n, k + 1)
  }

  lemma {:induction false} LongTextSpells(u: Unicode, n: nat, k: nat)
    requires k <= n && u.format(TAG)
    ensures TextFrom(u, FaceNeedle(n), LongText(n, k), k)
    ensures |LongText(n, k)| == if k == n then 0 else MaxSpan(FaceNeedle(n), k)
    decreases n - k
  {
    hide Spells, Wide, GapText, Gaps;
    if k < n {
      var g, t := Allowed(k), LongText(n, k);
      var a, w := 12 * g, 12 * g + 12;
      GapTextIsGaps(u, g);
      WideSpells(FACE);
      LongTextSpells(u, n, k + 1);
      assert t[..w][..a] == GapText(g) && t[..w][a..] == Wide(FACE) && t[w..] == LongText(n, k + 1);
      assert Shows(Wide(FACE), FACE);
      assert StepText(u, FaceNeedle(n), t[..w], FaceNeedle(n).runes[k], Allowed(k), a);
    }
  }

  /** One byte short of the longest text, the matcher cannot decide. */
  lemma ShortLongText(u: Unicode, n: nat)
    requires n > 0 && u.format(TAG) && !u.format(FACE)
    ensures var t := LongText(n, 0);
            t != [] && MatchHere(Query(u, FaceNeedle(n), true, false), t[..|t| - 1]).MatchMore?
  {
    hide TextFrom, MatchFrom, LongText;
    var t, q := LongText(n, 0), Query(u, FaceNeedle(n), true, false);
    LongTextSpells(u, n, 0);
    assert t[..|t|] == t;
    MatchComplete(q, t, 0, |t|);
    var short := t[..|t| - 1];
    if !MatchHere(q, short).MatchMore? {
      assert short + t[|t| - 1..] == t;
      MatchFromStable(q, q, short, t[|t| - 1..], 0);
      MatchFromBounds(q, short, 0);
    }
  }

  lemma LongTextStart(u: Unicode, n: nat)
    requires n > 0
    ensures |LongText(n, 0)| >= 12 && LongText(n, 0)[..12] == Wide(FACE)
  {
    WideSpells(FACE);
  }

  /** The bound is reached, at every needle length. */
  lemma HeldBoundIsReached(u: Unicode, s: Scrubber, n: nat)
    requires Built(u, s) && n > 0 && s.needles == [FaceNeedle(n)] && u.format(TAG) && !u.format(FACE)
    ensures exists d :: Scan(u, s, d, false).1 == 204 * (n - 1) + 11
  {
    hide LongText, MatchHere, Wide, ReadToken, Spells, EncodeRune, Pass, Scan, TextFrom;
    var t := LongText(n, 0);
    LongTextSpells(u, n, 0);
    LongTextStart(u, n);
    var d := t[..|t| - 1];
    WideSpells(FACE);
    ShortLongText(u, n);
    assert d[0] == PERCENT;
    assert s.MayStart(d);
    FirstToken(u, n, d);
    OnlyCandidate(u, s, n, d);
    HoldsAll(u, s, d);
  }

  /** For one character the token itself is open; for more, the first character is read. */
  lemma FirstToken(u: Unicode, n: nat, d: Bytes)
    requires n > 0 && d == LongText(n, 0)[..|LongText(n, 0)| - 1] && |d| >= 11
    ensures n > 1 ==> ReadToken(d, true, false).Token? && ReadToken(d, true, false).r == FACE
    ensures n > 1 ==> NextByte(d, ReadToken(d, true, false).w) == 0
  {
    hide ReadToken, Spells, Wide, EncodeRune;
    if n > 1 {
      WideSpells(FACE);
      WideSpells(TAG);
      LongTextStart(u, n);
      LongTextSecond(n);
      assert |d| > 12 && d[..12] == Wide(FACE) by { LongTextLength(n, 1); }
      TokenComplete(d, 12, FACE, false);
      assert d[12] == PERCENT;
    }
  }

  lemma LongTextSecond(n: nat)
    requires n > 1
    ensures |LongText(n, 0)| > 13 && LongText(n, 0)[12] == PERCENT
  {
    hide Wide;
    WideSpells(FACE);
    WideSpells(TAG);
    assert LongText(n, 0) == [] + Wide(FACE) + LongText(n, 1);
    assert LongText(n, 1) == GapText(16) + Wide(FACE) + LongText(n, 2);
    assert GapText(16) == Wide(TAG) + GapText(15);
  }

  lemma LongTextLength(n: nat, k: nat)
    requires k < n
    ensures |LongText(n, k)| >= 12
  {
    WideSpells(FACE);
  }

  lemma OnlyCandidate(u: Unicode, s: Scrubber, n: nat, d: Bytes)
    requires Built(u, s) && n > 0 && s.needles == [FaceNeedle(n)] && d != []
    requires MatchHere(Query(u, FaceNeedle(n), true, false), d).MatchMore?
    requires n > 1 ==> ReadToken(d, true, false).Token? && ReadToken(d, true, false).r == FACE
                       && NextByte(d, ReadToken(d, true, false).w) == 0
    ensures Pass(u, s, d, true, false).more
  {
    hide ReadToken, MatchFrom;
    var t := ReadToken(d, true, false);
    if n == 1 && t.Token? {
      OneCharacter(Query(u, FaceNeedle(n), true, false), d);
    }
    if n > 1 {
      var next := NextByte(d, t.w);
      assert s.StartingWith(t.r) == HeadIndices(u, s.needles, t.r);
      assert s.needles[..0] == [];
      assert HeadIndices(u, s.needles, t.r) == [0];
      assert !PassedOver(Query(u, FaceNeedle(n), true, false), next);
    }
  }

  lemma OneCharacter(q: Query, d: Bytes)
    requires d != [] && |q.n.runes| == 1 && ReadToken(d, q.escaped, q.final).Token?
    ensures !MatchHere(q, d).MatchMore?
  {
    hide ReadToken;
    var f := FindRune(q, d, q.n.runes[0], true, 0);
    if f.RuneAt? {
      assert MatchFrom(q, d[f.w..], 1) == Match(0, []);
    }
  }

  lemma HoldsAll(u: Unicode, s: Scrubber, d: Bytes)
    requires Built(u, s) && d != [] && s.MayStart(d) && Pass(u, s, d, true, false).more
    ensures Scan(u, s, d, false).1 == |d|
  {
    hide Pass;
    assert AttemptAt(u, s, d, false).more;
    assert StepAt(u, s, d, false) == Hold;
  }
}
