/**
  * What scrubbing a whole body means: at the leftmost position where a needle matches, the longest match is replaced.
  * Every needle is tried at every position; there are no tables and no chunks.
  */
module Reference {
  import opened Utf8
  import opened Tokens
  import opened Matcher
  import opened Printer

  datatype Hit = Miss | Hit(index: nat, w: nat, sps: seq<Spelling>)

  predicate ValidNeedles(ns: seq<Needle>) {
    forall i :: 0 <= i < |ns| ==> ValidNeedle(ns[i])
  }

  /**
    * One reading of a needle at d. Reading escapes, its first character must be the one spelled there; reading bytes
    * literally is for needles that hold a character which starts an escape.
    */
  function PassMatch(u: Unicode, n: Needle, escaped: bool, d: Bytes): (m: MatchResult)
    requires d != [] && ValidNeedle(n)
    ensures m.Match? ==> 1 <= m.w <= |d| && |m.sps| == |n.runes|
  {
    MatchFromBounds(Query(u, n, escaped, true), d, 0);
    if (escaped || n.literalEscape) && EqualRune(ReadToken(d, escaped, true).r, n.runes[0], n.fold) then
      MatchHere(Query(u, n, escaped, true), d)
    else NoMatch
  }

  function Better(h: Hit, index: nat, m: MatchResult): Hit {
    if m.Match? && (h.Miss? || m.w > h.w) then Hit(index, m.w, m.sps) else h
  }

  /** The longest match, and of several the needle that comes first. */
  function Longest(u: Unicode, ns: seq<Needle>, escaped: bool, d: Bytes): (h: Hit)
    requires d != [] && ValidNeedles(ns)
    ensures h.Hit? ==> h.index < |ns| && 1 <= h.w <= |d| && |h.sps| == |ns[h.index].runes|
  {
    if ns == [] then Miss
    else
      var k := |ns| - 1;
      Better(Longest(u, ns[..k], escaped, d), k, PassMatch(u, ns[k], escaped, d))
  }

  /** Longest means what it says. */
  lemma {:induction false} LongestIsLongest(u: Unicode, ns: seq<Needle>, escaped: bool, d: Bytes)
    requires d != [] && ValidNeedles(ns)
    ensures var h := Longest(u, ns, escaped, d);
            && (h.Hit? ==> PassMatch(u, ns[h.index], escaped, d) == Match(h.w, h.sps))
            && forall i :: 0 <= i < |ns| && PassMatch(u, ns[i], escaped, d).Match? ==>
                 h.Hit? && PassMatch(u, ns[i], escaped, d).w <= h.w &&
                   (i < h.index ==> PassMatch(u, ns[i], escaped, d).w < h.w)
  {
    hide PassMatch;
    if ns != [] {
      var k := |ns| - 1;
      LongestIsLongest(u, ns[..k], escaped, d);
      var h := Longest(u, ns[..k], escaped, d);
      assert forall i :: 0 <= i < k ==> ns[..k][i] == ns[i];
    }
  }

  /** What is replaced at the start of d, if anything. */
  function HitAt(u: Unicode, ns: seq<Needle>, d: Bytes): (h: Hit)
    requires d != [] && ValidNeedles(ns)
    ensures h.Hit? ==> h.index < |ns| && 1 <= h.w <= |d| && |h.sps| == |ns[h.index].runes|
  {
    var h := Longest(u, ns, true, d);
    if h.Miss? && IsEscapeStart(d[0]) then Longest(u, ns, false, d) else h
  }

  function HitText(u: Unicode, ns: seq<Needle>, h: Hit): Bytes
    requires h.Hit? && h.index < |ns| && ValidNeedles(ns) && |h.sps| == |ns[h.index].runes|
  {
    Replacement(u, ns[h.index], h.sps, ns[h.index].repl)
  }

  /** One step of scrubbing: w bytes are consumed and text takes their place. */
  datatype Step = Hold | Advance(w: nat, text: Bytes)

  function StepOf(u: Unicode, ns: seq<Needle>, d: Bytes, h: Hit): (t: Step)
    requires d != [] && ValidNeedles(ns)
    requires h.Hit? ==> h.index < |ns| && 1 <= h.w <= |d| && |h.sps| == |ns[h.index].runes|
    ensures t.Advance? && 1 <= t.w <= |d|
  {
    if h.Miss? then Advance(1, [d[0]]) else Advance(h.w, HitText(u, ns, h))
  }

  /** The scrubbed body. */
  function Scrub(u: Unicode, ns: seq<Needle>, d: Bytes): Bytes
    requires ValidNeedles(ns)
    decreases |d|
  {
    if d == [] then []
    else
      var t := StepOf(u, ns, d, HitAt(u, ns, d));
      t.text + Scrub(u, ns, d[t.w..])
  }

  // ---- needles that hold no character which starts an escape

  predicate PlainNeedles(ns: seq<Needle>) {
    ValidNeedles(ns) && forall i :: 0 <= i < |ns| ==> !HoldsEscapeStart(ns[i].runes)
  }

  /** i is a needle that matches at d, none matches longer, and none before it as long. */
  predicate NaiveHit(u: Unicode, ns: seq<Needle>, d: Bytes, i: nat) {
    && i < |ns| && MatchHere(Query(u, ns[i], true, true), d).Match?
    && forall j :: 0 <= j < |ns| && MatchHere(Query(u, ns[j], true, true), d).Match? ==>
         var wi, wj := MatchHere(Query(u, ns[i], true, true), d).w, MatchHere(Query(u, ns[j], true, true), d).w;
         wj < wi || (wj == wi && i <= j)
  }

  /** A plain needle's match always begins with the character spelled at d. */
  lemma PlainPass(u: Unicode, n: Needle, d: Bytes)
    requires d != [] && ValidNeedle(n) && !HoldsEscapeStart(n.runes)
    ensures PassMatch(u, n, true, d) == MatchHere(Query(u, n, true, true), d)
    ensures PassMatch(u, n, false, d) == NoMatch
  {
    hide ReadToken;
    var q := Query(u, n, true, true);
    var t := ReadToken(d, true, true);
    if !EqualRune(t.r, n.runes[0], n.fold) {
      assert !IsEscapeStart(n.runes[0]);
      assert Supplied(q, d, t, n.runes[0]).NoRune?;
      assert FindRune(q, d, n.runes[0], true, 0).NoRune?;
    }
  }

  lemma {:induction false} PlainLiteral(u: Unicode, ns: seq<Needle>, d: Bytes)
    requires d != [] && PlainNeedles(ns)
    ensures Longest(u, ns, false, d) == Miss
  {
    hide PassMatch;
    if ns != [] {
      PlainPass(u, ns[|ns| - 1], d);
      PlainLiteral(u, ns[..|ns| - 1], d);
    }
  }

  /**
    * For plain needles a position is a miss when no needle matches there, and else the longest and first match is
    * taken.
    */
  lemma PlainHit(u: Unicode, ns: seq<Needle>, d: Bytes)
    requires d != [] && PlainNeedles(ns)
    ensures var h := HitAt(u, ns, d);
            && (h.Miss? <==> forall i :: 0 <= i < |ns| ==> !MatchHere(Query(u, ns[i], true, true), d).Match?)
            && (h.Hit? ==> NaiveHit(u, ns, d, h.index))
            && (h.Hit? ==> MatchHere(Query(u, ns[h.index], true, true), d) == Match(h.w, h.sps))
  {
    hide PassMatch, MatchHere, Longest;
    PlainLiteral(u, ns, d);
    LongestIsLongest(u, ns, true, d);
    forall i | 0 <= i < |ns|
      ensures PassMatch(u, ns[i], true, d) == MatchHere(Query(u, ns[i], true, true), d)
    {
      PlainPass(u, ns[i], d);
    }
  }

  predicate NoneMatches(u: Unicode, ns: seq<Needle>, d: Bytes) {
    forall i :: 0 <= i < |ns| ==> !MatchHere(Query(u, ns[i], true, true), d).Match?
  }

  /** The text that replaces needle i at d. */
  function NaiveText(u: Unicode, ns: seq<Needle>, d: Bytes, i: nat): Bytes
    requires ValidNeedles(ns) && NaiveHit(u, ns, d, i)
  {
    MatchFromBounds(Query(u, ns[i], true, true), d, 0);
    assert ValidNeedle(ns[i]);
    Replacement(u, ns[i], MatchHere(Query(u, ns[i], true, true), d).sps, ns[i].repl)
  }

  function NaiveWidth(u: Unicode, ns: seq<Needle>, d: Bytes, i: nat): (w: nat)
    requires ValidNeedles(ns) && NaiveHit(u, ns, d, i)
    ensures 1 <= w <= |d|
  {
    MatchFromBounds(Query(u, ns[i], true, true), d, 0);
    assert ValidNeedle(ns[i]);
    MatchHere(Query(u, ns[i], true, true), d).w
  }

  /** out is d with the leftmost match replaced, the longest one there, and so on behind it. */
  ghost predicate NaiveScrub(u: Unicode, ns: seq<Needle>, d: Bytes, out: Bytes)
    requires ValidNeedles(ns)
    decreases |d|
  {
    if d == [] then out == []
    else if NoneMatches(u, ns, d) then out != [] && out[0] == d[0] && NaiveScrub(u, ns, d[1..], out[1..])
    else exists i, tail :: NaiveStep(u, ns, d, out, i, tail) && NaiveScrub(u, ns, d[NaiveWidth(u, ns, d, i)..], tail)
  }

  ghost predicate NaiveStep(u: Unicode, ns: seq<Needle>, d: Bytes, out: Bytes, i: nat, tail: Bytes)
    requires ValidNeedles(ns)
  {
    NaiveHit(u, ns, d, i) && out == NaiveText(u, ns, d, i) + tail
  }

  lemma NaiveHitIsUnique(u: Unicode, ns: seq<Needle>, d: Bytes, i: nat, j: nat)
    requires NaiveHit(u, ns, d, i) && NaiveHit(u, ns, d, j)
    ensures i == j
  {
  }

  /** For plain needles the reference scrub is the naive one, and the only one. */
  lemma {:induction false} ScrubIsNaive(u: Unicode, ns: seq<Needle>, d: Bytes, out: Bytes)
    requires PlainNeedles(ns)
    ensures NaiveScrub(u, ns, d, out) <==> out == Scrub(u, ns, d)
    decreases |d|
  {
    hide HitAt, NaiveHit, MatchHere, Replacement;
    if d != [] {
      var h := HitAt(u, ns, d);
      PlainHit(u, ns, d);
      assert h.Miss? <==> NoneMatches(u, ns, d);
      if h.Miss? {
        if out != [] {
          ScrubIsNaive(u, ns, d[1..], out[1..]);
          assert out == [out[0]] + out[1..];
        }
      } else {
        var rest, text := d[h.w..], HitText(u, ns, h);
        assert NaiveText(u, ns, d, h.index) == text && NaiveWidth(u, ns, d, h.index) == h.w;
        ScrubIsNaive(u, ns, rest, Scrub(u, ns, rest));
        if out == Scrub(u, ns, d) {
          assert NaiveStep(u, ns, d, out, h.index, Scrub(u, ns, rest));
        }
        if NaiveScrub(u, ns, d, out) {
          var i, tail :| NaiveStep(u, ns, d, out, i, tail) && NaiveScrub(u, ns, d[NaiveWidth(u, ns, d, i)..], tail);
          NaiveHitIsUnique(u, ns, d, i, h.index);
          ScrubIsNaive(u, ns, rest, tail);
        }
      }
    }
  }
}
