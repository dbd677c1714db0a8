/**
  * The scan of one chunk: most positions are passed over by the tables, the candidates at the others come from the
  * index, and data that may be the start of a match is held back unless it is final. Whatever the tables and the
  * chunks, the result is the reference scrub of the whole body.
  */
module Scanner {
  import opened Utf8
  import opened Tokens
  import opened TokenLaws
  import opened Matcher
  import opened Printer
  import opened Reference
  import opened Tables

  /** What is known of a position: whether a longer match may still complete, and the best match so far. */
  datatype Attempt = Attempt(more: bool, best: Hit)

  /** The byte after the first character, when it is plain ASCII; else 0. */
  function NextByte(d: Bytes, w: nat): Byte {
    if w < |d| && d[w] < 0x80 && !IsEscapeStart(d[w]) then d[w] else 0
  }

  /**
    * Whether a candidate is passed over without matching: it has no literal reading to try, or the next byte rules it
    * out.
    */
  predicate PassedOver(q: Query, next: Byte) {
    || (!q.escaped && !q.n.literalEscape)
    || (next != 0 && |q.n.runes| > 1 && !EqualRune(next, q.n.runes[1], q.n.fold))
  }

  function Consider(q: Query, d: Bytes, next: Byte): MatchResult {
    if PassedOver(q, next) then NoMatch else MatchHere(q, d)
  }

  function Note(a: Attempt, index: nat, m: MatchResult): Attempt {
    if m.MatchMore? then a.(more := true) else a.(best := Better(a.best, index, m))
  }

  /** All candidates of one pass. */
  function TryAll(u: Unicode, ns: seq<Needle>, d: Bytes, escaped: bool, final: bool, next: Byte,
                  candidates: seq<nat>): Attempt
    requires forall i :: 0 <= i < |candidates| ==> candidates[i] < |ns|
  {
    if candidates == [] then Attempt(false, Miss)
    else
      var k := |candidates| - 1;
      Note(TryAll(u, ns, d, escaped, final, next, candidates[..k]), candidates[k],
           Consider(Query(u, ns[candidates[k]], escaped, final), d, next))
  }

  /** One reading of the data at a position: with escapes, or literally. */
  function Pass(u: Unicode, s: Scrubber, d: Bytes, escaped: bool, final: bool): Attempt
    requires Built(u, s) && d != []
  {
    var t := ReadToken(d, escaped, final);
    if t.NeedMore? then Attempt(true, Miss)
    else
      assert s.StartingWith(t.r) == HeadIndices(u, s.needles, t.r);
      TryAll(u, s.needles, d, escaped, final, NextByte(d, t.w), s.StartingWith(t.r))
  }

  /** Where an escape starts, the literal reading is tried too unless the escape led to a match. */
  function AttemptAt(u: Unicode, s: Scrubber, d: Bytes, final: bool): Attempt
    requires Built(u, s) && d != []
  {
    var a := Pass(u, s, d, true, final);
    if a.best.Miss? && IsEscapeStart(d[0]) then
      var b := Pass(u, s, d, false, final);
      Attempt(a.more || b.more, b.best)
    else a
  }

  // ---- the shortcuts lose nothing

  /** Data that may follow: anything, unless the data is final. */
  predicate MayFollow(final: bool, more: Bytes) {
    final ==> more == []
  }

  /** A token that has been read is what the whole body shows there. */
  lemma TokenHolds(d: Bytes, more: Bytes, escaped: bool, final: bool)
    requires d != [] && MayFollow(final, more) && ReadToken(d, escaped, final).Token?
    ensures ReadToken(d + more, escaped, true) == ReadToken(d, escaped, final)
  {
    if final {
      assert d + more == d;
    } else {
      ReadTokenStable(d, more, escaped, true);
    }
  }

  lemma MatchHolds(q: Query, d: Bytes, more: Bytes)
    requires MayFollow(q.final, more) && !MatchHere(q, d).MatchMore?
    ensures MatchHere(q.(final := true), d + more) == MatchHere(q, d)
  {
    if q.final {
      assert d + more == d;
      assert q.(final := true) == q;
    } else {
      MatchFromStable(q, q.(final := true), d, more, 0);
    }
  }

  /** A plain second byte that is not the needle's second character means there is no match. */
  lemma NextByteDecides(q: Query, d: Bytes)
    requires d != [] && q.final && |q.n.runes| > 1
    requires var t := ReadToken(d, q.escaped, true);
             && EqualRune(t.r, q.n.runes[0], q.n.fold) && t.w < |d| && d[t.w] < 0x80 && !IsEscapeStart(d[t.w])
             && !EqualRune(d[t.w], q.n.runes[1], q.n.fold)
    ensures MatchHere(q, d) == NoMatch
  {
    hide ReadToken;
    var t := ReadToken(d, q.escaped, true);
    var f := FindRune(q, d, q.n.runes[0], true, 0);
    assert f.RuneAt? && f.w == t.w;
    var rest := d[t.w..];
    PlainByteToken(rest, q.escaped, true);
    assert FindRune(q, rest, q.n.runes[1], false, 0).NoRune?;
    assert MatchFrom(q, rest, 1) == NoMatch;
  }

  /** A character that may begin a needle but is not its first character does not match. */
  lemma HeadWithoutMatch(q: Query, d: Bytes)
    requires d != [] && q.n.runes != [] && ReadToken(d, q.escaped, q.final).Token?
    requires var r := ReadToken(d, q.escaped, q.final).r; IsHead(q.u, q.n, r) && !EqualRune(r, q.n.runes[0], q.n.fold)
    ensures MatchHere(q, d) == NoMatch
  {
    hide ReadToken;
    var t := ReadToken(d, q.escaped, q.final);
    assert q.n.runes[0] >= 0x80;
    assert Supplied(q, d, t, q.n.runes[0]).NoRune?;
    assert FindRune(q, d, q.n.runes[0], true, 0).NoRune?;
  }

  /** Considering a candidate decides it as the reference does. */
  lemma ConsiderDecides(q: Query, d: Bytes, more: Bytes)
    requires d != [] && ValidNeedle(q.n) && MayFollow(q.final, more) && ReadToken(d, q.escaped, q.final).Token?
    requires IsHead(q.u, q.n, ReadToken(d, q.escaped, q.final).r)
    requires !Consider(q, d, NextByte(d, ReadToken(d, q.escaped, q.final).w)).MatchMore?
    ensures Consider(q, d, NextByte(d, ReadToken(d, q.escaped, q.final).w)) == PassMatch(q.u, q.n, q.escaped, d + more)
  {
    hide ReadToken, MatchHere;
    var t := ReadToken(d, q.escaped, q.final);
    var next, q' := NextByte(d, t.w), q.(final := true);
    TokenHolds(d, more, q.escaped, q.final);
    assert q' == Query(q.u, q.n, q.escaped, true);
    if q.escaped || q.n.literalEscape {
      if PassedOver(q, next) {
        if EqualRune(t.r, q.n.runes[0], q.n.fold) {
          NextByteDecides(q', d + more);
        }
      } else {
        MatchHolds(q, d, more);
        if !EqualRune(t.r, q.n.runes[0], q.n.fold) {
          HeadWithoutMatch(q, d);
        }
      }
    }
  }

  /** Trying the indexed needles, when it leaves nothing open, finds the longest match of all needles. */
  lemma {:induction false} TryAllDecides(u: Unicode, ns: seq<Needle>, d: Bytes, more: Bytes, escaped: bool, final: bool)
    requires d != [] && ValidNeedles(ns) && MayFollow(final, more) && ReadToken(d, escaped, final).Token?
    requires var t := ReadToken(d, escaped, final);
             !TryAll(u, ns, d, escaped, final, NextByte(d, t.w), HeadIndices(u, ns, t.r)).more
    ensures var t := ReadToken(d, escaped, final);
            TryAll(u, ns, d, escaped, final, NextByte(d, t.w), HeadIndices(u, ns, t.r)).best
              == Longest(u, ns, escaped, d + more)
  {
    hide ReadToken, Consider, PassMatch, NextByte, IsHead, EqualRune;
    if ns != [] {
      var t, k := ReadToken(d, escaped, final), |ns| - 1;
      var n, next, init := ns[k], NextByte(d, t.w), HeadIndices(u, ns[..k], t.r);
      TryAllPrefix(u, ns, k, d, escaped, final, next, init);
      if IsHead(u, n, t.r) {
        assert HeadIndices(u, ns, t.r)[..|init|] == init;
        ConsiderDecides(Query(u, n, escaped, final), d, more);
      } else {
        assert HeadIndices(u, ns, t.r) == init;
        NoHeadNoMatch(u, n, d, more, escaped, final);
      }
      TryAllDecides(u, ns[..k], d, more, escaped, final);
    }
  }

  lemma NoHeadNoMatch(u: Unicode, n: Needle, d: Bytes, more: Bytes, escaped: bool, final: bool)
    requires d != [] && ValidNeedle(n) && MayFollow(final, more) && ReadToken(d, escaped, final).Token?
    requires !IsHead(u, n, ReadToken(d, escaped, final).r)
    ensures PassMatch(u, n, escaped, d + more) == NoMatch
  {
    hide ReadToken, MatchHere;
    TokenHolds(d, more, escaped, final);
  }

  lemma {:induction false} TryAllPrefix(u: Unicode, ns: seq<Needle>, k: nat, d: Bytes, escaped: bool, final: bool,
                                        next: Byte, candidates: seq<nat>)
    requires k <= |ns| && forall i :: 0 <= i < |candidates| ==> candidates[i] < k
    ensures TryAll(u, ns, d, escaped, final, next, candidates)
              == TryAll(u, ns[..k], d, escaped, final, next, candidates)
  {
    hide Consider, Note;
    if candidates != [] {
      TryAllPrefix(u, ns, k, d, escaped, final, next, candidates[..|candidates| - 1]);
    }
  }

  lemma PassDecides(u: Unicode, s: Scrubber, d: Bytes, more: Bytes, escaped: bool, final: bool)
    requires Built(u, s) && d != [] && MayFollow(final, more) && !Pass(u, s, d, escaped, final).more
    ensures Pass(u, s, d, escaped, final).best == Longest(u, s.needles, escaped, d + more)
  {
    hide ReadToken, TryAll, Longest, HeadIndices;
    var t := ReadToken(d, escaped, final);
    assert s.StartingWith(t.r) == HeadIndices(u, s.needles, t.r);
    TryAllDecides(u, s.needles, d, more, escaped, final);
  }

  /** A position that leaves nothing open is decided as the reference decides it in the whole body. */
  lemma AttemptDecides(u: Unicode, s: Scrubber, d: Bytes, more: Bytes, final: bool)
    requires Built(u, s) && d != [] && MayFollow(final, more) && !AttemptAt(u, s, d, final).more
    ensures AttemptAt(u, s, d, final).best == HitAt(u, s.needles, d + more)
  {
    hide Pass, Longest;
    PassDecides(u, s, d, more, true, final);
    if Longest(u, s.needles, true, d + more).Miss? && IsEscapeStart(d[0]) {
      PassDecides(u, s, d, more, false, final);
    }
  }

  /** A needle that the tables rule out does not match. */
  lemma RuledOut(u: Unicode, n: Needle, d: Bytes)
    requires d != [] && ValidNeedle(n) && !IsEscapeStart(d[0])
    requires !Leads(u, n, d[0]) || (|d| > 1 && !Pairs(u, n, d[0], d[1]))
    ensures PassMatch(u, n, true, d) == NoMatch
  {
    hide ReadToken, MatchHere, EncodeRune;
    var t, q := ReadToken(d, true, true), Query(u, n, true, true);
    if EqualRune(t.r, n.runes[0], n.fold) {
      if d[0] < 0x80 {
        PlainByteToken(d, true, true);
        AsciiLead(n.runes[0]);
        AsciiLead(ToUpper(u, n.runes[0]));
        NextByteDecides(q, d);
      } else {
        HighLead(d);
        assert false;
      }
    }
  }

  lemma AsciiLead(r: Rune)
    ensures r < 0x80 ==> Lead(r) == r
  {
  }

  lemma HighLead(d: Bytes)
    requires d != [] && d[0] >= 0x80
    ensures var t := ReadToken(d, true, true); t.Token? && t.r >= 0x80 && Lead(t.r) == d[0]
  {
    EncodeDecode(d);
  }

  /** The byte tables never pass over a match, whatever follows. */
  lemma MayStartLosesNothing(u: Unicode, s: Scrubber, d: Bytes, more: Bytes)
    requires Built(u, s) && d != [] && !s.MayStart(d)
    ensures HitAt(u, s.needles, d + more) == Miss
  {
    hide PassMatch, Leads, Pairs;
    forall i | 0 <= i < |s.needles|
      ensures PassMatch(u, s.needles[i], true, d + more) == NoMatch
    {
      if |d| > 1 {
        assert !Pairs(u, s.needles[i], d[0], d[1]);
      }
      RuledOut(u, s.needles[i], d + more);
    }
    NoneLongest(u, s.needles, d + more);
  }

  lemma {:induction false} NoneLongest(u: Unicode, ns: seq<Needle>, d: Bytes)
    requires d != [] && ValidNeedles(ns) && forall i :: 0 <= i < |ns| ==> PassMatch(u, ns[i], true, d) == NoMatch
    ensures Longest(u, ns, true, d) == Miss
  {
    hide PassMatch;
    if ns != [] {
      NoneLongest(u, ns[..|ns| - 1], d);
    }
  }

  // ---- the scan of a chunk

  lemma AttemptFits(u: Unicode, s: Scrubber, d: Bytes, final: bool)
    requires Built(u, s) && d != []
    ensures var h := AttemptAt(u, s, d, final).best;
            h.Hit? ==> h.index < |s.needles| && 1 <= h.w <= |d| && |h.sps| == |s.needles[h.index].runes|
  {
    hide TryAll, HeadIndices;
    TryAllFits(u, s, d, true, final);
    TryAllFits(u, s, d, false, final);
  }

  lemma TryAllFits(u: Unicode, s: Scrubber, d: Bytes, escaped: bool, final: bool)
    requires Built(u, s) && d != []
    ensures var h := Pass(u, s, d, escaped, final).best;
            h.Hit? ==> h.index < |s.needles| && 1 <= h.w <= |d| && |h.sps| == |s.needles[h.index].runes|
  {
    hide ReadToken, TryAll;
    var t := ReadToken(d, escaped, final);
    if t.Token? {
      TryCandidatesFit(u, s.needles, d, escaped, final, NextByte(d, t.w), s.StartingWith(t.r));
    }
  }

  lemma {:induction false} TryCandidatesFit(u: Unicode, ns: seq<Needle>, d: Bytes, escaped: bool, final: bool,
                                            next: Byte, candidates: seq<nat>)
    requires ValidNeedles(ns) && forall i :: 0 <= i < |candidates| ==> candidates[i] < |ns|
    ensures var h := TryAll(u, ns, d, escaped, final, next, candidates).best;
            h.Hit? ==> h.index < |ns| && 1 <= h.w <= |d| && |h.sps| == |ns[h.index].runes|
  {
    hide MatchHere;
    if candidates != [] {
      var k := |candidates| - 1;
      TryCandidatesFit(u, ns, d, escaped, final, next, candidates[..k]);
      assert ValidNeedle(ns[candidates[k]]);
      MatchHereBounds(Query(u, ns[candidates[k]], escaped, final), d);
    }
  }

  lemma MatchHereBounds(q: Query, d: Bytes)
    requires q.n.runes != []
    ensures MatchHere(q, d).Match? ==> 1 <= MatchHere(q, d).w <= |d| && |MatchHere(q, d).sps| == |q.n.runes|
    ensures MatchHere(q, d).MatchMore? ==> !q.final && |d| < MaxSpan(q.n, 0)
  {
    MatchFromBounds(q, d, 0);
  }

  /** One step of the scan; it holds when a longer match may still complete. */
  function StepAt(u: Unicode, s: Scrubber, d: Bytes, final: bool): (t: Step)
    requires Built(u, s) && d != []
    ensures t.Advance? ==> 1 <= t.w <= |d|
  {
    AttemptFits(u, s, d, final);
    if !s.MayStart(d) then StepOf(u, s.needles, d, Miss)
    else if AttemptAt(u, s, d, final).more then Hold
    else StepOf(u, s.needles, d, AttemptAt(u, s, d, final).best)
  }

  /** The scrubbed bytes and how many trailing bytes are held back. */
  function Scan(u: Unicode, s: Scrubber, d: Bytes, final: bool): (r: (Bytes, nat))
    requires Built(u, s)
    ensures r.1 <= |d|
    decreases |d|
  {
    if d == [] then ([], 0)
    else
      match StepAt(u, s, d, final)
      case Hold => ([], |d|)
      case Advance(w, text) => var rest := Scan(u, s, d[w..], final); (text + rest.0, rest.1)
  }

  /** A step taken is the step the reference takes in the whole body. */
  lemma StepDecides(u: Unicode, s: Scrubber, d: Bytes, more: Bytes, final: bool)
    requires Built(u, s) && d != [] && MayFollow(final, more) && StepAt(u, s, d, final).Advance?
    ensures StepAt(u, s, d, final) == StepOf(u, s.needles, d + more, HitAt(u, s.needles, d + more))
  {
    hide AttemptAt, HitAt, HitText;
    AttemptFits(u, s, d, final);
    if s.MayStart(d) {
      AttemptDecides(u, s, d, more, final);
    } else {
      MayStartLosesNothing(u, s, d, more);
    }
  }

  lemma ScanOfNothing(u: Unicode, s: Scrubber, final: bool)
    requires Built(u, s)
    ensures Scan(u, s, [], final) == ([], 0)
  {
  }

  lemma ScanHolds(u: Unicode, s: Scrubber, d: Bytes, final: bool)
    requires Built(u, s) && d != [] && StepAt(u, s, d, final).Hold?
    ensures Scan(u, s, d, final) == ([], |d|)
  {
    hide StepAt, Built;
  }

  lemma ScanAdvances(u: Unicode, s: Scrubber, d: Bytes, final: bool)
    requires Built(u, s) && d != [] && StepAt(u, s, d, final).Advance?
    ensures var t := StepAt(u, s, d, final);
            var rest := Scan(u, s, d[t.w..], final);
            Scan(u, s, d, final) == (t.text + rest.0, rest.1)
  {
    hide StepAt, Built;
  }

  lemma ScrubAdvances(u: Unicode, ns: seq<Needle>, d: Bytes)
    requires ValidNeedles(ns) && d != []
    ensures var t := StepOf(u, ns, d, HitAt(u, ns, d)); Scrub(u, ns, d) == t.text + Scrub(u, ns, d[t.w..])
  {
    hide StepOf, HitAt, ValidNeedles;
  }

  /** The bytes held back of d, and then more. */
  function HeldThen(d: Bytes, held: nat, more: Bytes): Bytes
    requires held <= |d|
  {
    d[|d| - held..] + more
  }

  lemma HoldingAll(d: Bytes, more: Bytes, out: Bytes)
    ensures HeldThen(d, |d|, more) == d + more && [] + out == out
  {
  }

  /** What is held of the rest is what is held of the whole. */
  lemma HoldingOfRest(d: Bytes, more: Bytes, w: nat, held: nat)
    requires w <= |d| && held <= |d| - w
    ensures (d + more)[w..] == d[w..] + more && HeldThen(d[w..], held, more) == HeldThen(d, held, more)
  {
  }

  /**
    * The law of streaming: what a scan delivers of a chunk, followed by the scrub of what it held back together with
    * whatever comes next, is the scrub of everything. A final scan holds nothing back.
    */
  lemma {:induction false} ScanIsScrub(u: Unicode, s: Scrubber, d: Bytes, more: Bytes, final: bool)
    requires Built(u, s) && MayFollow(final, more)
    ensures var r := Scan(u, s, d, final);
            && (final ==> r.1 == 0)
            && Scrub(u, s.needles, d + more) == r.0 + Scrub(u, s.needles, HeldThen(d, r.1, more))
    decreases |d|
  {
    hide StepAt, StepOf, HitAt, Built, ValidNeedles, Scan, Scrub, HeldThen;
    BuiltIsValid(u, s);
    if d == [] {
      ScanOfNothing(u, s, final);
      HoldingAll(d, more, Scrub(u, s.needles, d + more));
    } else if StepAt(u, s, d, final).Hold? {
      StepHolds(u, s, d, final);
      ScanHolds(u, s, d, final);
      HoldingAll(d, more, Scrub(u, s.needles, d + more));
    } else {
      var t := StepAt(u, s, d, final);
      var rest := Scan(u, s, d[t.w..], final);
      StepDecides(u, s, d, more, final);
      ScanAdvances(u, s, d, final);
      ScrubAdvances(u, s.needles, d + more);
      ScanIsScrub(u, s, d[t.w..], more, final);
      HoldingOfRest(d, more, t.w, rest.1);
      Assoc(t.text, rest.0, Scrub(u, s.needles, HeldThen(d, rest.1, more)));
    }
  }

  lemma BuiltIsValid(u: Unicode, s: Scrubber)
    requires Built(u, s)
    ensures ValidNeedles(s.needles)
  {
  }

  /** Some needle of which d is one byte short of the longest spelling, or shorter. */
  predicate ShortOf(ns: seq<Needle>, d: Bytes) {
    exists i :: 0 <= i < |ns| && |d| < MaxSpan(ns[i], 0)
  }

  lemma {:induction false} TryAllHolds(u: Unicode, ns: seq<Needle>, d: Bytes, escaped: bool, final: bool, next: Byte,
                                       candidates: seq<nat>)
    requires ValidNeedles(ns) && forall i :: 0 <= i < |candidates| ==> candidates[i] < |ns|
    requires TryAll(u, ns, d, escaped, final, next, candidates).more
    ensures !final && ShortOf(ns, d)
  {
    hide MatchHere;
    var k := |candidates| - 1;
    var n := ns[candidates[k]];
    assert ValidNeedle(n);
    MatchHereBounds(Query(u, n, escaped, final), d);
    if !Consider(Query(u, n, escaped, final), d, next).MatchMore? {
      TryAllHolds(u, ns, d, escaped, final, next, candidates[..k]);
    }
  }

  lemma PassHolds(u: Unicode, s: Scrubber, d: Bytes, escaped: bool, final: bool)
    requires Built(u, s) && d != [] && Pass(u, s, d, escaped, final).more
    ensures !final && (|d| < MAX_TOKEN || ShortOf(s.needles, d))
  {
    hide ReadToken, TryAll, ShortOf;
    var t := ReadToken(d, escaped, final);
    if t.Token? {
      TryAllHolds(u, s.needles, d, escaped, final, NextByte(d, t.w), s.StartingWith(t.r));
    }
  }

  lemma AttemptHolds(u: Unicode, s: Scrubber, d: Bytes, final: bool)
    requires Built(u, s) && d != [] && AttemptAt(u, s, d, final).more
    ensures !final && (|d| < MAX_TOKEN || ShortOf(s.needles, d))
  {
    hide Pass, ShortOf;
    if Pass(u, s, d, true, final).more {
      PassHolds(u, s, d, true, final);
    } else {
      PassHolds(u, s, d, false, final);
    }
  }

  lemma StepHolds(u: Unicode, s: Scrubber, d: Bytes, final: bool)
    requires Built(u, s) && d != [] && StepAt(u, s, d, final).Hold?
    ensures !final && (|d| < MAX_TOKEN || ShortOf(s.needles, d))
  {
    hide AttemptAt, ShortOf;
    AttemptHolds(u, s, d, final);
  }

  /** A scan holds back at most 11 bytes, or at most 204(n-1) + 11 for some needle of n characters. */
  lemma {:induction false} HeldIsBounded(u: Unicode, s: Scrubber, d: Bytes, final: bool)
    requires Built(u, s)
    ensures var held := Scan(u, s, d, final).1;
            held <= 11 || exists i :: 0 <= i < |s.needles| && held <= 204 * (|s.needles[i].runes| - 1) + 11
    decreases |d|
  {
    hide StepAt, Built;
    if d != [] {
      match StepAt(u, s, d, final)
      case Advance(w, _) =>
        HeldIsBounded(u, s, d[w..], final);
      case Hold =>
        StepHolds(u, s, d, final);
        if |d| >= MAX_TOKEN {
          var i :| 0 <= i < |s.needles| && |d| < MaxSpan(s.needles[i], 0);
          assert |d| <= 204 * (|s.needles[i].runes| - 1) + 11;
        }
    }
  }

  // ---- the loops

  /** The candidates of one pass; more and best are carried over from the pass before. */
  method TryCandidates(u: Unicode, s: Scrubber, data: Bytes, i: nat, escaped: bool, final: bool, next: Byte,
                       candidates: seq<nat>) returns (a: Attempt)
    requires Built(u, s) && i < |data| && forall k :: 0 <= k < |candidates| ==> candidates[k] < |s.needles|
    ensures a == TryAll(u, s.needles, data[i..], escaped, final, next, candidates)
  {
    hide Built, MatchHere;
    a := Attempt(false, Miss);
    for k := 0 to |candidates|
      invariant a == TryAll(u, s.needles, data[i..], escaped, final, next, candidates[..k])
    {
      assert candidates[..k + 1][..k] == candidates[..k];
      var index := candidates[k];
      var q := Query(u, s.needles[index], escaped, final);
      if !PassedOver(q, next) {
        var m := MatchAt(q, data, i);
        match m
        case MatchMore => a := a.(more := true);
        case Match(w, sps) =>
          if a.best.Miss? || w > a.best.w {
            a := a.(best := Hit(index, w, sps));
          }
        case NoMatch =>
      }
    }
    assert candidates[..|candidates|] == candidates;
  }

  /** The readings tried at one position. */
  method TryPosition(u: Unicode, s: Scrubber, data: Bytes, i: nat, final: bool) returns (a: Attempt)
    requires Built(u, s) && i < |data|
    ensures a == AttemptAt(u, s, data[i..], final)
  {
    hide ReadToken, TryAll, HeadIndices, StartMeans, PairMeans;
    a := Attempt(false, Miss);
    var passes, pass := if IsEscapeStart(data[i]) then 2 else 1, 0;
    while pass < passes
      invariant 0 <= pass <= passes && (pass > 0 ==> a.best.Miss?)
      invariant pass == 0 ==> a == Attempt(false, Miss)
      invariant pass == 1 ==> a == Pass(u, s, data[i..], true, final)
      invariant pass == 2 ==> a == AttemptAt(u, s, data[i..], final)
    {
      var escaped := pass == 0;
      var t := Token(data[i], 1, PLAIN);
      if data[i] >= 0x80 || IsEscapeStart(data[i]) {
        t := ReadToken(data[i..], escaped, final);
      } else {
        PlainByteToken(data[i..], escaped, final);
      }
      if t.NeedMore? {
        a := a.(more := true);
      } else {
        var next: Byte := 0;
        if i + t.w < |data| && data[i + t.w] < 0x80 && !IsEscapeStart(data[i + t.w]) {
          next := data[i + t.w];
        }
        var candidates := s.StartingWith(t.r);
        assert candidates == HeadIndices(u, s.needles, t.r);
        var b := TryCandidates(u, s, data, i, escaped, final, next, candidates);
        a := Attempt(a.more || b.more, b.best);
        if a.best.Hit? {
          return;
        }
      }
      pass := pass + 1;
    }
  }

  /** What is written so far, the bytes not yet written and the scan of what remains make up the whole scan. */
  ghost predicate OnTrack(u: Unicode, s: Scrubber, dst: Bytes, out: Bytes, data: Bytes, emitted: nat, i: nat,
                          final: bool)
    requires Built(u, s)
  {
    && emitted <= i <= |data|
    && dst + Scan(u, s, data, final).0 == out + data[emitted..i] + Scan(u, s, data[i..], final).0
    && Scan(u, s, data, final).1 == Scan(u, s, data[i..], final).1
  }

  /** scan: appends data to dst with every needle replaced, up to the bytes held back. */
  method ScanChunk(u: Unicode, s: Scrubber, dst: Bytes, data: Bytes, final: bool) returns (out: Bytes, held: nat)
    requires Built(u, s)
    ensures (out, held) == (dst + Scan(u, s, data, final).0, Scan(u, s, data, final).1)
  {
    hide Built, AttemptAt, OnTrack, Scan, Replacement;
    BuiltIsSized(u, s);
    out := dst;
    var emitted: nat, i: nat := 0, 0;
    TrackStarts(u, s, dst, data, final);
    while i < |data|
      invariant emitted <= i <= |data| && OnTrack(u, s, dst, out, data, emitted, i, final)
    {
      while i < |data| && !s.MayStart(data[i..])
        invariant emitted <= i <= |data| && OnTrack(u, s, dst, out, data, emitted, i, final)
      {
        TrackPasses(u, s, dst, out, data, emitted, i, final);
        i := i + 1;
      }
      if i == |data| {
        break;
      }
      var a := TryPosition(u, s, data, i, final);
      AttemptFits(u, s, data[i..], final);
      if a.more {
        TrackHolds(u, s, dst, out, data, emitted, i, final);
        return out + data[emitted..i], |data| - i;
      }
      if a.best.Miss? {
        TrackPasses(u, s, dst, out, data, emitted, i, final);
        i := i + 1;
      } else {
        TrackReplaces(u, s, dst, out, data, emitted, i, a.best, final);
        out := EncodeReplacement(u, out + data[emitted..i], s.needles[a.best.index], a.best.sps);
        i := i + a.best.w;
        emitted := i;
      }
    }
    TrackEnds(u, s, dst, out, data, emitted, final);
    return out + data[emitted..], 0;
  }

  lemma BuiltIsSized(u: Unicode, s: Scrubber)
    requires Built(u, s)
    ensures s.Sized() && ValidNeedles(s.needles)
  {
  }

  lemma TrackStarts(u: Unicode, s: Scrubber, dst: Bytes, data: Bytes, final: bool)
    requires Built(u, s)
    ensures OnTrack(u, s, dst, dst, data, 0, 0, final)
  {
    assert data[0..] == data;
  }

  lemma TrackEnds(u: Unicode, s: Scrubber, dst: Bytes, out: Bytes, data: Bytes, emitted: nat, final: bool)
    requires Built(u, s) && OnTrack(u, s, dst, out, data, emitted, |data|, final)
    ensures (out + data[emitted..], 0) == (dst + Scan(u, s, data, final).0, Scan(u, s, data, final).1)
  {
    hide Built, StepAt;
    assert data[|data|..] == [] && data[emitted..|data|] == data[emitted..];
    assert out + data[emitted..] + [] == out + data[emitted..];
  }

  lemma TrackHolds(u: Unicode, s: Scrubber, dst: Bytes, out: Bytes, data: Bytes, emitted: nat, i: nat, final: bool)
    requires Built(u, s) && i < |data| && OnTrack(u, s, dst, out, data, emitted, i, final)
    requires s.MayStart(data[i..]) && AttemptAt(u, s, data[i..], final).more
    ensures (out + data[emitted..i], |data| - i) == (dst + Scan(u, s, data, final).0, Scan(u, s, data, final).1)
  {
    hide Built, AttemptAt;
    assert StepAt(u, s, data[i..], final) == Hold;
    assert out + data[emitted..i] + [] == out + data[emitted..i];
  }

  /** A byte that begins no match stays. */
  lemma TrackPasses(u: Unicode, s: Scrubber, dst: Bytes, out: Bytes, data: Bytes, emitted: nat, i: nat, final: bool)
    requires Built(u, s) && i < |data| && OnTrack(u, s, dst, out, data, emitted, i, final)
    requires !s.MayStart(data[i..]) || AttemptAt(u, s, data[i..], final) == Attempt(false, Miss)
    ensures OnTrack(u, s, dst, out, data, emitted, i + 1, final)
  {
    hide Built, AttemptAt;
    var rest := Scan(u, s, data[i + 1..], final).0;
    assert data[i..][1..] == data[i + 1..];
    assert StepAt(u, s, data[i..], final) == Advance(1, [data[i]]);
    assert data[emitted..i + 1] == data[emitted..i] + [data[i]];
    assert out + data[emitted..i] + ([data[i]] + rest) == out + (data[emitted..i] + [data[i]]) + rest;
  }

  /** A match is replaced, after the bytes before it. */
  lemma TrackReplaces(u: Unicode, s: Scrubber, dst: Bytes, out: Bytes, data: Bytes, emitted: nat, i: nat, h: Hit,
                      final: bool)
    requires Built(u, s) && i < |data| && OnTrack(u, s, dst, out, data, emitted, i, final)
    requires s.MayStart(data[i..]) && AttemptAt(u, s, data[i..], final) == Attempt(false, h) && h.Hit?
    requires h.index < |s.needles| && 1 <= h.w <= |data| - i && |h.sps| == |s.needles[h.index].runes|
    ensures OnTrack(u, s, dst, out + data[emitted..i] + HitText(u, s.needles, h), data, i + h.w, i + h.w, final)
  {
    hide AttemptAt, HitText, StartMeans, PairMeans;
    assert StepAt(u, s, data[i..], final) == Advance(h.w, HitText(u, s.needles, h));
    assert data[i..][h.w..] == data[i + h.w..];
    assert data[i + h.w..i + h.w] == [];
    Assoc(out + data[emitted..i], HitText(u, s.needles, h), Scan(u, s, data[i + h.w..], final).0);
  }
}
