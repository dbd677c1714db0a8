/**
  * The scanner's tables: an index on the first character of the needles, the bytes that can begin a match and the
  * byte pairs that can. Building them in loops gives exactly what the needles call for.
  */
module Tables {
  import opened Utf8
  import opened Tokens
  import opened Matcher
  import opened Reference

  /** One thing to find and what replaces it. */
  datatype ScrubPair = ScrubPair(needle: Bytes, repl: Bytes, fold: bool)

  datatype Scrubber = Scrubber(
    needles: seq<Needle>,
    ascii: seq<seq<nat>>,
    other: map<Rune, seq<nat>>,
    start: seq<bool>,
    pair: seq<set<Byte>>
  ) {
    predicate Sized() {
      |ascii| == 0x80 && |start| == 256 && |pair| == 256
    }

    function StartingWith(r: Rune): seq<nat>
      requires Sized()
    {
      if r < 0x80 then ascii[r] else if r in other then other[r] else []
    }

    /** Whether a match may begin at the start of d, judged by its first two bytes. */
    predicate MayStart(d: Bytes)
      requires Sized() && d != []
    {
      if |d| == 1 then start[d[0]] else d[1] in pair[d[0]]
    }
  }

  function NeedleOf(p: ScrubPair): Needle {
    var rs := Runes(p.needle);
    Needle(rs, Runes(p.repl), p.fold, HoldsEscapeStart(rs))
  }

  /** The needles of a list of pairs; a pair with nothing to find is dropped. */
  function NeedlesOf(ps: seq<ScrubPair>): (ns: seq<Needle>)
    ensures ValidNeedles(ns)
  {
    if ps == [] then []
    else
      var init, n := NeedlesOf(ps[..|ps| - 1]), NeedleOf(ps[|ps| - 1]);
      if n.runes == [] then init else init + [n]
  }

  // ---- what the tables mean

  /** The characters that may begin a match of n: its first, and for a fold needle its capital. */
  predicate IsHead(u: Unicode, n: Needle, r: Rune)
    requires n.runes != []
  {
    r == n.runes[0] || (n.fold && r == ToUpper(u, n.runes[0]))
  }

  function Lead(r: Rune): Byte {
    EncodeRune(r)[0]
  }

  predicate Leads(u: Unicode, n: Needle, b: Byte)
    requires n.runes != []
  {
    b == Lead(n.runes[0]) || (n.fold && b == Lead(ToUpper(u, n.runes[0])))
  }

  /** The second byte decides only when the first two characters are ASCII. */
  predicate Follows(u: Unicode, n: Needle, head: Rune, b: Byte)
    requires n.runes != []
  {
    || head >= 0x80 || |n.runes| == 1 || n.runes[1] >= 0x80
    || b == n.runes[1] || b == ToUpper(u, n.runes[1]) || IsEscapeStart(b) || b >= 0x80
  }

  predicate Pairs(u: Unicode, n: Needle, b0: Byte, b1: Byte)
    requires n.runes != []
  {
    || (b0 == Lead(n.runes[0]) && Follows(u, n, n.runes[0], b1))
    || (n.fold && b0 == Lead(ToUpper(u, n.runes[0])) && Follows(u, n, ToUpper(u, n.runes[0]), b1))
  }

  /** The needles that r may begin, in order. */
  function HeadIndices(u: Unicode, ns: seq<Needle>, r: Rune): (at: seq<nat>)
    requires ValidNeedles(ns)
    ensures forall i :: 0 <= i < |at| ==> at[i] < |ns|
  {
    if ns == [] then []
    else
      var k := |ns| - 1;
      HeadIndices(u, ns[..k], r) + if IsHead(u, ns[k], r) then [k] else []
  }

  predicate StartMeans(u: Unicode, ns: seq<Needle>, start: seq<bool>)
    requires ValidNeedles(ns) && |start| == 256
  {
    forall b: Byte :: 0 <= b < 256 ==>
      (start[b] <==> IsEscapeStart(b) || exists i :: 0 <= i < |ns| && Leads(u, ns[i], b))
  }

  predicate PairMeans(u: Unicode, ns: seq<Needle>, pair: seq<set<Byte>>)
    requires ValidNeedles(ns) && |pair| == 256
  {
    forall b0: Byte, b1: Byte :: 0 <= b0 < 256 && 0 <= b1 < 256 ==>
      (b1 in pair[b0] <==> IsEscapeStart(b0) || exists i :: 0 <= i < |ns| && Pairs(u, ns[i], b0, b1))
  }

  ghost predicate IndexMeans(u: Unicode, s: Scrubber)
    requires ValidNeedles(s.needles) && s.Sized()
  {
    forall r: Rune :: s.StartingWith(r) == HeadIndices(u, s.needles, r)
  }

  /** The tables say what the needles are. */
  ghost predicate Built(u: Unicode, s: Scrubber) {
    && s.Sized() && ValidNeedles(s.needles)
    && IndexMeans(u, s) && StartMeans(u, s.needles, s.start) && PairMeans(u, s.needles, s.pair)
  }

  // ---- building the tables

  const EVERY_BYTE: set<Byte> := set b: Byte | 0 <= b < 256

  function Followers(u: Unicode, n: Needle, head: Rune): set<Byte>
    requires n.runes != []
  {
    set b: Byte | 0 <= b < 256 && Follows(u, n, head, b)
  }

  /** Registers head as a character that may begin needle number index. */
  method AddHead(u: Unicode, s: Scrubber, n: Needle, index: nat, head: Rune) returns (s': Scrubber)
    requires s.Sized() && n.runes != []
    ensures s'.Sized() && s'.needles == s.needles
    ensures forall r: Rune :: s'.StartingWith(r) == s.StartingWith(r) + if r == head then [index] else []
    ensures s'.start == s.start[Lead(head) := true]
    ensures s'.pair == s.pair[Lead(head) := s.pair[Lead(head)] + Followers(u, n, head)]
  {
    hide EncodeRune;
    var lead := EncodeRune(head)[0];
    s' := s.(start := s.start[lead := true]);
    if head < 0x80 {
      s' := s'.(ascii := s.ascii[head := s.ascii[head] + [index]]);
    } else {
      s' := s'.(other := s.other[head := s.StartingWith(head) + [index]]);
    }
    var row: set<Byte> := s.pair[lead];
    if head >= 0x80 || |n.runes| == 1 || n.runes[1] >= 0x80 {
      row := EVERY_BYTE;
    } else {
      row := row + {n.runes[1], ToUpper(u, n.runes[1]), PERCENT, BACKSLASH, AMPERSAND};
      for b1: int := 0x80 to 256
        invariant forall b: Byte :: b in row <==>
                    || b in s.pair[lead] || b == n.runes[1] || b == ToUpper(u, n.runes[1]) || IsEscapeStart(b)
                    || 0x80 <= b < b1
      {
        row := row + {b1};
      }
    }
    assert forall b: Byte :: b in row <==> b in s.pair[lead] || Follows(u, n, head, b);
    assert row == s.pair[lead] + Followers(u, n, head);
    s' := s'.(pair := s.pair[lead := row]);
  }

  lemma AddNeedleIndex(u: Unicode, ns: seq<Needle>, n: Needle, r: Rune)
    requires ValidNeedles(ns) && ValidNeedle(n)
    ensures HeadIndices(u, ns + [n], r) == HeadIndices(u, ns, r) + if IsHead(u, n, r) then [|ns|] else []
  {
    assert (ns + [n])[..|ns|] == ns;
  }

  lemma AddNeedleTables(u: Unicode, ns: seq<Needle>, n: Needle, s: Scrubber, s': Scrubber)
    requires s.Sized() && s'.Sized() && ValidNeedles(ns) && ValidNeedle(n)
    requires StartMeans(u, ns, s.start) && PairMeans(u, ns, s.pair)
    requires forall b: Byte :: 0 <= b < 256 ==> (s'.start[b] <==> s.start[b] || Leads(u, n, b))
    requires forall b0: Byte, b1: Byte :: 0 <= b0 < 256 && 0 <= b1 < 256 ==>
               (b1 in s'.pair[b0] <==> b1 in s.pair[b0] || Pairs(u, n, b0, b1))
    ensures StartMeans(u, ns + [n], s'.start) && PairMeans(u, ns + [n], s'.pair)
  {
    hide Leads, Pairs, IsEscapeStart;
    var ns' := ns + [n];
    assert forall i :: 0 <= i < |ns| ==> ns'[i] == ns[i];
    assert ns'[|ns|] == n;
  }

  /** newScrubber. */
  method NewScrubber(u: Unicode, pairs: seq<ScrubPair>) returns (s: Scrubber)
    ensures Built(u, s) && s.needles == NeedlesOf(pairs)
  {
    hide StartMeans, PairMeans, EncodeRune, HeadIndices, Runes;
    s := EmptyScrubber(u);
    for k := 0 to |pairs|
      invariant Built(u, s) && s.needles == NeedlesOf(pairs[..k])
    {
      assert pairs[..k + 1][..k] == pairs[..k];
      var rs := DecodeRunes(pairs[k].needle);
      var repl := DecodeRunes(pairs[k].repl);
      var n := Needle(rs, repl, pairs[k].fold, HoldsEscapeStart(rs));
      if |rs| > 0 {
        s := AddNeedle(u, s, n);
      }
    }
    assert pairs[..|pairs|] == pairs;
  }

  /** Only the bytes that start an escape are marked. */
  method EmptyScrubber(u: Unicode) returns (s: Scrubber)
    ensures Built(u, s) && s.needles == []
  {
    s := Scrubber([], seq(0x80, _ => []), map[],
                  seq(256, b requires 0 <= b < 256 => IsEscapeStart(b)),
                  seq(256, b requires 0 <= b < 256 => if IsEscapeStart(b) then EVERY_BYTE else {}));
  }

  /** One turn of the loop of newScrubber. */
  method AddNeedle(u: Unicode, s: Scrubber, n: Needle) returns (s': Scrubber)
    requires Built(u, s) && ValidNeedle(n)
    ensures Built(u, s') && s'.needles == s.needles + [n]
  {
    hide StartMeans, PairMeans, EncodeRune, HeadIndices, Follows, ToUpper;
    var index := |s.needles|;
    s' := AddHead(u, s, n, index, n.runes[0]);
    if n.fold && ToUpper(u, n.runes[0]) != n.runes[0] {
      s' := AddHead(u, s', n, index, ToUpper(u, n.runes[0]));
    }
    forall b0: Byte, b1: Byte | 0 <= b0 < 256 && 0 <= b1 < 256
      ensures b1 in s'.pair[b0] <==> b1 in s.pair[b0] || Pairs(u, n, b0, b1)
    {
    }
    AddNeedleTables(u, s.needles, n, s, s');
    ghost var was := s';
    s' := s'.(needles := s.needles + [n]);
    forall r: Rune
      ensures s'.StartingWith(r) == HeadIndices(u, s'.needles, r)
    {
      AddNeedleIndex(u, s.needles, n, r);
      assert s'.StartingWith(r) == was.StartingWith(r);
    }
  }
}
