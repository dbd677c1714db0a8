/**
  * Which bytes of a body a scrub copies and which it replaces. The scrub goes from one position to the next; a byte is
  * copied where it stops and finds nothing, and replaced where it lies inside a match at some stop.
  */
module Replacing {
  import opened Utf8
  import opened Matcher
  import opened Reference

  /** How far the scrub goes from the start of d: one byte, or past the match that is replaced. */
  function Stride(u: Unicode, ns: seq<Needle>, d: Bytes): (w: nat)
    requires ValidNeedles(ns) && d != []
    ensures 1 <= w <= |d|
  {
    var h := HitAt(u, ns, d);
    if h.Hit? then h.w else 1
  }

  /** The scrub of d stops at position k. */
  predicate Stops(u: Unicode, ns: seq<Needle>, d: Bytes, k: nat)
    requires ValidNeedles(ns) && k <= |d|
    decreases |d|
  {
    k == 0 || (Stride(u, ns, d) <= k && Stops(u, ns, d[Stride(u, ns, d)..], k - Stride(u, ns, d)))
  }

  predicate Copied(u: Unicode, ns: seq<Needle>, d: Bytes, i: nat)
    requires ValidNeedles(ns) && i < |d|
  {
    Stops(u, ns, d, i) && HitAt(u, ns, d[i..]).Miss?
  }

  /** Byte i lies inside the match that is replaced at stop k. */
  predicate ReplacedFrom(u: Unicode, ns: seq<Needle>, d: Bytes, i: nat, k: nat)
    requires ValidNeedles(ns) && i < |d|
  {
    k <= i && Stops(u, ns, d, k) && HitAt(u, ns, d[k..]).Hit? && i < k + HitAt(u, ns, d[k..]).w
  }

  ghost predicate Replaced(u: Unicode, ns: seq<Needle>, d: Bytes, i: nat)
    requires ValidNeedles(ns) && i < |d|
  {
    exists k: nat :: ReplacedFrom(u, ns, d, i, k)
  }

  /** A stop behind the first stride is a stop of what is left. */
  lemma LaterStop(u: Unicode, ns: seq<Needle>, d: Bytes, k: nat)
    requires ValidNeedles(ns) && d != [] && Stride(u, ns, d) <= k <= |d|
    ensures var w := Stride(u, ns, d);
            && (Stops(u, ns, d, k) <==> Stops(u, ns, d[w..], k - w))
            && d[k..] == d[w..][k - w..]
  {
    hide Stride;
  }

  lemma NoStopInside(u: Unicode, ns: seq<Needle>, d: Bytes, k: nat)
    requires ValidNeedles(ns) && d != [] && 0 < k < Stride(u, ns, d)
    ensures !Stops(u, ns, d, k)
  {
    hide Stride;
  }

  lemma LaterReplaced(u: Unicode, ns: seq<Needle>, d: Bytes, i: nat)
    requires ValidNeedles(ns) && d != [] && Stride(u, ns, d) <= i < |d|
    ensures var w := Stride(u, ns, d);
            && (Copied(u, ns, d, i) <==> Copied(u, ns, d[w..], i - w))
            && (Replaced(u, ns, d, i) <==> Replaced(u, ns, d[w..], i - w))
  {
    hide Stride, Stops, HitAt;
    var w := Stride(u, ns, d);
    LaterStop(u, ns, d, i);
    if Replaced(u, ns, d, i) {
      var k: nat :| ReplacedFrom(u, ns, d, i, k);
      BehindFirst(u, ns, d, i, k);
      LaterStop(u, ns, d, k);
      assert ReplacedFrom(u, ns, d[w..], i - w, k - w);
    }
    if Replaced(u, ns, d[w..], i - w) {
      var k: nat :| ReplacedFrom(u, ns, d[w..], i - w, k);
      LaterStop(u, ns, d, w + k);
      assert ReplacedFrom(u, ns, d, i, w + k);
    }
  }

  lemma BehindFirst(u: Unicode, ns: seq<Needle>, d: Bytes, i: nat, k: nat)
    requires ValidNeedles(ns) && d != [] && Stride(u, ns, d) <= i < |d| && ReplacedFrom(u, ns, d, i, k)
    ensures Stride(u, ns, d) <= k
  {
    hide Stops;
    assert d[0..] == d;
    if 0 < k < Stride(u, ns, d) {
      NoStopInside(u, ns, d, k);
    }
  }

  lemma FirstStride(u: Unicode, ns: seq<Needle>, d: Bytes, i: nat)
    requires ValidNeedles(ns) && i < |d| && i < Stride(u, ns, d)
    ensures Copied(u, ns, d, i) <==> HitAt(u, ns, d).Miss?
    ensures Replaced(u, ns, d, i) <==> HitAt(u, ns, d).Hit?
  {
    hide HitAt;
    assert d[0..] == d;
    if HitAt(u, ns, d).Hit? {
      assert ReplacedFrom(u, ns, d, i, 0);
      if i > 0 {
        NoStopInside(u, ns, d, i);
      }
    }
  }

  /** Every byte is either copied or replaced, and none is both. */
  lemma {:induction false} CopiedOrReplaced(u: Unicode, ns: seq<Needle>, d: Bytes, i: nat)
    requires ValidNeedles(ns) && i < |d|
    ensures Copied(u, ns, d, i) <==> !Replaced(u, ns, d, i)
    decreases |d|
  {
    hide Stride, Copied, Replaced, HitAt;
    var w := Stride(u, ns, d);
    if i < w {
      FirstStride(u, ns, d, i);
    } else {
      LaterReplaced(u, ns, d, i);
      CopiedOrReplaced(u, ns, d[w..], i - w);
    }
  }

  /** At a stop the output splits: what comes before it, and the scrub of what is left. */
  lemma {:induction false} StopSplits(u: Unicode, ns: seq<Needle>, d: Bytes, k: nat) returns (out: Bytes)
    requires ValidNeedles(ns) && k <= |d| && Stops(u, ns, d, k)
    ensures Scrub(u, ns, d) == out + Scrub(u, ns, d[k..])
    decreases |d|
  {
    hide Stride, HitAt, Scrub;
    if k == 0 {
      out := [];
      assert d[0..] == d;
    } else {
      var w := Stride(u, ns, d);
      var rest := StopSplits(u, ns, d[w..], k - w);
      var text := StrideText(u, ns, d);
      out := text + rest;
      LaterStop(u, ns, d, k);
      Assoc(text, rest, Scrub(u, ns, d[k..]));
    }
  }

  lemma StrideText(u: Unicode, ns: seq<Needle>, d: Bytes) returns (text: Bytes)
    requires ValidNeedles(ns) && d != []
    ensures Scrub(u, ns, d) == text + Scrub(u, ns, d[Stride(u, ns, d)..])
    ensures text == if HitAt(u, ns, d).Hit? then HitText(u, ns, HitAt(u, ns, d)) else [d[0]]
  {
    hide HitAt, HitText;
    text := StepOf(u, ns, d, HitAt(u, ns, d)).text;
  }

  /** A copied byte is in the output as it stands, and for a replaced one the text of its match. */
  lemma OutputAt(u: Unicode, ns: seq<Needle>, d: Bytes, k: nat) returns (out: Bytes, text: Bytes)
    requires ValidNeedles(ns) && k < |d| && Stops(u, ns, d, k)
    ensures Scrub(u, ns, d) == out + text + Scrub(u, ns, d[k..][Stride(u, ns, d[k..])..])
    ensures text == if HitAt(u, ns, d[k..]).Hit? then HitText(u, ns, HitAt(u, ns, d[k..])) else [d[k]]
  {
    hide Stride, HitAt, Scrub, HitText, Stops;
    out := StopSplits(u, ns, d, k);
    text := StrideText(u, ns, d[k..]);
    Assoc(out, text, Scrub(u, ns, d[k..][Stride(u, ns, d[k..])..]));
  }

  /**
    * Where a needle would be replaced the byte is not copied: if the scrub does not stop there, the byte lies inside an
    * earlier match.
    */
  lemma HitIsReplaced(u: Unicode, ns: seq<Needle>, d: Bytes, i: nat)
    requires ValidNeedles(ns) && i < |d| && HitAt(u, ns, d[i..]).Hit?
    ensures Replaced(u, ns, d, i) && !Copied(u, ns, d, i)
  {
    hide HitAt, Stops, Replaced;
    CopiedOrReplaced(u, ns, d, i);
  }
}
