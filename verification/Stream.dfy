/**
  * The scrubbing reader: a body is scrubbed as it streams. However the upstream splits the body into reads, and
  * whatever buffers the caller brings, the bytes delivered are the scrub of the whole body.
  */
module Stream {
  import opened Utf8
  import opened Matcher
  import opened Reference
  import opened Tables
  import opened Scanner

  function Concat(chunks: seq<Bytes>): Bytes {
    if chunks == [] then [] else chunks[0] + Concat(chunks[1..])
  }

  /** What successive scans deliver, when pending bytes are held over and the error comes with the last read. */
  function Delivered(u: Unicode, s: Scrubber, pending: Bytes, chunks: seq<Bytes>): Bytes
    requires Built(u, s)
    decreases |chunks|
  {
    if chunks == [] then []
    else
      var data := pending + chunks[0];
      var (out, held) := Scan(u, s, data, |chunks| == 1);
      out + Delivered(u, s, data[|data| - held..], chunks[1..])
  }

  /** Chunk independence: the chunks do not show. */
  lemma {:induction false} DeliveredIsScrub(u: Unicode, s: Scrubber, pending: Bytes, chunks: seq<Bytes>)
    requires Built(u, s) && chunks != []
    ensures Delivered(u, s, pending, chunks) == Scrub(u, s.needles, pending + Concat(chunks))
    decreases |chunks|
  {
    hide Built, Scan, Scrub;
    BuiltIsValid(u, s);
    var data, more := pending + chunks[0], Concat(chunks[1..]);
    ScanIsScrub(u, s, data, more, |chunks| == 1);
    Assoc(pending, chunks[0], more);
    var r := Scan(u, s, data, |chunks| == 1);
    if |chunks| == 1 {
      ScrubOfNothing(u, s.needles);
      assert data[|data| - r.1..] + more == [];
    } else {
      DeliveredIsScrub(u, s, data[|data| - r.1..], chunks[1..]);
    }
  }

  lemma ScrubOfNothing(u: Unicode, ns: seq<Needle>)
    requires ValidNeedles(ns)
    ensures Scrub(u, ns, []) == []
  {
  }

  /** The most a reader may keep between two reads. */
  ghost predicate ShortTail(ns: seq<Needle>, held: nat) {
    held <= 11 || exists i :: 0 <= i < |ns| && held <= 204 * (|ns[i].runes| - 1) + 11
  }

  /** scrubReader. The upstream is the list of reads still to come; its error arrives with the last of them. */
  class ScrubReader {
    const u: Unicode
    const scrub: Scrubber
    var chunks: seq<Bytes>
    var pending: Bytes
    var ready: Bytes
    var done: bool

    ghost predicate Valid()
      reads this
    {
      Built(u, scrub) && (done <==> chunks == []) && ShortTail(scrub.needles, |pending|)
    }

    /** The bytes this reader has still to deliver. */
    ghost function Rest(): Bytes
      requires Valid()
      reads this
    {
      ready + Delivered(u, scrub, pending, chunks)
    }

    constructor (u: Unicode, scrub: Scrubber, chunks: seq<Bytes>)
      requires Built(u, scrub) && chunks != []
      ensures Valid() && this.u == u && this.scrub == scrub && this.chunks == chunks && fresh(this)
      ensures Rest() == Scrub(u, scrub.needles, Concat(chunks))
    {
      this.u, this.scrub, this.chunks := u, scrub, chunks;
      pending, ready, done := [], [], false;
      new;
      DeliveredIsScrub(u, scrub, [], chunks);
      assert [] + Concat(chunks) == Concat(chunks);
    }

    /** The body of the loop of Read: one upstream read is scanned. */
    method Fill()
      requires Valid() && !done && ready == []
      modifies this
      ensures Valid() && Rest() == old(Rest()) && chunks == old(chunks)[1..]
    {
      hide Built, Scan;
      var last := |chunks| == 1;
      var data := pending + chunks[0];
      var out, held := ScanChunk(u, scrub, [], data, last);
      HeldIsBounded(u, scrub, data, last);
      ready := out;
      pending := data[|data| - held..];
      chunks := chunks[1..];
      done := last;
    }

    /** Read into a buffer of n bytes; eof stands for the upstream's error, reported when nothing is left. */
    method Read(n: nat) returns (p: Bytes, eof: bool)
      requires Valid()
      modifies this
      ensures Valid() && p + Rest() == old(Rest())
      ensures eof <==> old(Rest()) == []
      ensures |p| <= n && (!eof && n > 0 ==> p != [])
    {
      hide Built, Scan;
      while ready == []
        invariant Valid() && Rest() == old(Rest())
        decreases |chunks|
      {
        if done {
          return [], true;
        }
        Fill();
      }
      var k := if n < |ready| then n else |ready|;
      p, eof := ready[..k], false;
      assert ready == p + ready[k..];
      ready := ready[k..];
    }

    /** Any number of reads with any buffers. */
    method ReadAll(sizes: seq<nat>) returns (delivered: Bytes, eof: bool)
      requires Valid()
      modifies this
      ensures Valid() && delivered + Rest() == old(Rest())
      ensures eof ==> delivered == old(Rest())
    {
      hide Built, Scan;
      delivered, eof := [], false;
      for k := 0 to |sizes|
        invariant Valid() && delivered + Rest() == old(Rest())
      {
        ghost var before := Rest();
        var p, end := Read(sizes[k]);
        if end {
          assert Rest() == [];
          return delivered, true;
        }
        Assoc(delivered, p, Rest());
        delivered := delivered + p;
      }
    }
  }

  /**
    * Tables, scan and reader together: what arrives of a body is a prefix of its scrub, and all of it once the end is
    * reported.
    */
  method ScrubBody(u: Unicode, pairs: seq<ScrubPair>, chunks: seq<Bytes>, sizes: seq<nat>)
    returns (delivered: Bytes, eof: bool)
    requires chunks != []
    ensures delivered <= Scrub(u, NeedlesOf(pairs), Concat(chunks))
    ensures eof ==> delivered == Scrub(u, NeedlesOf(pairs), Concat(chunks))
  {
    hide Built, Scrub;
    var scrub := NewScrubber(u, pairs);
    var reader := new ScrubReader(u, scrub, chunks);
    delivered, eof := reader.ReadAll(sizes);
  }
}
