/**
  * The reader of wstunnel's WebSocket framing (sections 5.4 and 5.5 of RFC 6455): the payloads of binary messages,
  * fragmented or not, are read as one stream, with control frames taken care of in between.
  */
module WebSocket {
  import opened Utf8
  import opened Wrappers

  datatype OpCode = Continuation | Text | Binary | Close | Ping | Pong | Reserved

  /** A frame: its header, and as much of its payload as will ever arrive. */
  datatype Frame = Frame(fin: bool, rsv: nat, opcode: OpCode, masked: bool, length: int, payload: Bytes)

  const MAX_LENGTH: int := 0x100000
  const MAX_CONTROL: int := 125

  /** Why a read fails. */
  datatype Error =
    | EndOfInput | InvalidFrame | InvalidFragmentation | UnexpectedContinuation | InvalidControl | TruncatedControl
    | Closed | PongFailed | UnsupportedFrame | ConnectionLost

  predicate IsData(f: Frame) {
    f.opcode.Binary? || f.opcode.Continuation?
  }

  predicate IsControl(f: Frame) {
    f.opcode.Ping? || f.opcode.Pong? || f.opcode.Close?
  }

  /** What is on the wire: no more payload than announced, and a short one only at the very end. */
  predicate OnWire(fs: seq<Frame>) {
    forall k :: 0 <= k < |fs| && fs[k].length >= 0 ==>
      |fs[k].payload| <= fs[k].length && (k < |fs| - 1 ==> |fs[k].payload| == fs[k].length)
  }

  lemma OnWireTail(fs: seq<Frame>)
    requires OnWire(fs) && fs != []
    ensures OnWire(fs[1..])
    ensures fs[0].length >= 0 ==> |fs[0].payload| <= fs[0].length && (|fs[0].payload| < fs[0].length ==> fs[1..] == [])
  {
  }

  /** The bytes the data frames carry. */
  function DataOf(fs: seq<Frame>): Bytes {
    if fs == [] then []
    else DataOf(fs[..|fs| - 1]) + if IsData(fs[|fs| - 1]) then fs[|fs| - 1].payload else []
  }

  /** Inside an unfinished message: the last data frame was not the final one. */
  predicate Inside(fs: seq<Frame>) {
    exists k :: 0 <= k < |fs| && IsData(fs[k]) && !fs[k].fin && forall j :: k < j < |fs| ==> !IsData(fs[j])
  }

  predicate HeaderOk(f: Frame) {
    !f.masked && f.rsv == 0 && 0 <= f.length <= MAX_LENGTH
  }

  /**
    * Whether the frame may come now: a message starts when none is open, continues one that is, and control frames fit.
    */
  predicate Accepts(f: Frame, inside: bool) {
    && HeaderOk(f)
    && (IsData(f) || IsControl(f))
    && (f.opcode.Binary? ==> !inside)
    && (f.opcode.Continuation? ==> inside)
    && (IsControl(f) ==> f.fin && f.length <= MAX_CONTROL && |f.payload| == f.length && !f.opcode.Close?)
  }

  /** Each frame may come when it does. */
  predicate AllAccepted(fs: seq<Frame>) {
    forall k :: 0 <= k < |fs| ==> Accepts(fs[k], Inside(fs[..k]))
  }

  lemma InsideSnoc(fs: seq<Frame>, f: Frame)
    ensures Inside(fs + [f]) <==> if IsData(f) then !f.fin else Inside(fs)
  {
    var all := fs + [f];
    if IsData(f) {
      if !f.fin {
        assert all[|fs|] == f;
      }
    } else {
      if Inside(fs) {
        var k :| 0 <= k < |fs| && IsData(fs[k]) && !fs[k].fin && forall j :: k < j < |fs| ==> !IsData(fs[j]);
        assert all[k] == fs[k];
      }
      if Inside(all) {
        var k :| 0 <= k < |all| && IsData(all[k]) && !all[k].fin && forall j :: k < j < |all| ==> !IsData(all[j]);
        assert fs[k] == all[k];
        assert forall j :: k < j < |fs| ==> fs[j] == all[j];
      }
    }
  }

  lemma AcceptSnoc(fs: seq<Frame>, f: Frame)
    requires AllAccepted(fs) && Accepts(f, Inside(fs))
    ensures AllAccepted(fs + [f])
  {
    var all := fs + [f];
    assert all[..|fs|] == fs;
    forall k | 0 <= k < |all|
      ensures Accepts(all[k], Inside(all[..k]))
    {
      assert k < |fs| ==> all[..k] == fs[..k];
    }
  }

  lemma DataSnoc(fs: seq<Frame>, f: Frame)
    ensures DataOf(fs + [f]) == DataOf(fs) + if IsData(f) then f.payload else []
  {
    assert (fs + [f])[..|fs|] == fs;
  }

  /** What has been read is a prefix of what all data frames carry; control payloads have no part in it. */
  lemma {:induction false} DataIsPrefix(fs: seq<Frame>, rest: seq<Frame>)
    ensures DataOf(fs) <= DataOf(fs + rest)
  {
    if rest == [] {
      assert fs + rest == fs;
    } else {
      var k := |rest| - 1;
      DataIsPrefix(fs, rest[..k]);
      assert fs + rest == fs + rest[..k] + [rest[k]];
      DataSnoc(fs + rest[..k], rest[k]);
    }
  }

  function DataFrames(fs: seq<Frame>): seq<Frame> {
    if fs == [] then [] else DataFrames(fs[..|fs| - 1]) + if IsData(fs[|fs| - 1]) then [fs[|fs| - 1]] else []
  }

  lemma {:induction false} InsideMeans(fs: seq<Frame>)
    ensures var ds := DataFrames(fs); Inside(fs) <==> ds != [] && !ds[|ds| - 1].fin
  {
    if fs != [] {
      var k := |fs| - 1;
      InsideMeans(fs[..k]);
      InsideSnoc(fs[..k], fs[k]);
      assert fs == fs[..k] + [fs[k]];
    }
  }

  lemma AcceptedInit(fs: seq<Frame>)
    requires AllAccepted(fs) && fs != []
    ensures AllAccepted(fs[..|fs| - 1]) && Accepts(fs[|fs| - 1], Inside(fs[..|fs| - 1]))
  {
    hide Inside, Accepts;
    assert forall i :: 0 <= i < |fs| - 1 ==> fs[..|fs| - 1][..i] == fs[..i];
  }

  /**
    * What is read is made of messages: the first data frame begins one, and each further one begins a message or
    * continues it according to whether the one before was final.
    */
  lemma {:induction false} FramesMakeMessages(fs: seq<Frame>)
    requires AllAccepted(fs)
    ensures var ds := DataFrames(fs);
            && (ds != [] ==> ds[0].opcode.Binary?)
            && forall i :: 0 < i < |ds| ==> ds[i].opcode == if ds[i - 1].fin then Binary else Continuation
  {
    hide Inside, AllAccepted;
    if fs != [] {
      var k := |fs| - 1;
      AcceptedInit(fs);
      FramesMakeMessages(fs[..k]);
      InsideMeans(fs[..k]);
    }
  }

  /** No frame read is masked or longer than 1 MiB, and those that carry no data are whole pings and pongs. */
  lemma FramesFit(fs: seq<Frame>, i: nat)
    requires AllAccepted(fs) && i < |fs|
    ensures !fs[i].masked && 0 <= fs[i].length <= 1024 * 1024
    ensures !IsData(fs[i]) ==> (fs[i].opcode.Ping? || fs[i].opcode.Pong?) && fs[i].fin && fs[i].length <= 125
  {
    hide Inside;
    assert Accepts(fs[i], Inside(fs[..i]));
  }

  /** The error a frame that may not come now is answered with; Closed for a close frame in order. */
  function Refusal(f: Frame, inside: bool): Error
    requires !Accepts(f, inside)
  {
    if !HeaderOk(f) then InvalidFrame
    else if f.opcode.Binary? then InvalidFragmentation
    else if f.opcode.Continuation? then UnexpectedContinuation
    else if !IsControl(f) then UnsupportedFrame
    else if !f.fin || f.length > MAX_CONTROL then InvalidControl
    else if |f.payload| < f.length then TruncatedControl
    else Closed
  }

  /** The payloads of the pings, each of which is answered with a pong that repeats it. */
  function PingsOf(fs: seq<Frame>): seq<Bytes> {
    if fs == [] then []
    else PingsOf(fs[..|fs| - 1]) + if fs[|fs| - 1].opcode.Ping? then [fs[|fs| - 1].payload] else []
  }

  lemma PingsSnoc(fs: seq<Frame>, f: Frame)
    ensures PingsOf(fs + [f]) == PingsOf(fs) + if f.opcode.Ping? then [f.payload] else []
  {
    assert (fs + [f])[..|fs|] == fs;
  }

  /** What the reader keeps is what the frames seen call for. */
  predicate Tracks(seen: seq<Frame>, fragmented: bool, data: Bytes, pongs: seq<Bytes>) {
    AllAccepted(seen) && (fragmented <==> Inside(seen)) && data == DataOf(seen) && pongs == PingsOf(seen)
  }

  lemma TracksSnoc(seen: seq<Frame>, fragmented: bool, data: Bytes, pongs: seq<Bytes>, h: Frame)
    requires Tracks(seen, fragmented, data, pongs) && Accepts(h, fragmented)
    ensures Tracks(seen + [h], if IsData(h) then !h.fin else fragmented, data + if IsData(h) then h.payload else [],
                   pongs + if h.opcode.Ping? then [h.payload] else [])
  {
    hide Inside, AllAccepted, DataOf, PingsOf, Accepts;
    InsideSnoc(seen, h);
    AcceptSnoc(seen, h);
    DataSnoc(seen, h);
    PingsSnoc(seen, h);
  }

  lemma TracksFlag(seen: seq<Frame>, fragmented: bool, data: Bytes, pongs: seq<Bytes>)
    requires Tracks(seen, fragmented, data, pongs)
    ensures fragmented <==> Inside(seen)
  {
  }

  /** Why reading stops between frames: the input is over, a pong cannot be written, or a frame may not come now. */
  predicate Stops(err: Error, frames: seq<Frame>, inside: bool, pongOk: bool) {
    if frames == [] then err == EndOfInput
    else if Accepts(frames[0], inside) then err == PongFailed && frames[0].opcode.Ping? && !pongOk
    else err == Refusal(frames[0], inside)
  }

  /**
    * One read: the size of the buffer, how much of it the connection fills, and whether it fails then; and whether
    * pongs can be written.
    */
  datatype Request = Request(size: nat, avail: nat, lost: bool, pongOk: bool)

  /**
    * websocketConn. The input is the frames whose header is unread and the unread payload of the current data frame.
    * A failed read has consumed part of a frame; what reads after it would find is not described, and none is allowed.
    */
  class WebsocketConn {
    var frames: seq<Frame>
    var body: Bytes
    var remaining: nat
    var fragmented: bool
    var pongs: seq<Bytes>
    ghost var seen: seq<Frame>
    ghost var delivered: Bytes
    ghost var failed: bool

    ghost predicate Valid()
      reads this
    {
      && OnWire(frames) && remaining <= MAX_LENGTH && |body| <= remaining && (|body| < remaining ==> frames == [])
      && Tracks(seen, fragmented, delivered + body, pongs)
    }

    constructor (frames: seq<Frame>)
      requires OnWire(frames)
      ensures Valid() && !failed && this.frames == frames && seen == [] && delivered == []
    {
      this.frames, body, remaining, fragmented, pongs := frames, [], 0, false, [];
      seen, delivered, failed := [], [], false;
    }

    /** The tests on one header: why the frame is refused, if it is. */
    method Screen(h: Frame, pongOk: bool) returns (err: Option<Error>)
      requires h.length >= 0 ==> |h.payload| <= h.length
      ensures err.Some? ==> Stops(err.value, [h], fragmented, pongOk)
      ensures err.None? ==> Accepts(h, fragmented) && (h.opcode.Ping? ==> pongOk)
    {
      if h.masked || h.rsv != 0 || h.length < 0 || h.length > MAX_LENGTH {
        return Some(InvalidFrame);
      }
      match h.opcode
      case Binary => return if fragmented then Some(InvalidFragmentation) else None;
      case Continuation => return if fragmented then None else Some(UnexpectedContinuation);
      case Text => return Some(UnsupportedFrame);
      case Reserved => return Some(UnsupportedFrame);
      case _ =>
        if !h.fin || h.length > MAX_CONTROL {
          return Some(InvalidControl);
        }
        if |h.payload| < h.length {
          return Some(TruncatedControl);
        }
        if h.opcode.Close? {
          return Some(Closed);
        }
        return if h.opcode.Ping? && !pongOk then Some(PongFailed) else None;
    }

    /** One round of the header loop: a frame is refused, or begins to be read, or is a ping and answered. */
    method TakeFrame(pongOk: bool) returns (err: Option<Error>)
      requires Valid() && !failed && remaining == 0 && frames != []
      modifies this
      ensures Valid() && delivered == old(delivered) && (failed <==> err.Some?)
      ensures err.None? ==> seen == old(seen) + [old(frames)[0]] && frames == old(frames)[1..]
      ensures err.Some? ==> Stops(err.value, frames, Inside(seen), pongOk) && remaining == 0 && body == []
      ensures err.Some? ==> seen == old(seen) && frames == old(frames)
    {
      hide Inside, OnWire, Tracks;
      TracksFlag(seen, fragmented, delivered + body, pongs);
      OnWireTail(frames);
      var h := frames[0];
      err := Screen(h, pongOk);
      if err.Some? {
        failed := true;
        return;
      }
      if h.opcode.Binary? || h.opcode.Continuation? {
        fragmented, remaining, body := !h.fin, h.length, h.payload;
      } else if h.opcode.Ping? {
        pongs := pongs + [h.payload];
      }
      TracksSnoc(seen, old(fragmented), delivered + old(body), old(pongs), h);
      assert old(body) == [] && delivered + [] == delivered && delivered + [] + [] == delivered;
      assert old(pongs) + [] == old(pongs);
      seen := seen + [h];
      frames := frames[1..];
    }

    /** The header loop: on to the next data frame that is not empty. */
    method NextFrame(pongOk: bool) returns (err: Option<Error>)
      requires Valid() && !failed && remaining == 0
      modifies this
      ensures Valid() && delivered == old(delivered) && old(seen) <= seen && seen + frames == old(seen + frames)
      ensures (failed <==> err.Some?) && (err.None? ==> remaining > 0)
      ensures err.Some? ==> Stops(err.value, frames, Inside(seen), pongOk) && remaining == 0 && body == []
    {
      hide Inside, AllAccepted, DataOf, PingsOf, Accepts;
      while remaining == 0
        invariant Valid() && !failed && delivered == old(delivered) && old(seen) <= seen &&
                  seen + frames == old(seen + frames)
        decreases |frames|
      {
        if frames == [] {
          failed := true;
          return Some(EndOfInput);
        }
        assert seen + frames == seen + [frames[0]] + frames[1..];
        err := TakeFrame(pongOk);
        if err.Some? {
          return;
        }
      }
      return None;
    }

    /** The read from the connection into the buffer, cut to what remains of the frame. */
    method Deliver(size: nat, avail: nat) returns (p: Bytes)
      requires Valid() && body != []
      modifies this
      ensures Valid() && delivered == old(delivered) + p && seen == old(seen) && frames == old(frames) &&
                failed == old(failed)
      ensures |p| <= size && |p| <= avail && |p| <= MAX_LENGTH && (size > 0 && avail > 0 ==> p != [])
    {
      hide Inside, AllAccepted, DataOf, OnWire, PingsOf;
      var k := if size < |body| then size else |body|;
      k := if avail < k then avail else k;
      p := body[..k];
      assert body == p + body[k..];
      Assoc(delivered, p, body[k..]);
      delivered := delivered + p;
      body := body[k..];
      remaining := remaining - k;
    }

    /** The bytes read come even when the connection fails in the same read; every other failure comes without any. */
    method Read(q: Request) returns (p: Bytes, err: Option<Error>)
      requires Valid() && !failed
      modifies this
      ensures Valid() && delivered == old(delivered) + p && old(seen) <= seen && seen + frames == old(seen + frames)
      ensures |p| <= q.size && |p| <= q.avail && |p| <= MAX_LENGTH
      ensures failed <==> err.Some?
      ensures err.Some? && err.value != ConnectionLost ==>
                p == [] && delivered == DataOf(seen) && Stops(err.value, frames, Inside(seen), q.pongOk)
      ensures err == Some(ConnectionLost) ==> q.lost
      ensures err.None? && q.size > 0 ==> !q.lost && (q.avail > 0 ==> p != [])
    {
      hide Inside, AllAccepted, DataOf, OnWire, PingsOf, Accepts, Refusal;
      p, err := [], None;
      if q.size == 0 {
        return;
      }
      if remaining == 0 {
        err := NextFrame(q.pongOk);
        if err.Some? {
          NeverLost(err.value, frames, Inside(seen), q.pongOk);
          return;
        }
      }
      if body == [] {
        err, failed := Some(EndOfInput), true;
        return;
      }
      p := Deliver(q.size, q.avail);
      if q.lost {
        err, failed := Some(ConnectionLost), true;
      }
    }

    /** Whatever the buffers and however short the reads, what arrives is a prefix of what the data frames carry. */
    method ReadAll(qs: seq<Request>) returns (all: Bytes, err: Option<Error>)
      requires Valid() && !failed && seen == [] && delivered == []
      modifies this
      ensures Valid() && all == delivered && all <= DataOf(old(frames)) && seen + frames == old(frames) &&
                pongs == PingsOf(seen)
      ensures err.Some? && err.value != ConnectionLost ==>
                all == DataOf(seen) && exists pongOk :: Stops(err.value, frames, Inside(seen), pongOk)
    {
      hide Inside, AllAccepted, OnWire, PingsOf, Accepts, Stops;
      all, err := [], None;
      for k := 0 to |qs|
        invariant Valid() && !failed && all == delivered && seen + frames == old(frames)
      {
        var p, e := Read(qs[k]);
        all := all + p;
        if e.Some? {
          DataIsPrefix(seen, frames);
          return all, e;
        }
      }
      DataIsPrefix(seen, frames);
    }
  }

  lemma NeverLost(err: Error, frames: seq<Frame>, inside: bool, pongOk: bool)
    requires Stops(err, frames, inside, pongOk)
    ensures err != ConnectionLost
  {
  }
}
