/**
  * Server-sent events (section 9.2 of the WHATWG HTML standard) as the MCP interceptor handles them: events are read
  * from a stream, their data may be replaced, and they are passed on.
  */
module Sse {
  import opened Utf8
  import opened Wrappers

  const LF: int := 0x0A
  const CR: int := 0x0D
  const COLON: int := 0x3A
  const SPACE: int := 0x20
  const DATA: Bytes := [0x64, 0x61, 0x74, 0x61]

  /** An event: its bytes as read, the values of its data lines, and its other lines verbatim. */
  datatype Event = Event(raw: Bytes, dataLines: seq<Bytes>, other: seq<Bytes>)

  const EMPTY := Event([], [], [])

  // ---- lines

  /** How many bytes the first line takes, with its line feed if it has one. */
  function LineLength(d: Bytes): (n: nat)
    ensures n <= |d| && (d != [] ==> n > 0)
    ensures forall i :: 0 <= i < n - 1 ==> d[i] != LF
    ensures n < |d| ==> d[n - 1] == LF
  {
    if d == [] then 0 else if d[0] == LF then 1 else 1 + LineLength(d[1..])
  }

  /** A line with its line feed, and no other. */
  predicate IsLine(line: Bytes) {
    line != [] && line[|line| - 1] == LF && forall i :: 0 <= i < |line| - 1 ==> line[i] != LF
  }

  lemma {:induction false} LineLengthOf(line: Bytes, rest: Bytes)
    requires IsLine(line)
    ensures LineLength(line + rest) == |line|
  {
    if line[0] != LF {
      assert (line + rest)[1..] == line[1..] + rest;
      LineLengthOf(line[1..], rest);
    }
  }

  /** stripCRLF. */
  function Strip(line: Bytes): (t: Bytes)
    ensures t <= line
    ensures t != [] ==> t[|t| - 1] != LF && t[|t| - 1] != CR
  {
    if line != [] && (line[|line| - 1] == LF || line[|line| - 1] == CR) then Strip(line[..|line| - 1]) else line
  }

  method StripCRLF(line: Bytes) returns (t: Bytes)
    ensures t == Strip(line)
  {
    t := line;
    while |t| > 0 && (t[|t| - 1] == LF || t[|t| - 1] == CR)
      invariant Strip(t) == Strip(line)
    {
      t := t[..|t| - 1];
    }
  }

  /** Where the first colon is, or the length. */
  function ColonAt(line: Bytes): (i: nat)
    ensures i <= |line| && (i < |line| ==> line[i] == COLON) && forall j :: 0 <= j < i ==> line[j] != COLON
  {
    if line == [] || line[0] == COLON then 0 else 1 + ColonAt(line[1..])
  }

  /** splitField. */
  function SplitField(line: Bytes): (kv: (Bytes, Bytes)) {
    var i := ColonAt(line);
    if i == |line| then (line, [])
    else
      var value := line[i + 1..];
      (line[..i], if value != [] && value[0] == SPACE then value[1..] else value)
  }

  lemma {:induction false} ColonOf(key: Bytes, rest: Bytes)
    requires COLON !in key
    ensures ColonAt(key + [COLON] + rest) == |key|
  {
    if key == [] {
      assert ([] + [COLON] + rest)[0] == COLON;
    } else {
      assert (key + [COLON] + rest)[1..] == key[1..] + [COLON] + rest;
      ColonOf(key[1..], rest);
    }
  }

  lemma NoColon(key: Bytes)
    requires COLON !in key
    ensures ColonAt(key) == |key|
  {
  }

  /** A field is cut at its first colon, and one space behind the colon is not part of the value. */
  lemma FieldIsCut(key: Bytes, value: Bytes)
    requires COLON !in key
    ensures SplitField(key + [COLON, SPACE] + value) == (key, value)
    ensures value == [] || value[0] != SPACE ==> SplitField(key + [COLON] + value) == (key, value)
    ensures SplitField(key) == (key, [])
  {
    hide ColonAt;
    ColonOf(key, value);
    ColonOf(key, [SPACE] + value);
    NoColon(key);
    var with, spaced := key + [COLON] + value, key + [COLON] + ([SPACE] + value);
    assert key + [COLON, SPACE] + value == spaced;
    assert with[..|key|] == key && with[|key| + 1..] == value;
    assert spaced[..|key|] == key && spaced[|key| + 1..] == [SPACE] + value;
    assert ([SPACE] + value)[1..] == value;
  }

  datatype Kind = Blank | DataLine(value: Bytes) | OtherLine

  function KindOf(line: Bytes): Kind {
    var trimmed := Strip(line);
    if trimmed == [] then Blank
    else if trimmed[0] == COLON then OtherLine
    else if SplitField(trimmed).0 == DATA then DataLine(SplitField(trimmed).1)
    else OtherLine
  }

  // ---- reading events

  /** How the stream ends: at end of file, or with an error. */
  datatype End = Eof | Failed

  /** The event read so far, and what is left to read. */
  datatype Reading = Reading(event: Option<Event>, rest: Bytes)

  /** readSSEEvent, with ev gathered so far. */
  function ReadFrom(d: Bytes, ev: Event, end: End): (r: Reading)
    ensures |r.rest| <= |d|
    ensures r.event.Some? && ev.raw == [] ==> |r.rest| < |d|
    decreases |d|
  {
    var n := LineLength(d);
    var line, rest := d[..n], d[n..];
    var ev' := ev.(raw := ev.raw + line);
    if n == 0 || line[n - 1] != LF then Reading(if end.Failed? || ev'.raw == [] then None else Some(ev'), [])
    else
      match KindOf(line)
      case Blank => Reading(Some(ev'), rest)
      case DataLine(value) => ReadFrom(rest, ev'.(dataLines := ev.dataLines + [value]), end)
      case OtherLine => ReadFrom(rest, ev'.(other := ev.other + [line]), end)
  }

  method ReadSSEEvent(d: Bytes, end: End) returns (r: Reading)
    ensures r == ReadFrom(d, EMPTY, end)
  {
    hide KindOf;
    var ev, rest := EMPTY, d;
    while true
      invariant ReadFrom(rest, ev, end) == ReadFrom(d, EMPTY, end)
      decreases |rest|
    {
      var n := LineLength(rest);
      var line := rest[..n];
      ev := ev.(raw := ev.raw + line);
      if n == 0 || line[n - 1] != LF {
        return Reading(if end.Failed? || ev.raw == [] then None else Some(ev), []);
      }
      rest := rest[n..];
      match KindOf(line) {
        case Blank => return Reading(Some(ev), rest);
        case DataLine(value) => ev := ev.(dataLines := ev.dataLines + [value]);
        case OtherLine => ev := ev.(other := ev.other + [line]);
      }
    }
  }

  /** All events of a stream. */
  function Events(d: Bytes, end: End): seq<Event>
    decreases |d|
  {
    var r := ReadFrom(d, EMPTY, end);
    if r.event.None? then [] else [r.event.value] + Events(r.rest, end)
  }

  function RawOf(es: seq<Event>): Bytes {
    if es == [] then [] else es[0].raw + RawOf(es[1..])
  }

  /** Nothing of a stream is lost in reading one event. */
  lemma {:induction false} ReadKeepsBytes(d: Bytes, ev: Event, end: End)
    ensures var r := ReadFrom(d, ev, end);
            && (r.event.Some? ==> r.event.value.raw + r.rest == ev.raw + d)
            && (r.event.None? && end.Eof? ==> ev.raw + d == [])
    decreases |d|
  {
    hide KindOf;
    var n := LineLength(d);
    var line, rest := d[..n], d[n..];
    assert ev.raw + d == ev.raw + line + rest;
    if n > 0 && line[n - 1] == LF {
      var ev' := ev.(raw := ev.raw + line);
      match KindOf(line)
      case Blank =>
      case DataLine(value) => ReadKeepsBytes(rest, ev'.(dataLines := ev.dataLines + [value]), end);
      case OtherLine => ReadKeepsBytes(rest, ev'.(other := ev.other + [line]), end);
    }
  }

  /** The events of a stream that ends properly are the stream, cut into pieces. */
  lemma {:induction false} EventsKeepBytes(d: Bytes)
    ensures RawOf(Events(d, Eof)) == d
    decreases |d|
  {
    hide ReadFrom;
    var r := ReadFrom(d, EMPTY, Eof);
    ReadKeepsBytes(d, EMPTY, Eof);
    assert EMPTY.raw + d == d;
    if r.event.Some? {
      EventsKeepBytes(r.rest);
      assert Events(d, Eof)[1..] == Events(r.rest, Eof);
    }
  }

  // ---- the data of an event

  /** bytes.Join with a line feed. */
  function Join(lines: seq<Bytes>): Bytes {
    if lines == [] then [] else if |lines| == 1 then lines[0] else lines[0] + [LF] + Join(lines[1..])
  }

  /** dataPayload. */
  function Payload(ev: Event): Bytes {
    Join(ev.dataLines)
  }

  /** bytes.Split at line feeds. */
  function SplitLines(p: Bytes): (lines: seq<Bytes>)
    ensures lines != [] && forall i :: 0 <= i < |lines| ==> LF !in lines[i]
  {
    var n := LineLength(p);
    if n == 0 then [[]]
    else if p[n - 1] == LF then [p[..n - 1]] + SplitLines(p[n..])
    else [p]
  }

  lemma {:induction false} JoinInvertsSplit(p: Bytes)
    ensures Join(SplitLines(p)) == p
    decreases |p|
  {
    var n := LineLength(p);
    if n > 0 && p[n - 1] == LF {
      JoinInvertsSplit(p[n..]);
      assert SplitLines(p)[1..] == SplitLines(p[n..]);
      assert p == p[..n - 1] + [LF] + p[n..];
    }
  }

  const DATA_PREFIX: Bytes := DATA + [COLON, SPACE]

  function DataText(lines: seq<Bytes>): Bytes {
    if lines == [] then [] else DataText(lines[..|lines| - 1]) + DataField(lines[|lines| - 1])
  }

  function DataField(line: Bytes): Bytes {
    DATA_PREFIX + line + [LF]
  }

  function WithLineFeed(line: Bytes): Bytes {
    if line != [] && line[|line| - 1] == LF then line else line + [LF]
  }

  function OtherText(other: seq<Bytes>): Bytes {
    if other == [] then [] else OtherText(other[..|other| - 1]) + WithLineFeed(other[|other| - 1])
  }

  /** rewriteData. */
  function Rewritten(ev: Event, payload: Bytes): Bytes {
    OtherText(ev.other) + (if payload == [] then [] else DataText(SplitLines(payload))) + [LF]
  }

  method RewriteData(ev: Event, payload: Bytes) returns (buf: Bytes)
    ensures buf == Rewritten(ev, payload)
  {
    hide SplitLines;
    buf := [];
    for k := 0 to |ev.other|
      invariant buf == OtherText(ev.other[..k])
    {
      assert ev.other[..k + 1][..k] == ev.other[..k];
      buf := buf + ev.other[k];
      if !(ev.other[k] != [] && ev.other[k][|ev.other[k]| - 1] == LF) {
        buf := buf + [LF];
      }
    }
    assert ev.other[..|ev.other|] == ev.other;
    if |payload| > 0 {
      var data := WriteDataLines(SplitLines(payload));
      buf := buf + data;
    }
    buf := buf + [LF];
  }

  method WriteDataLines(lines: seq<Bytes>) returns (buf: Bytes)
    ensures buf == DataText(lines)
  {
    buf := [];
    for k := 0 to |lines|
      invariant buf == DataText(lines[..k])
    {
      assert lines[..k + 1][..k] == lines[..k];
      buf := buf + (DATA_PREFIX + lines[k] + [LF]);
    }
    assert lines[..|lines|] == lines;
  }

  // ---- reading a rewritten event back

  /** What reading leaves under other: whole lines that are neither blank nor data. */
  predicate OtherLines(other: seq<Bytes>) {
    forall i :: 0 <= i < |other| ==> IsLine(other[i]) && KindOf(other[i]).OtherLine?
  }

  lemma {:induction false} ReadLeavesOtherLines(d: Bytes, ev: Event, end: End)
    requires OtherLines(ev.other)
    ensures ReadFrom(d, ev, end).event.Some? ==> OtherLines(ReadFrom(d, ev, end).event.value.other)
    decreases |d|
  {
    hide KindOf;
    var n := LineLength(d);
    var line, rest := d[..n], d[n..];
    if n > 0 && line[n - 1] == LF {
      var ev' := ev.(raw := ev.raw + line);
      match KindOf(line)
      case Blank =>
      case DataLine(value) => ReadLeavesOtherLines(rest, ev'.(dataLines := ev.dataLines + [value]), end);
      case OtherLine => ReadLeavesOtherLines(rest, ev'.(other := ev.other + [line]), end);
    }
  }

  /** A whole line is read for what it is. */
  lemma ReadLine(line: Bytes, rest: Bytes, ev: Event, end: End)
    requires IsLine(line)
    ensures var ev' := ev.(raw := ev.raw + line);
            ReadFrom(line + rest, ev, end) ==
            match KindOf(line)
            case Blank => Reading(Some(ev'), rest)
            case DataLine(value) => ReadFrom(rest, ev'.(dataLines := ev.dataLines + [value]), end)
            case OtherLine => ReadFrom(rest, ev'.(other := ev.other + [line]), end)
  {
    hide KindOf;
    LineLengthOf(line, rest);
    assert (line + rest)[..|line|] == line && (line + rest)[|line|..] == rest;
  }

  function Concat(lines: seq<Bytes>): Bytes {
    if lines == [] then [] else lines[0] + Concat(lines[1..])
  }

  /** The values of the data lines, in order. */
  function DataValues(lines: seq<Bytes>): seq<Bytes> {
    if lines == [] then []
    else (if KindOf(lines[0]).DataLine? then [KindOf(lines[0]).value] else []) + DataValues(lines[1..])
  }

  /** The lines that are neither blank nor data, in order. */
  function OthersOf(lines: seq<Bytes>): seq<Bytes> {
    if lines == [] then [] else (if KindOf(lines[0]).OtherLine? then [lines[0]] else []) + OthersOf(lines[1..])
  }

  /** Whole lines, none of them blank. */
  predicate InnerLines(lines: seq<Bytes>) {
    forall i :: 0 <= i < |lines| ==> IsLine(lines[i]) && !KindOf(lines[i]).Blank?
  }

  lemma {:induction false} ReadLines(lines: seq<Bytes>, rest: Bytes, ev: Event, end: End)
    requires InnerLines(lines)
    ensures ReadFrom(Concat(lines) + rest, ev, end) ==
            ReadFrom(rest, Event(ev.raw + Concat(lines), ev.dataLines + DataValues(lines), ev.other + OthersOf(lines)),
                     end)
    decreases |lines|
  {
    hide KindOf, ReadFrom, IsLine;
    if lines == [] {
      assert Concat(lines) + rest == rest && ev.raw + Concat(lines) == ev.raw;
      assert ev.dataLines + DataValues(lines) == ev.dataLines && ev.other + OthersOf(lines) == ev.other;
    } else {
      var line, tail := lines[0], lines[1..];
      var one := [line];
      Assoc(line, Concat(tail), rest);
      ReadLine(line, Concat(tail) + rest, ev, end);
      var data := if KindOf(line).DataLine? then [KindOf(line).value] else [];
      var other := if KindOf(line).OtherLine? then [line] else [];
      var ev' := Event(ev.raw + line, ev.dataLines + data, ev.other + other);
      assert ev.dataLines + [] == ev.dataLines && ev.other + [] == ev.other;
      ReadLines(tail, rest, ev', end);
      Assoc(ev.raw, line, Concat(tail));
      Assoc(ev.dataLines, data, DataValues(tail));
      Assoc(ev.other, other, OthersOf(tail));
    }
  }

  /** An event is the lines up to a blank one; what they say is its data and its other lines, in order. */
  lemma EventIsItsLines(lines: seq<Bytes>, blank: Bytes, rest: Bytes, end: End)
    requires InnerLines(lines) && IsLine(blank) && KindOf(blank).Blank?
    ensures ReadFrom(Concat(lines) + (blank + rest), EMPTY, end) ==
            Reading(Some(Event(Concat(lines) + blank, DataValues(lines), OthersOf(lines))), rest)
  {
    hide KindOf, ReadFrom, IsLine, Concat, DataValues, OthersOf;
    ReadLines(lines, blank + rest, EMPTY, end);
    assert [] + Concat(lines) == Concat(lines);
    assert EMPTY.dataLines + DataValues(lines) == DataValues(lines) && EMPTY.other + OthersOf(lines) == OthersOf(lines);
    ReadLine(blank, rest, Event(Concat(lines), DataValues(lines), OthersOf(lines)), end);
  }

  /** A stream that ends within an event gives its whole lines; what comes after the last line feed is only kept raw. */
  lemma LastEvent(lines: seq<Bytes>, tail: Bytes)
    requires InnerLines(lines) && LF !in tail
    ensures ReadFrom(Concat(lines) + tail, EMPTY, Eof) ==
            Reading(if Concat(lines) + tail == [] then None
                    else Some(Event(Concat(lines) + tail, DataValues(lines), OthersOf(lines))), [])
    ensures ReadFrom(Concat(lines) + tail, EMPTY, Failed) == Reading(None, [])
  {
    hide KindOf, IsLine, Concat, DataValues, OthersOf;
    var ev := Event(Concat(lines), DataValues(lines), OthersOf(lines));
    assert [] + Concat(lines) == Concat(lines);
    assert EMPTY.dataLines + DataValues(lines) == DataValues(lines) && EMPTY.other + OthersOf(lines) == OthersOf(lines);
    ReadLines(lines, tail, EMPTY, Eof);
    ReadLines(lines, tail, EMPTY, Failed);
    Unfinished(tail, ev, Eof);
    Unfinished(tail, ev, Failed);
  }

  lemma Unfinished(tail: Bytes, ev: Event, end: End)
    requires LF !in tail
    ensures ReadFrom(tail, ev, end) ==
            Reading(if end.Failed? || ev.raw + tail == [] then None else Some(ev.(raw := ev.raw + tail)), [])
  {
    hide KindOf;
    var n := LineLength(tail);
    assert n > 0 ==> tail[n - 1] in tail;
    assert n == |tail| && tail[..n] == tail;
  }

  lemma {:induction false} ReadOtherText(other: seq<Bytes>, rest: Bytes, ev: Event, end: End)
    requires OtherLines(other)
    ensures ReadFrom(OtherText(other) + rest, ev, end)
         == ReadFrom(rest, ev.(raw := ev.raw + OtherText(other), other := ev.other + other), end)
  {
    hide KindOf, ReadFrom;
    if other == [] {
      assert OtherText(other) + rest == rest && ev.raw + OtherText(other) == ev.raw && ev.other + other == ev.other;
    } else {
      var k := |other| - 1;
      var init, line := OtherText(other[..k]), other[k];
      ReadOtherText(other[..k], line + rest, ev, end);
      Assoc(init, line, rest);
      var ev' := ev.(raw := ev.raw + init, other := ev.other + other[..k]);
      ReadLine(line, rest, ev', end);
      Assoc(ev.raw, init, line);
      assert ev.other + other[..k] + [line] == ev.other + other;
    }
  }

  lemma {:induction false} StripAfter(a: Bytes, b: Bytes)
    requires a != [] && a[|a| - 1] != LF && a[|a| - 1] != CR
    ensures Strip(a + b) == a + Strip(b)
  {
    if b != [] && (b[|b| - 1] == LF || b[|b| - 1] == CR) {
      StripAfter(a, b[..|b| - 1]);
      assert (a + b)[..|a + b| - 1] == a + b[..|b| - 1];
    }
  }

  lemma TrimDataField(line: Bytes)
    ensures Strip(DataField(line)) == DATA_PREFIX + Strip(line)
  {
    hide Strip;
    assert DataField(line) == DATA_PREFIX + (line + [LF]);
    StripAfter(DATA_PREFIX, line + [LF]);
    StripLineFeed(line);
  }

  lemma SplitDataField(value: Bytes)
    ensures SplitField(DATA_PREFIX + value) == (DATA, value)
  {
    hide ColonAt;
    var t, rest := DATA_PREFIX + value, [SPACE] + value;
    assert t == DATA + [COLON] + rest;
    ColonOf(DATA, rest);
    assert t[..4] == DATA && t[5..] == rest && rest[1..] == value;
  }

  /** A written data line is a line, and reads as its text up to carriage returns at its end. */
  lemma DataFieldKind(line: Bytes)
    requires LF !in line
    ensures IsLine(DataField(line)) && KindOf(DataField(line)) == DataLine(Strip(line))
  {
    hide Strip, SplitField;
    TrimDataField(line);
    SplitDataField(Strip(line));
  }

  lemma StripLineFeed(line: Bytes)
    ensures Strip(line + [LF]) == Strip(line)
  {
    assert (line + [LF])[..|line|] == line;
  }

  function StripAll(lines: seq<Bytes>): (t: seq<Bytes>)
    ensures |t| == |lines| && forall i :: 0 <= i < |lines| ==> t[i] == Strip(lines[i])
  {
    seq(|lines|, i requires 0 <= i < |lines| => Strip(lines[i]))
  }

  lemma {:induction false} ReadDataText(lines: seq<Bytes>, rest: Bytes, ev: Event, end: End)
    requires forall i :: 0 <= i < |lines| ==> LF !in lines[i]
    ensures ReadFrom(DataText(lines) + rest, ev, end)
         == ReadFrom(rest, ev.(raw := ev.raw + DataText(lines), dataLines := ev.dataLines + StripAll(lines)), end)
  {
    hide KindOf, ReadFrom, DataField, Strip, IsLine;
    if lines == [] {
      assert DataText(lines) + rest == rest && ev.raw + DataText(lines) == ev.raw &&
        ev.dataLines + StripAll(lines) == ev.dataLines;
    } else {
      var k := |lines| - 1;
      var init, line := DataText(lines[..k]), DataField(lines[k]);
      ReadDataText(lines[..k], line + rest, ev, end);
      Assoc(init, line, rest);
      var ev' := ev.(raw := ev.raw + init, dataLines := ev.dataLines + StripAll(lines[..k]));
      DataFieldKind(lines[k]);
      ReadLine(line, rest, ev', end);
      Assoc(ev.raw, init, line);
      assert ev.dataLines + StripAll(lines[..k]) + [Strip(lines[k])] == ev.dataLines + StripAll(lines);
    }
  }

  lemma BlankLine()
    ensures KindOf([LF]) == Blank
  {
    assert [LF][..0] == [];
  }

  lemma JoinNothing()
    ensures Join([]) == [] && StripAll([]) == []
  {
  }

  function WrittenLines(payload: Bytes): (lines: seq<Bytes>)
    ensures forall i :: 0 <= i < |lines| ==> LF !in lines[i]
  {
    if payload == [] then [] else SplitLines(payload)
  }

  /** A rewritten event reads back as one event with the same other lines and the written data lines. */
  lemma RereadRewritten(ev: Event, payload: Bytes, rest: Bytes, end: End)
    requires OtherLines(ev.other)
    ensures ReadFrom(Rewritten(ev, payload) + rest, EMPTY, end)
         == Reading(Some(Event(Rewritten(ev, payload), StripAll(WrittenLines(payload)), ev.other)), rest)
  {
    hide KindOf, ReadFrom, OtherText, DataText, SplitLines, StripAll;
    var lines := WrittenLines(payload);
    var other, data := OtherText(ev.other), DataText(lines);
    DataTextOfNothing();
    assert Rewritten(ev, payload) == other + data + [LF];
    assert other + data + [LF] + rest == other + (data + ([LF] + rest));
    ReadOtherText(ev.other, data + ([LF] + rest), EMPTY, end);
    assert EMPTY.raw + other == other && EMPTY.other + ev.other == ev.other;
    var ev1 := Event(other, [], ev.other);
    ReadDataText(lines, [LF] + rest, ev1, end);
    assert ev1.dataLines + StripAll(lines) == StripAll(lines);
    BlankLine();
    ReadLine([LF], rest, Event(other + data, StripAll(lines), ev.other), end);
  }

  lemma DataTextOfNothing()
    ensures DataText([]) == []
  {
  }

  predicate EndsInCR(line: Bytes) {
    line != [] && line[|line| - 1] == CR
  }

  /** Stripping shortens the joined text, unless no line has anything to strip. */
  lemma {:induction false} JoinStripped(lines: seq<Bytes>)
    ensures |Join(StripAll(lines))| <= |Join(lines)|
    ensures |Join(StripAll(lines))| == |Join(lines)| ==> StripAll(lines) == lines
  {
    if lines != [] {
      var rest := lines[1..];
      JoinStripped(rest);
      assert StripAll(lines)[1..] == StripAll(rest);
      assert lines == [lines[0]] + rest && StripAll(lines) == [Strip(lines[0])] + StripAll(rest);
    }
  }

  /** The round trip holds exactly for payloads none of whose lines ends in a carriage return. */
  lemma RewriteRoundTrip(ev: Event, payload: Bytes, rest: Bytes, end: End)
    requires OtherLines(ev.other)
    ensures var r := ReadFrom(Rewritten(ev, payload) + rest, EMPTY, end);
            && r.event.Some? && r.rest == rest && r.event.value.other == ev.other
            && (Payload(r.event.value) == payload <==>
                  forall i :: 0 <= i < |SplitLines(payload)| ==> !EndsInCR(SplitLines(payload)[i]))
  {
    hide KindOf, ReadFrom, Rewritten, SplitLines, Strip;
    RereadRewritten(ev, payload, rest, end);
    JoinInvertsSplit(payload);
    if payload == [] {
      JoinNothing();
      SplitNothing();
    } else {
      var lines := SplitLines(payload);
      JoinStripped(lines);
      forall i | 0 <= i < |lines|
        ensures Strip(lines[i]) == lines[i] <==> !EndsInCR(lines[i])
      {
        StripChanges(lines[i]);
      }
      if forall i :: 0 <= i < |lines| ==> !EndsInCR(lines[i]) {
        assert StripAll(lines) == lines;
      }
    }
  }

  lemma SplitNothing()
    ensures SplitLines([]) == [[]]
  {
  }

  lemma StripChanges(line: Bytes)
    requires LF !in line
    ensures Strip(line) == line <==> !EndsInCR(line)
  {
    if EndsInCR(line) {
      assert |Strip(line)| <= |line| - 1;
    }
  }

  // ---- the filter

  /**
    * What the interceptor makes of a payload, given its trace: a longer trace, and a new payload if there is one to
    * write.
    */
  type Filter<!T> = (T, Bytes) -> (T, Option<Bytes>)

  /** rewriteEvent: what to emit, and the trace afterwards. */
  function RewriteEvent<T>(filter: Filter<T>, trace: T, ev: Event): (Bytes, T) {
    if Payload(ev) == [] then (ev.raw, trace)
    else
      var (trace', changed) := filter(trace, Payload(ev));
      (if changed.None? then ev.raw else Rewritten(ev, changed.value), trace')
  }

  function Filtered<T>(filter: Filter<T>, trace: T, es: seq<Event>): Bytes {
    if es == [] then []
    else
      var (text, trace') := RewriteEvent(filter, trace, es[0]);
      text + Filtered(filter, trace', es[1..])
  }

  /** No event is given a new payload, as the trace develops. */
  predicate Untouched<T>(filter: Filter<T>, trace: T, es: seq<Event>) {
    es != [] ==>
      && (Payload(es[0]) != [] ==> filter(trace, Payload(es[0])).1.None?)
      && Untouched(filter, RewriteEvent(filter, trace, es[0]).1, es[1..])
  }

  /** A filter that changes nothing passes the stream on byte for byte. */
  lemma {:induction false} IdentityFilter<T>(filter: Filter<T>, trace: T, es: seq<Event>)
    requires Untouched(filter, trace, es)
    ensures Filtered(filter, trace, es) == RawOf(es)
  {
    hide Payload;
    if es != [] {
      IdentityFilter(filter, RewriteEvent(filter, trace, es[0]).1, es[1..]);
    }
  }

  /** So a stream with nothing to filter arrives as it was sent. */
  lemma UnfilteredStream<T>(filter: Filter<T>, trace: T, d: Bytes)
    requires Untouched(filter, trace, Events(d, Eof))
    ensures Filtered(filter, trace, Events(d, Eof)) == d
  {
    IdentityFilter(filter, trace, Events(d, Eof));
    EventsKeepBytes(d);
  }

  /** What is to come from a stream, filtered. */
  function Coming<T>(filter: Filter<T>, trace: T, input: Bytes, end: End): Bytes {
    Filtered(filter, trace, Events(input, end))
  }

  lemma ComingStep<T>(filter: Filter<T>, trace: T, input: Bytes, end: End)
    ensures var r := ReadFrom(input, EMPTY, end);
            Coming(filter, trace, input, end) ==
            if r.event.None? then []
            else
              var (text, trace') := RewriteEvent(filter, trace, r.event.value);
              text + Coming(filter, trace', r.rest, end)
  {
    hide ReadFrom, RewriteEvent;
    var r := ReadFrom(input, EMPTY, end);
    if r.event.Some? {
      assert Events(input, end)[1..] == Events(r.rest, end);
    }
  }

  /** sseFilter. */
  class SseFilter<T> {
    const filter: Filter<T>
    const end: End
    var trace: T
    var input: Bytes
    var pending: Bytes
    var done: bool

    /** The bytes still to be delivered. */
    ghost function Rest(): Bytes
      reads this
    {
      pending + if done then [] else Coming(filter, trace, input, end)
    }

    constructor (filter: Filter<T>, trace: T, input: Bytes, end: End)
      ensures this.filter == filter && this.end == end && Rest() == Coming(filter, trace, input, end) && !done
    {
      this.filter, this.end, this.trace, this.input, pending, done := filter, end, trace, input, [], false;
    }

    /** Read into a buffer of n bytes; the error of a failed stream is reported once, and then end of file. */
    method Read(n: nat) returns (p: Bytes, result: Option<End>)
      modifies this
      ensures p + Rest() == old(Rest()) && |p| <= n
      ensures result.Some? <==> old(Rest()) == []
      ensures result.Some? ==> p == [] && done && result == Some(if old(done) then Eof else end)
      ensures result.None? && n > 0 ==> p != []
    {
      hide ReadFrom, RewriteEvent, Coming;
      ghost var wasDone := done;
      while pending == []
        invariant Rest() == old(Rest()) && (done ==> wasDone || end.Eof?) && (wasDone ==> done)
        decreases |input|, !done
      {
        if done {
          return [], Some(Eof);
        }
        var r := ReadSSEEvent(input, end);
        ComingStep(filter, trace, input, end);
        if r.event.Some? {
          var text := EventText(r.event.value);
          pending := pending + text;
          input := r.rest;
        } else {
          done := true;
          if end.Failed? {
            return [], Some(Failed);
          }
        }
      }
      var k := if n < |pending| then n else |pending|;
      p, result := pending[..k], None;
      assert pending == p + pending[k..];
      pending := pending[k..];
    }

    /** rewriteEvent, which may add to the trace. */
    method EventText(ev: Event) returns (text: Bytes)
      modifies this`trace
      ensures (text, trace) == RewriteEvent(filter, old(trace), ev)
    {
      hide Payload, Rewritten;
      var payload := Payload(ev);
      if payload == [] {
        return ev.raw;
      }
      var (next, changed) := filter(trace, payload);
      trace := next;
      if changed.None? {
        return ev.raw;
      }
      text := RewriteData(ev, changed.value);
    }
  }
}
