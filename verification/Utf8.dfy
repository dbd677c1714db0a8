/**
  * Bytes, runes and the UTF-8 coding the scrubber relies on.
  *
  * A rune is a code point, or one of the 256 values above the last code point that stand for a byte
  * which is not part of any UTF-8 sequence.
  */
module Utf8 {

  const MAX_RUNE: int := 0x10FFFF
  const RUNE_ERROR: int := 0xFFFD

  type Byte = b: int | 0 <= b < 256
  type Rune = r: int | 0 <= r <= 0x10FFFF + 256
  type Bytes = seq<Byte>

  /** A code point that UTF-8 can carry: everything but the surrogates. */
  predicate IsScalar(r: int) {
    0 <= r <= MAX_RUNE && !(0xD800 <= r < 0xE000)
  }

  predicate IsContinuation(b: Byte) {
    0x80 <= b <= 0xBF
  }

  /** The length a sequence starting with b0 has; 1 for ASCII and for a byte that starts nothing. */
  function SequenceLength(b0: Byte): nat {
    if 0xC2 <= b0 <= 0xDF then 2
    else if 0xE0 <= b0 <= 0xEF then 3
    else if 0xF0 <= b0 <= 0xF4 then 4
    else 1
  }

  /** The second byte of a sequence has a narrower range after E0, ED, F0 and F4. */
  predicate SecondOk(b0: Byte, b1: Byte) {
    && (if b0 == 0xE0 then 0xA0 else if b0 == 0xF0 then 0x90 else 0x80) <= b1
    && b1 <= (if b0 == 0xED then 0x9F else if b0 == 0xF4 then 0x8F else 0xBF)
  }

  function Join2(b0: int, b1: int): int {
    64 * (b0 - 0xC0) + (b1 - 0x80)
  }

  function Join3(b0: int, b1: int, b2: int): int {
    64 * (64 * (b0 - 0xE0) + (b1 - 0x80)) + (b2 - 0x80)
  }

  function Join4(b0: int, b1: int, b2: int, b3: int): int {
    64 * (64 * (64 * (b0 - 0xF0) + (b1 - 0x80)) + (b2 - 0x80)) + (b3 - 0x80)
  }

  /** utf8.DecodeRune: the first rune and its width, or (RUNE_ERROR, 1) when d does not start one. */
  function DecodeRune(d: Bytes): (rw: (Rune, nat))
    ensures rw.1 <= |d| && rw.1 <= 4
    ensures d != [] ==> 1 <= rw.1
  {
    if d == [] then (RUNE_ERROR, 0)
    else
      var b0, n := d[0], SequenceLength(d[0]);
      if b0 < 0x80 then (b0, 1)
      else if n == 1 || |d| < n || !SecondOk(b0, d[1]) then (RUNE_ERROR, 1)
      else if n == 2 then (Join2(b0, d[1]), 2)
      else if !IsContinuation(d[2]) then (RUNE_ERROR, 1)
      else if n == 3 then (Join3(b0, d[1], d[2]), 3)
      else if !IsContinuation(d[3]) then (RUNE_ERROR, 1)
      else (Join4(b0, d[1], d[2], d[3]), 4)
  }

  predicate IsInvalid(rw: (Rune, nat)) {
    rw.0 == RUNE_ERROR && rw.1 <= 1
  }

  /** utf8.FullRune: no further byte can change what DecodeRune says. */
  predicate FullRune(d: Bytes) {
    && d != []
    && var n := SequenceLength(d[0]);
      || |d| >= n
      || (|d| > 1 && !SecondOk(d[0], d[1]))
      || (|d| > 2 && !IsContinuation(d[2]))
  }

  /** utf8.AppendRune, extended to the runes that stand for a raw byte; a surrogate is written as U+FFFD. */
  function EncodeRune(r: Rune): (b: Bytes)
    ensures 1 <= |b| <= 4
  {
    if r > MAX_RUNE then [r - MAX_RUNE - 1]
    else if r < 0x80 then [r]
    else if r < 0x800 then [0xC0 + r / 64, 0x80 + r % 64]
    else if 0xD800 <= r < 0xE000 then [0xEF, 0xBF, 0xBD]
    else if r < 0x10000 then [0xE0 + r / 64 / 64, 0x80 + r / 64 % 64, 0x80 + r % 64]
    else [0xF0 + r / 64 / 64 / 64, 0x80 + r / 64 / 64 % 64, 0x80 + r / 64 % 64, 0x80 + r % 64]
  }

  /** The first rune of d, where a byte that starts nothing stands for itself. */
  function LiteralRune(d: Bytes): (rw: (Rune, nat))
    requires d != []
    ensures 1 <= rw.1 <= |d| && rw.1 <= 4
  {
    var rw := DecodeRune(d);
    if IsInvalid(rw) then (MAX_RUNE + 1 + d[0], 1) else rw
  }

  /** Decoding undoes encoding, whatever follows. */
  lemma DecodeEncode(r: Rune, rest: Bytes)
    requires IsScalar(r)
    ensures DecodeRune(EncodeRune(r) + rest) == (r, |EncodeRune(r)|)
    ensures FullRune(EncodeRune(r) + rest)
    ensures LiteralRune(EncodeRune(r) + rest) == (r, |EncodeRune(r)|)
  {
    var d := EncodeRune(r) + rest;
    if r < 0x80 {
    } else if r < 0x800 {
      assert Join2(d[0], d[1]) == r;
    } else if r < 0x10000 {
      assert Join3(d[0], d[1], d[2]) == r;
    } else {
      assert Join4(d[0], d[1], d[2], d[3]) == r;
    }
  }

  /** Encoding undoes decoding: what a literal reading consumed is the encoding of what it returned. */
  lemma EncodeDecode(d: Bytes)
    requires d != []
    ensures var (r, w) := LiteralRune(d);
            EncodeRune(r) == d[..w] && (IsScalar(r) || r == MAX_RUNE + 1 + d[0])
  {
    var w := LiteralRune(d).1;
    if w == 2 {
      EncodeJoin2(d[0], d[1]);
    } else if w == 3 {
      EncodeJoin3(d[0], d[1], d[2]);
    } else if w == 4 {
      EncodeJoin4(d[0], d[1], d[2], d[3]);
    }
  }

  lemma EncodeJoin2(b0: Byte, b1: Byte)
    requires SequenceLength(b0) == 2 && IsContinuation(b1)
    ensures 0x80 <= Join2(b0, b1) < 0x800 && EncodeRune(Join2(b0, b1)) == [b0, b1]
  {
    Digits64(b0 - 0xC0, b1 - 0x80);
  }

  lemma EncodeJoin3(b0: Byte, b1: Byte, b2: Byte)
    requires SequenceLength(b0) == 3 && SecondOk(b0, b1) && IsContinuation(b2)
    ensures 0x800 <= Join3(b0, b1, b2) < 0x10000 && IsScalar(Join3(b0, b1, b2))
    ensures EncodeRune(Join3(b0, b1, b2)) == [b0, b1, b2]
  {
    var a: int, b: int := b0 - 0xE0, b1 - 0x80;
    Digits64(64 * a + b, b2 - 0x80);
    Digits64(a, b);
  }

  lemma EncodeJoin4(b0: Byte, b1: Byte, b2: Byte, b3: Byte)
    requires SequenceLength(b0) == 4 && SecondOk(b0, b1) && IsContinuation(b2) && IsContinuation(b3)
    ensures 0x10000 <= Join4(b0, b1, b2, b3) <= MAX_RUNE
    ensures EncodeRune(Join4(b0, b1, b2, b3)) == [b0, b1, b2, b3]
  {
    var a: int, b: int, c: int := b0 - 0xF0, b1 - 0x80, b2 - 0x80;
    Digits64(64 * (64 * a + b) + c, b3 - 0x80);
    Digits64(64 * a + b, c);
    Digits64(a, b);
  }

  lemma Digits64(a: int, c: int)
    requires 0 <= a && 0 <= c < 64
    ensures (64 * a + c) / 64 == a && (64 * a + c) % 64 == c
  {
  }

  /** A full rune reads the same however the data goes on. */
  lemma FullRuneStable(d: Bytes, more: Bytes)
    requires FullRune(d)
    ensures FullRune(d + more) && LiteralRune(d + more) == LiteralRune(d)
  {
  }

  /** decodeRunes: the runes of a byte string; any byte string has such a reading. */
  function Runes(b: Bytes): (rs: seq<Rune>)
  {
    if b == [] then []
    else var (r, w) := LiteralRune(b); [r] + Runes(b[w..])
  }

  method DecodeRunes(b: Bytes) returns (runes: seq<Rune>)
    ensures runes == Runes(b)
  {
    hide DecodeRune;
    ghost var goal := Runes(b);
    runes := [];
    var rest := b;
    while |rest| > 0
      invariant goal == runes + Runes(rest)
      decreases |rest|
    {
      var (r, w) := DecodeRune(rest);
      if r == RUNE_ERROR && w <= 1 {
        r := MAX_RUNE + 1 + rest[0];
        w := 1;
      }
      Assoc(runes, [r], Runes(rest[w..]));
      runes := runes + [r];
      rest := rest[w..];
    }
  }

  lemma Assoc<T>(a: seq<T>, b: seq<T>, c: seq<T>)
    ensures a + (b + c) == a + b + c
  {
  }

  function EncodeRunes(rs: seq<Rune>): (b: Bytes) {
    if rs == [] then [] else EncodeRune(rs[0]) + EncodeRunes(rs[1..])
  }

  lemma EncodeNoRunes()
    ensures EncodeRunes([]) == []
  {
  }

  lemma EncodeRunesCons(r: Rune, rs: seq<Rune>)
    ensures EncodeRunes([r] + rs) == EncodeRune(r) + EncodeRunes(rs)
  {
    hide EncodeRune;
    assert ([r] + rs)[1..] == rs;
  }

  /** Decoding a byte string to runes loses nothing. */
  lemma {:induction false} EncodeRunesInvertsRunes(b: Bytes)
    ensures EncodeRunes(Runes(b)) == b
    decreases |b|
  {
    hide LiteralRune, EncodeRune, EncodeRunes, IsScalar;
    if b == [] {
      EncodeNoRunes();
    } else {
      var (r, w) := LiteralRune(b);
      EncodeDecode(b);
      EncodeRunesInvertsRunes(b[w..]);
      EncodeRunesCons(r, Runes(b[w..]));
      assert b == b[..w] + b[w..];
    }
  }
}
