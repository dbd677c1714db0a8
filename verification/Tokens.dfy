/**
  * The scrubber's tokenizer: one character of a response, read through percent escapes, JSON escapes, \xNN and
  * HTML character references, or literally. Its third outcome, besides a character and no escape, is that the
  * data ends inside what may become a longer spelling.
  */
module Tokens {
  import opened Utf8

  const PERCENT: int := 0x25
  const BACKSLASH: int := 0x5C
  const AMPERSAND: int := 0x26
  const HASH: int := 0x23
  const SEMICOLON: int := 0x3B
  const LOWER_U: int := 0x75
  const LOWER_X: int := 0x78
  const UPPER_X: int := 0x58

  /** The longest spelling of one character: four percent escapes, or a JSON surrogate pair. */
  const MAX_TOKEN: int := 12

  datatype Form = Literal | Percent | JsonU | JsonShort | HexEscape | HtmlDec | HtmlHex | HtmlNamed
  datatype HexCase = NoCase | Lower | Upper
  datatype Spelling = Spelling(form: Form, hexCase: HexCase)

  const PLAIN := Spelling(Literal, NoCase)

  /** What an escape reader reports; EscapeMore when the data ends too early to tell. */
  datatype Escape = EscapeMore | NoEscape | Escape(r: Rune, w: nat, sp: Spelling)

  datatype Token = NeedMore | Token(r: Rune, w: nat, sp: Spelling)

  datatype HexRead = HexMore | HexBad | Hex(value: nat, hexCase: HexCase)

  datatype PercentRead = PercentMore | PercentBad | PercentBytes(bytes: Bytes, hexCase: HexCase)

  predicate IsEscapeStart(b: int) {
    b == PERCENT || b == BACKSLASH || b == AMPERSAND
  }

  predicate IsDecimal(b: int) {
    0x30 <= b <= 0x39
  }

  predicate IsHexDigit(b: int) {
    IsDecimal(b) || 0x61 <= b <= 0x66 || 0x41 <= b <= 0x46
  }

  function HexValue(b: int): (v: nat)
    requires IsHexDigit(b)
    ensures v < 16
  {
    if IsDecimal(b) then b - 0x30 else if b >= 0x61 then b - 0x61 + 10 else b - 0x41 + 10
  }

  function HexCaseOf(b: int): HexCase
    requires IsHexDigit(b)
  {
    if IsDecimal(b) then NoCase else if b >= 0x61 then Lower else Upper
  }

  /** The first case seen wins. */
  function FirstCase(a: HexCase, b: HexCase): HexCase {
    if a.NoCase? then b else a
  }

  function Pow16(n: nat): nat {
    if n == 0 then 1 else 16 * Pow16(n - 1)
  }

  /** The value of the first n bytes as hex digits. */
  function HexRun(d: Bytes, n: nat): (h: HexRead)
    ensures h.HexMore? ==> |d| < n
    ensures h.Hex? ==> n <= |d| && h.value < Pow16(n)
  {
    if n == 0 then Hex(0, NoCase)
    else
      match HexRun(d, n - 1)
      case Hex(v, c) =>
        if n - 1 >= |d| then HexMore
        else if !IsHexDigit(d[n - 1]) then HexBad
        else Hex(16 * v + HexValue(d[n - 1]), FirstCase(c, HexCaseOf(d[n - 1])))
      case other => other
  }

  method ReadHex(d: Bytes, n: nat) returns (h: HexRead)
    ensures h == HexRun(d, n)
  {
    var value: nat, hexCase := 0, NoCase;
    for i := 0 to n
      invariant HexRun(d, i) == Hex(value, hexCase)
    {
      assert HexRun(d, i + 1) == HexRun(d, n) || HexRun(d, i + 1).Hex? by { HexRunPrefix(d, i + 1, n); }
      if i >= |d| {
        return HexMore;
      }
      if !IsHexDigit(d[i]) {
        return HexBad;
      }
      value := 16 * value + HexValue(d[i]);
      if hexCase.NoCase? {
        hexCase := HexCaseOf(d[i]);
      }
    }
    return Hex(value, hexCase);
  }

  /** Once a run has failed, a longer one fails the same way. */
  lemma HexRunPrefix(d: Bytes, m: nat, n: nat)
    requires m <= n
    ensures HexRun(d, m) == HexRun(d, n) || HexRun(d, m).Hex?
  {
  }

  /** The bytes that n consecutive percent escapes spell. */
  function PercentRun(d: Bytes, n: nat): (p: PercentRead)
    ensures p.PercentMore? ==> |d| < 3 * n
    ensures p.PercentBytes? ==> 3 * n <= |d| && |p.bytes| == n
  {
    if n == 0 then PercentBytes([], NoCase)
    else
      match PercentRun(d, n - 1)
      case PercentBytes(bs, c) =>
        var at := 3 * (n - 1);
        if at >= |d| then PercentMore
        else if d[at] != PERCENT then PercentBad
        else (
          match HexRun(d[at + 1..], 2)
          case HexMore => PercentMore
          case HexBad => PercentBad
          case Hex(v, c1) => PercentBytes(bs + [v], FirstCase(c, c1))
        )
      case other => other
  }

  /** How many escaped bytes the first one announces, judged by its leading bits alone. */
  function PercentNeed(b0: Byte): (n: nat)
    ensures 1 <= n <= 4
  {
    if b0 / 32 == 0x6 then 2 else if b0 / 16 == 0xE then 3 else if b0 / 8 == 0x1E then 4 else 1
  }

  /** One escaped byte on its own. */
  function SingleByte(d: Bytes): Escape {
    match PercentRun(d, 1)
    case PercentBytes(bs, c) =>
      Escape(if bs[0] < 0x80 then bs[0] else MAX_RUNE + 1 + bs[0], 3, Spelling(Percent, c))
    case _ => NoEscape
  }

  /** readPercent: escapes that make up one UTF-8 sequence are one character; otherwise one escape is one byte. */
  function PercentEscape(d: Bytes): (e: Escape)
    ensures e.EscapeMore? ==> |d| < MAX_TOKEN
    ensures e.Escape? ==> 3 <= e.w <= |d| && e.w <= MAX_TOKEN && e.sp.form == Percent
  {
    match PercentRun(d, 1)
    case PercentMore => EscapeMore
    case PercentBad => NoEscape
    case PercentBytes(first, _) =>
      var need := PercentNeed(first[0]);
      match PercentRun(d, need)
      case PercentMore => EscapeMore
      case PercentBad => SingleByte(d)
      case PercentBytes(bs, cs) =>
        var rw := DecodeRune(bs);
        if IsInvalid(rw) then SingleByte(d) else Escape(rw.0, 3 * need, Spelling(Percent, cs))
  }

  lemma PercentRunPrefix(d: Bytes, m: nat, n: nat)
    requires m <= n
    ensures PercentRun(d, m) == PercentRun(d, n) || PercentRun(d, m).PercentBytes?
    ensures PercentRun(d, n).PercentBytes? ==>
              PercentRun(d, m).PercentBytes? && PercentRun(d, m).bytes == PercentRun(d, n).bytes[..m]
  {
  }

  /** Where reading stops early, and what that makes of the escape. */
  lemma PercentStops(d: Bytes, i: nat)
    requires PercentRun(d, i).PercentBytes? && !PercentRun(d, i + 1).PercentBytes?
    requires i < if i == 0 then 1 else PercentNeed(PercentRun(d, i).bytes[0])
    ensures PercentEscape(d) == if PercentRun(d, i + 1).PercentMore? then EscapeMore else SingleByte(d)
  {
    if i > 0 {
      PercentRunPrefix(d, 1, i);
      PercentRunPrefix(d, i + 1, PercentNeed(PercentRun(d, 1).bytes[0]));
    }
  }

  /** When every announced byte has been read. */
  lemma PercentCompletes(d: Bytes, buf: Bytes, c: HexCase)
    requires buf != [] && PercentRun(d, |buf|) == PercentBytes(buf, c) && |buf| == PercentNeed(buf[0])
    ensures var rw := DecodeRune(buf);
            PercentEscape(d) == if IsInvalid(rw) then SingleByte(d) else Escape(rw.0, 3 * |buf|, Spelling(Percent, c))
  {
    PercentRunPrefix(d, 1, |buf|);
  }

  method ReadPercent(d: Bytes) returns (e: Escape)
    requires d != [] && d[0] == PERCENT
    ensures e == PercentEscape(d)
  {
    hide DecodeRune, PercentNeed, PercentEscape, HexRun;
    var buf: Bytes := [];
    var hexCase := NoCase;
    var need, i := 1, 0;
    while i < need
      invariant 0 <= i <= need <= 4
      invariant PercentRun(d, i) == PercentBytes(buf, hexCase)
      invariant need == if i == 0 then 1 else PercentNeed(buf[0])
      invariant i == need ==> PercentEscape(d) == SingleByte(d)
      decreases 4 - i
    {
      if !PercentRun(d, i + 1).PercentBytes? {
        PercentStops(d, i);
      }
      var at := 3 * i;
      if at >= |d| {
        return EscapeMore;
      }
      if d[at] != PERCENT {
        break;
      }
      var h := ReadHex(d[at + 1..], 2);
      if h.HexMore? {
        return EscapeMore;
      }
      if h.HexBad? {
        break;
      }
      if hexCase.NoCase? {
        hexCase := h.hexCase;
      }
      buf := buf + [h.value];
      if i == 0 {
        need := PercentNeed(h.value);
      }
      assert PercentRun(d, i + 1) == PercentBytes(buf, hexCase);
      if i == need - 1 {
        PercentCompletes(d, buf, hexCase);
        var (r, w) := DecodeRune(buf);
        if !(r == RUNE_ERROR && w <= 1) {
          return Escape(r, 3 * need, Spelling(Percent, hexCase));
        }
      }
      i := i + 1;
    }
    assert PercentEscape(d) == SingleByte(d);
    var h := ReadHex(d[1..], 2);
    if !h.Hex? {
      return NoEscape;
    }
    var r := if h.value >= 0x80 then MAX_RUNE + 1 + h.value else h.value;
    return Escape(r, 3, Spelling(Percent, h.hexCase));
  }

  /** The one-letter JSON escapes: backslash, then the key. */
  function JsonShortRune(b: int): (r: int)
    ensures r == -1 || 0 <= r < 0x80
  {
    if b == 0x22 || b == BACKSLASH || b == 0x2F then b
    else if b == 0x62 then 0x08
    else if b == 0x66 then 0x0C
    else if b == 0x6E then 0x0A
    else if b == 0x72 then 0x0D
    else if b == 0x74 then 0x09
    else -1
  }

  predicate IsHighSurrogate(v: int) {
    0xD800 <= v < 0xDC00
  }

  predicate IsLowSurrogate(v: int) {
    0xDC00 <= v < 0xE000
  }

  /** readBackslash: \uXXXX with surrogate pairs, \xNN and the short JSON escapes. */
  function BackslashEscape(d: Bytes): (e: Escape)
    requires d != []
    ensures e.EscapeMore? ==> |d| < MAX_TOKEN
    ensures e.Escape? ==> 2 <= e.w <= |d| && e.w <= MAX_TOKEN && e.sp.form in {JsonU, JsonShort, HexEscape}
  {
    if |d| < 2 then EscapeMore
    else if d[1] == LOWER_U then
      match HexRun(d[2..], 4)
      case HexMore => EscapeMore
      case HexBad => NoEscape
      case Hex(unit, c) =>
        if !IsHighSurrogate(unit) then Escape(unit, 6, Spelling(JsonU, c))
        else if |d| < 8 || (d[6] == BACKSLASH && |d| < 12) then EscapeMore
        else if d[6] == BACKSLASH && d[7] == LOWER_U then
          match HexRun(d[8..], 4)
          case Hex(low, c2) =>
            if IsLowSurrogate(low) then
              Escape(0x10000 + (unit - 0xD800) * 1024 + (low - 0xDC00), 12, Spelling(JsonU, FirstCase(c, c2)))
            else Escape(unit, 6, Spelling(JsonU, c))
          case _ => Escape(unit, 6, Spelling(JsonU, c))
        else Escape(unit, 6, Spelling(JsonU, c))
    else if d[1] == LOWER_X then
      match HexRun(d[2..], 2)
      case HexMore => EscapeMore
      case HexBad => NoEscape
      case Hex(v, c) => Escape(v, 4, Spelling(HexEscape, c))
    else if JsonShortRune(d[1]) >= 0 then Escape(JsonShortRune(d[1]), 2, Spelling(JsonShort, NoCase))
    else NoEscape
  }

  const AMP: Bytes := [0x61, 0x6D, 0x70]
  const LT: Bytes := [0x6C, 0x74]
  const GT: Bytes := [0x67, 0x74]
  const QUOT: Bytes := [0x71, 0x75, 0x6F, 0x74]
  const APOS: Bytes := [0x61, 0x70, 0x6F, 0x73]

  function NamedRune(name: Bytes): (r: int)
    ensures r == -1 || 0 <= r < 0x80
  {
    if name == AMP then AMPERSAND
    else if name == LT then 0x3C
    else if name == GT then 0x3E
    else if name == QUOT then 0x22
    else if name == APOS then 0x27
    else -1
  }

  predicate IsLowerLetter(b: int) {
    0x61 <= b <= 0x7A
  }

  /** A named reference, from its i-th byte on. */
  function NamedEscape(d: Bytes, i: nat): (e: Escape)
    requires 1 <= i <= |d| && i <= 6
    ensures e.EscapeMore? ==> |d| <= 5
    ensures e.Escape? ==> i < e.w <= |d| && e.w <= 6 && e.sp == Spelling(HtmlNamed, NoCase)
    decreases 6 - i
  {
    if i >= |d| || i > 5 then (if |d| <= 5 then EscapeMore else NoEscape)
    else if d[i] == SEMICOLON then
      var r := NamedRune(d[1..i]);
      if r < 0 then NoEscape else Escape(r, i + 1, Spelling(HtmlNamed, NoCase))
    else if !IsLowerLetter(d[i]) then NoEscape
    else NamedEscape(d, i + 1)
  }

  function MaxDigits(hex: bool): nat {
    if hex then 6 else 7
  }

  function DigitsStart(hex: bool): nat {
    if hex then 3 else 2
  }

  predicate IsDigit(b: int, hex: bool) {
    IsDecimal(b) || (hex && IsHexDigit(b))
  }

  function Base(hex: bool): nat {
    if hex then 16 else 10
  }

  /** A numeric reference whose digits before position i spell value. */
  function NumericEscape(d: Bytes, hex: bool, i: nat, value: nat, c: HexCase): (e: Escape)
    requires DigitsStart(hex) <= i <= |d| && i - DigitsStart(hex) <= MaxDigits(hex)
    ensures e.EscapeMore? ==> |d| <= 9
    ensures e.Escape? ==> i < e.w <= |d| && e.w <= 10 && e.sp.form == if hex then HtmlHex else HtmlDec
    decreases |d| - i
  {
    if i >= |d| then EscapeMore
    else if d[i] == SEMICOLON then
      if i == DigitsStart(hex) || value > MAX_RUNE then NoEscape
      else Escape(value, i + 1, Spelling(if hex then HtmlHex else HtmlDec, c))
    else if i - DigitsStart(hex) >= MaxDigits(hex) then NoEscape
    else if !IsDigit(d[i], hex) then NoEscape
    else NumericEscape(d, hex, i + 1, Base(hex) * value + HexValue(d[i]), FirstCase(c, HexCaseOf(d[i])))
  }

  /** readReference: &#DDD; and &#xHH; with bounded digits, and the five named references. */
  function ReferenceEscape(d: Bytes): (e: Escape)
    requires d != []
    ensures e.EscapeMore? ==> |d| < MAX_TOKEN
    ensures e.Escape? ==> 2 <= e.w <= |d| && e.w <= MAX_TOKEN && e.sp.form in {HtmlDec, HtmlHex, HtmlNamed}
  {
    if |d| < 2 then EscapeMore
    else if d[1] != HASH then NamedEscape(d, 1)
    else
      var hex := |d| > 2 && (d[2] == LOWER_X || d[2] == UPPER_X);
      NumericEscape(d, hex, DigitsStart(hex), 0, NoCase)
  }

  method ReadReference(d: Bytes) returns (e: Escape)
    requires d != []
    ensures e == ReferenceEscape(d)
  {
    if |d| < 2 {
      return EscapeMore;
    }
    if d[1] != HASH {
      var i := 1;
      while i < |d| && i <= 5
        invariant 1 <= i <= |d| && i <= 6
        invariant NamedEscape(d, 1) == NamedEscape(d, i)
      {
        if d[i] == SEMICOLON {
          var r := NamedRune(d[1..i]);
          return if r < 0 then NoEscape else Escape(r, i + 1, Spelling(HtmlNamed, NoCase));
        }
        if !IsLowerLetter(d[i]) {
          return NoEscape;
        }
        i := i + 1;
      }
      return if |d| <= 5 then EscapeMore else NoEscape;
    }
    var hex := |d| > 2 && (d[2] == LOWER_X || d[2] == UPPER_X);
    var value: nat, hexCase, i := 0, NoCase, DigitsStart(hex);
    while i < |d|
      invariant DigitsStart(hex) <= i <= |d| && i - DigitsStart(hex) <= MaxDigits(hex)
      invariant ReferenceEscape(d) == NumericEscape(d, hex, i, value, hexCase)
    {
      if d[i] == SEMICOLON {
        if i == DigitsStart(hex) || value > MAX_RUNE {
          return NoEscape;
        }
        return Escape(value, i + 1, Spelling(if hex then HtmlHex else HtmlDec, hexCase));
      }
      if i - DigitsStart(hex) >= MaxDigits(hex) || !IsDigit(d[i], hex) {
        return NoEscape;
      }
      if hexCase.NoCase? {
        hexCase := HexCaseOf(d[i]);
      }
      value := Base(hex) * value + HexValue(d[i]);
      i := i + 1;
    }
    return EscapeMore;
  }

  function EscapeAt(d: Bytes): (e: Escape)
    requires d != []
    ensures e.EscapeMore? ==> |d| < MAX_TOKEN && IsEscapeStart(d[0])
    ensures e.Escape? ==> 2 <= e.w <= |d| && e.w <= MAX_TOKEN && e.sp.form != Literal && IsEscapeStart(d[0])
  {
    if d[0] == PERCENT then PercentEscape(d)
    else if d[0] == BACKSLASH then BackslashEscape(d)
    else if d[0] == AMPERSAND then ReferenceEscape(d)
    else NoEscape
  }

  function LiteralToken(d: Bytes, final: bool): Token
    requires d != []
  {
    if !final && !FullRune(d) then NeedMore
    else var (r, w) := LiteralRune(d); Token(r, w, PLAIN)
  }

  /** readToken: the character spelled at the start of d. */
  function ReadToken(d: Bytes, escaped: bool, final: bool): (t: Token)
    requires d != []
    ensures t.NeedMore? ==> !final && |d| < MAX_TOKEN
    ensures t.Token? ==> 1 <= t.w <= |d| && t.w <= MAX_TOKEN
    ensures t.Token? && t.sp.form != Literal ==> escaped && IsEscapeStart(d[0]) && t.w > 1
    ensures t.Token? && t.sp.form == Literal ==> t == Token(LiteralRune(d).0, LiteralRune(d).1, PLAIN)
  {
    match if escaped then EscapeAt(d) else NoEscape
    case EscapeMore => if final then LiteralToken(d, final) else NeedMore
    case NoEscape => LiteralToken(d, final)
    case Escape(r, w, sp) => Token(r, w, sp)
  }
}
