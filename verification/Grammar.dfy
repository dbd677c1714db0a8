/**
  * The spelling grammar, stated without reference to the tokenizer: which texts spell a character, and which texts
  * spell a needle. The tokenizer and the matcher are shown to accept exactly these texts.
  */
module Grammar {
  import opened Utf8
  import opened Tokens

  predicate AllHex(d: Bytes) {
    forall i :: 0 <= i < |d| ==> IsHexDigit(d[i])
  }

  predicate AllDigits(d: Bytes, hex: bool) {
    forall i :: 0 <= i < |d| ==> IsDigit(d[i], hex)
  }

  /** The number that digits denote, most significant digit first. */
  function Value(d: Bytes, base: nat): nat
    requires AllHex(d)
  {
    if d == [] then 0 else base * Value(d[..|d| - 1], base) + HexValue(d[|d| - 1])
  }

  predicate SpellsLiterally(t: Bytes, r: Rune) {
    t == EncodeRune(r) && !IsEscapeStart(r)
  }

  predicate SpellsByte(t: Bytes, b: Byte) {
    |t| == 3 && t[0] == PERCENT && AllHex(t[1..]) && Value(t[1..], 16) == b
  }

  /** One escape for each byte. */
  predicate PercentText(t: Bytes, bs: Bytes) {
    if bs == [] then t == []
    else |t| >= 3 && PercentText(t[..|t| - 3], bs[..|bs| - 1]) && SpellsByte(t[|t| - 3..], bs[|bs| - 1])
  }

  predicate UnitText(t: Bytes, v: nat) {
    |t| == 6 && t[0] == BACKSLASH && t[1] == LOWER_U && AllHex(t[2..]) && Value(t[2..], 16) == v
  }

  predicate SpellsJsonU(t: Bytes, r: Rune) {
    if r < 0x10000 then UnitText(t, r)
    else
      && r <= MAX_RUNE && |t| == 12
      && UnitText(t[..6], 0xD800 + (r - 0x10000) / 1024)
      && UnitText(t[6..], 0xDC00 + (r - 0x10000) % 1024)
  }

  predicate SpellsJsonShort(t: Bytes, r: Rune) {
    |t| == 2 && t[0] == BACKSLASH && JsonShortRune(t[1]) == r
  }

  predicate SpellsHexEscape(t: Bytes, r: Rune) {
    |t| == 4 && t[0] == BACKSLASH && t[1] == LOWER_X && AllHex(t[2..]) && Value(t[2..], 16) == r
  }

  predicate ReferencePrefix(t: Bytes, hex: bool) {
    && |t| > DigitsStart(hex) && t[0] == AMPERSAND && t[1] == HASH
    && (hex ==> t[2] == LOWER_X || t[2] == UPPER_X)
  }

  /** Between one and seven decimal, or one and six hex digits, closed by a semicolon. */
  predicate SpellsNumerically(t: Bytes, r: Rune, hex: bool) {
    && ReferencePrefix(t, hex) && 0 < |t| - 1 - DigitsStart(hex) <= MaxDigits(hex) && t[|t| - 1] == SEMICOLON
    && var digits := t[DigitsStart(hex)..|t| - 1];
      AllDigits(digits, hex) && Value(digits, Base(hex)) == r
  }

  predicate SpellsByName(t: Bytes, r: Rune) {
    |t| >= 2 && t[0] == AMPERSAND && t[|t| - 1] == SEMICOLON && NamedRune(t[1..|t| - 1]) == r
  }

  /** t is a spelling of the character r. */
  predicate Spells(t: Bytes, r: Rune) {
    || SpellsLiterally(t, r)
    || PercentText(t, EncodeRune(r))
    || SpellsJsonU(t, r)
    || SpellsJsonShort(t, r)
    || SpellsHexEscape(t, r)
    || SpellsNumerically(t, r, false)
    || SpellsNumerically(t, r, true)
    || SpellsByName(t, r)
  }

  // ---- the tables behind the spellings

  function Ascii(s: string): Bytes
    requires forall k :: 0 <= k < |s| ==> s[k] as int < 0x80
  {
    seq(|s|, k requires 0 <= k < |s| => s[k] as int)
  }

  lemma SignsAre()
    ensures PERCENT == '%' as int && BACKSLASH == '\\' as int && AMPERSAND == '&' as int && HASH == '#' as int
    ensures SEMICOLON == ';' as int && LOWER_U == 'u' as int && LOWER_X == 'x' as int && UPPER_X == 'X' as int
  {
  }

  /** b is one of the hex digits, in either case, and v its value. */
  predicate HexDigitOf(b: Byte, v: nat) {
    || ('0' as int <= b <= '9' as int && v == b - '0' as int)
    || ('a' as int <= b <= 'f' as int && v == 10 + b - 'a' as int)
    || ('A' as int <= b <= 'F' as int && v == 10 + b - 'A' as int)
  }

  lemma DigitsAre(b: Byte, v: nat)
    ensures IsHexDigit(b) && HexValue(b) == v <==> HexDigitOf(b, v)
    ensures IsDigit(b, true) && HexValue(b) == v <==> HexDigitOf(b, v)
    ensures IsDigit(b, false) && HexValue(b) == v <==> HexDigitOf(b, v) && v < 10
  {
  }

  /** The short escapes of JSON strings (section 7 of RFC 8259): the key behind the backslash, and the character. */
  predicate ShortEscape(b: Byte, r: Rune) {
    || (b == '"' as int && r == '"' as int)
    || (b == '\\' as int && r == '\\' as int)
    || (b == '/' as int && r == '/' as int)
    || (b == 'b' as int && r == 8)
    || (b == 'f' as int && r == 12)
    || (b == 'n' as int && r == 10)
    || (b == 'r' as int && r == 13)
    || (b == 't' as int && r == 9)
  }

  lemma ShortEscapesAre(t: Bytes, r: Rune)
    ensures SpellsJsonShort(t, r) <==> |t| == 2 && t[0] == '\\' as int && ShortEscape(t[1], r)
  {
  }

  /** The references by name that HTML and XML share. */
  predicate NamedReference(name: Bytes, r: Rune) {
    || (name == Ascii("amp") && r == '&' as int)
    || (name == Ascii("lt") && r == '<' as int)
    || (name == Ascii("gt") && r == '>' as int)
    || (name == Ascii("quot") && r == '"' as int)
    || (name == Ascii("apos") && r == '\'' as int)
  }

  lemma NamesAre(t: Bytes, r: Rune)
    ensures SpellsByName(t, r) <==>
              |t| >= 2 && t[0] == '&' as int && t[|t| - 1] == ';' as int && NamedReference(t[1..|t| - 1], r)
  {
    assert Ascii("amp") == AMP && Ascii("lt") == LT && Ascii("gt") == GT && Ascii("quot") == QUOT;
    assert Ascii("apos") == APOS;
  }

  /** &#, up to seven decimal digits and a semicolon. */
  lemma DecimalsAre(digits: Bytes, r: Rune)
    requires AllHex(digits) && digits != []
    ensures SpellsNumerically([0x26, 0x23] + digits + [0x3B], r, false) <==>
              |digits| <= 7 && AllDigits(digits, false) && Value(digits, 10) == r
  {
    hide Value, AllDigits;
    var t := [0x26, 0x23] + digits + [0x3B];
    assert t[2..|t| - 1] == digits;
  }

  /** &#, an x in either case, up to six hex digits and a semicolon. */
  lemma HexNumbersAre(x: Byte, digits: Bytes, r: Rune)
    requires AllHex(digits) && digits != []
    ensures SpellsNumerically([0x26, 0x23, x] + digits + [0x3B], r, true) <==>
              (x == 'x' as int || x == 'X' as int) && |digits| <= 6 && Value(digits, 16) == r
  {
    hide Value;
    var t := [0x26, 0x23, x] + digits + [0x3B];
    assert t[3..|t| - 1] == digits;
  }

  // ---- the tokenizer reads exactly the spellings

  /** A run of hex digits is read to its value. */
  lemma {:induction false} HexRunValue(d: Bytes, n: nat)
    ensures HexRun(d, n).Hex? <==> n <= |d| && AllHex(d[..n])
    ensures HexRun(d, n).Hex? ==> HexRun(d, n).value == Value(d[..n], 16)
  {
    if n > 0 {
      HexRunValue(d, n - 1);
      if n <= |d| {
        assert d[..n][..n - 1] == d[..n - 1];
        assert AllHex(d[..n]) <==> AllHex(d[..n - 1]) && IsHexDigit(d[..n][n - 1]);
      }
    }
  }

  lemma {:induction false} PercentTextLength(t: Bytes, bs: Bytes)
    requires PercentText(t, bs)
    ensures |t| == 3 * |bs|
  {
    if bs != [] {
      PercentTextLength(t[..|t| - 3], bs[..|bs| - 1]);
    }
  }

  /** An escape at position at is read as one byte. */
  lemma HexPair(d: Bytes, at: nat)
    requires at + 3 <= |d| && d[at] == PERCENT
    ensures var h := HexRun(d[at + 1..], 2);
            && (h.Hex? <==> AllHex(d[at..at + 3][1..]))
            && (h.Hex? ==> h.value == Value(d[at..at + 3][1..], 16))
  {
    HexRunValue(d[at + 1..], 2);
    assert d[at + 1..][..2] == d[at..at + 3][1..];
  }

  lemma PercentRunZero(d: Bytes)
    ensures PercentRun(d, 0) == PercentBytes([], NoCase)
  {
  }

  /** One more escape, one more byte. */
  lemma PercentRunStep(d: Bytes, n: nat, bs: Bytes, b: Byte)
    requires PercentRun(d, n).PercentBytes? && PercentRun(d, n).bytes == bs
    requires 3 * n + 3 <= |d| && SpellsByte(d[3 * n..3 * n + 3], b)
    ensures PercentRun(d, n + 1).PercentBytes? && PercentRun(d, n + 1).bytes == bs + [b]
  {
    hide HexRun, Value, AllHex;
    HexPair(d, 3 * n);
  }

  /** Escapes that spell bs are read as bs. */
  lemma {:induction false} PercentRunComplete(d: Bytes, bs: Bytes)
    requires 3 * |bs| <= |d| && PercentText(d[..3 * |bs|], bs)
    ensures PercentRun(d, |bs|).PercentBytes? && PercentRun(d, |bs|).bytes == bs
  {
    hide PercentRun, SpellsByte;
    if bs == [] {
      PercentRunZero(d);
    } else {
      var n, t := |bs| - 1, d[..3 * |bs|];
      assert t[..|t| - 3] == d[..3 * n] && t[|t| - 3..] == d[3 * n..3 * n + 3];
      PercentRunComplete(d, bs[..n]);
      PercentRunStep(d, n, bs[..n], bs[n]);
      assert bs == bs[..n] + [bs[n]];
    }
  }

  /** Another byte was read from another escape. */
  lemma PercentRunUnstep(d: Bytes, n: nat)
    requires PercentRun(d, n + 1).PercentBytes?
    ensures PercentRun(d, n).PercentBytes? && 3 * n + 3 <= |d|
    ensures var bs := PercentRun(d, n + 1).bytes;
            PercentRun(d, n).bytes == bs[..n] && SpellsByte(d[3 * n..3 * n + 3], bs[n])
  {
    hide HexRun, Value, AllHex;
    HexPair(d, 3 * n);
  }

  /** What was read as bytes is escapes that spell them. */
  lemma {:induction false} PercentRunSound(d: Bytes, n: nat)
    requires PercentRun(d, n).PercentBytes?
    ensures PercentText(d[..3 * n], PercentRun(d, n).bytes)
  {
    hide PercentRun, SpellsByte;
    if n == 0 {
      PercentRunZero(d);
    } else {
      PercentRunUnstep(d, n - 1);
      PercentRunSound(d, n - 1);
      var t := d[..3 * n];
      assert t[..|t| - 3] == d[..3 * (n - 1)] && t[|t| - 3..] == d[3 * (n - 1)..3 * (n - 1) + 3];
    }
  }

  /** The encoding of a scalar announces its own length. */
  lemma EncodingAnnounced(r: Rune)
    requires IsScalar(r)
    ensures PercentNeed(EncodeRune(r)[0]) == |EncodeRune(r)|
    ensures DecodeRune(EncodeRune(r)) == (r, |EncodeRune(r)|) && !IsInvalid(DecodeRune(EncodeRune(r)))
  {
    DecodeEncode(r, []);
    assert EncodeRune(r) + [] == EncodeRune(r);
  }

  lemma PercentComplete(d: Bytes, r: Rune)
    requires IsScalar(r) && 3 * |EncodeRune(r)| <= |d| && PercentText(d[..3 * |EncodeRune(r)|], EncodeRune(r))
    ensures PercentEscape(d).Escape? && PercentEscape(d).r == r && PercentEscape(d).w == 3 * |EncodeRune(r)|
    ensures d[0] == PERCENT
  {
    hide EncodeRune, DecodeRune, PercentText, HexRun, PercentNeed;
    var bs := EncodeRune(r);
    EncodingAnnounced(r);
    PercentRunComplete(d, bs);
    PercentRunPrefix(d, 1, |bs|);
    PercentRunStartsWithPercent(d);
  }

  lemma PercentRunStartsWithPercent(d: Bytes)
    requires PercentRun(d, 1).PercentBytes?
    ensures d[0] == PERCENT
  {
    PercentRunZero(d);
  }

  /** A valid decoding uses all the bytes that the first one announced. */
  lemma AnnouncedIsUsed(bs: Bytes)
    requires bs != [] && |bs| == PercentNeed(bs[0]) && !IsInvalid(DecodeRune(bs))
    ensures DecodeRune(bs).1 == |bs| && EncodeRune(DecodeRune(bs).0) == bs
  {
    EncodeDecode(bs);
    assert bs[..|bs|] == bs;
  }

  lemma PercentSound(d: Bytes)
    requires PercentEscape(d).Escape? && IsScalar(PercentEscape(d).r)
    ensures PercentText(d[..PercentEscape(d).w], EncodeRune(PercentEscape(d).r))
  {
    hide DecodeRune, PercentText, PercentNeed;
    var first := PercentRun(d, 1).bytes;
    var need := PercentNeed(first[0]);
    PercentRunPrefix(d, 1, need);
    if PercentRun(d, need).PercentBytes? && !IsInvalid(DecodeRune(PercentRun(d, need).bytes)) {
      PercentRunSound(d, need);
      AnnouncedIsUsed(PercentRun(d, need).bytes);
    } else {
      PercentRunSound(d, 1);
      assert first == [first[0]];
    }
  }

  lemma UnitRead(d: Bytes, at: nat, v: nat)
    requires at + 6 <= |d|
    ensures UnitText(d[at..at + 6], v) <==>
              d[at] == BACKSLASH && d[at + 1] == LOWER_U && HexRun(d[at + 2..], 4).Hex? &&
                HexRun(d[at + 2..], 4).value == v
  {
    HexRunValue(d[at + 2..], 4);
    assert d[at + 2..][..4] == d[at..at + 6][2..];
  }

  lemma HexEscapeRead(d: Bytes, v: Rune)
    requires 4 <= |d|
    ensures SpellsHexEscape(d[..4], v) <==>
              d[0] == BACKSLASH && d[1] == LOWER_X && HexRun(d[2..], 2).Hex? && HexRun(d[2..], 2).value == v
  {
    HexRunValue(d[2..], 2);
    assert d[2..][..2] == d[..4][2..];
  }

  predicate SpellsWithBackslash(t: Bytes, r: Rune) {
    SpellsJsonU(t, r) || SpellsJsonShort(t, r) || SpellsHexEscape(t, r)
  }

  lemma BackslashComplete(d: Bytes, w: nat, r: Rune)
    requires w <= |d| && IsScalar(r) && SpellsWithBackslash(d[..w], r)
    ensures d[0] == BACKSLASH
    ensures BackslashEscape(d).Escape? && BackslashEscape(d).r == r && BackslashEscape(d).w == w
  {
    hide HexRun, UnitText, SpellsHexEscape;
    if SpellsHexEscape(d[..w], r) {
      HexEscapeWidth(d[..w], r);
      HexEscapeRead(d, r);
    } else if SpellsJsonU(d[..w], r) {
      if r < 0x10000 {
        UnitWidth(d[..w], r);
        UnitRead(d, 0, r);
      } else {
        assert d[..w][..6] == d[0..6] && d[..w][6..] == d[6..12];
        UnitRead(d, 0, 0xD800 + (r - 0x10000) / 1024);
        UnitRead(d, 6, 0xDC00 + (r - 0x10000) % 1024);
        assert d[6 + 2..] == d[8..] && d[0 + 2..] == d[2..];
      }
    }
  }

  lemma UnitWidth(t: Bytes, v: nat)
    requires UnitText(t, v)
    ensures |t| == 6
  {
  }

  lemma HexEscapeWidth(t: Bytes, r: Rune)
    requires SpellsHexEscape(t, r)
    ensures |t| == 4
  {
  }

  lemma BackslashSound(d: Bytes)
    requires d != [] && d[0] == BACKSLASH && BackslashEscape(d).Escape? && IsScalar(BackslashEscape(d).r)
    ensures SpellsWithBackslash(d[..BackslashEscape(d).w], BackslashEscape(d).r)
  {
    hide HexRun, UnitText, SpellsHexEscape;
    var e := BackslashEscape(d);
    if d[1] == LOWER_X {
      HexEscapeRead(d, e.r);
    } else if d[1] == LOWER_U {
      UnitRead(d, 0, HexRun(d[2..], 4).value);
      if e.w == 12 {
        assert d[..12][..6] == d[0..6] && d[..12][6..] == d[6..12];
        UnitRead(d, 6, HexRun(d[8..], 4).value);
      }
    }
  }

  lemma ValueSnoc(d: Bytes, s: nat, i: nat, base: nat)
    requires s <= i < |d| && AllHex(d[s..i]) && IsHexDigit(d[i])
    ensures AllHex(d[s..i + 1]) && Value(d[s..i + 1], base) == base * Value(d[s..i], base) + HexValue(d[i])
  {
    assert d[s..i + 1][..i - s] == d[s..i];
  }

  lemma DigitsSnoc(d: Bytes, s: nat, i: nat, hex: bool)
    requires s <= i < |d| && AllDigits(d[s..i], hex) && IsDigit(d[i], hex)
    ensures AllDigits(d[s..i + 1], hex)
  {
    assert d[s..i + 1] == d[s..i] + [d[i]];
  }

  lemma DigitIsHex(b: Byte, hex: bool)
    requires IsDigit(b, hex)
    ensures IsHexDigit(b) && b != SEMICOLON
  {
  }

  lemma DigitsAreHex(d: Bytes, hex: bool)
    requires AllDigits(d, hex)
    ensures AllHex(d)
  {
  }

  /** Digits up to a semicolon at position e are read to their value. */
  lemma {:induction false} NumericTo(d: Bytes, hex: bool, i: nat, e: nat, c: HexCase)
    requires DigitsStart(hex) <= i <= e < |d| && e - DigitsStart(hex) <= MaxDigits(hex)
    requires AllDigits(d[DigitsStart(hex)..e], hex) && d[e] == SEMICOLON
    requires DigitsStart(hex) < e && Value(d[DigitsStart(hex)..e], Base(hex)) <= MAX_RUNE
    requires AllHex(d[DigitsStart(hex)..i])
    ensures var x := NumericEscape(d, hex, i, Value(d[DigitsStart(hex)..i], Base(hex)), c);
            x.Escape? && x.r == Value(d[DigitsStart(hex)..e], Base(hex)) && x.w == e + 1
    decreases e - i
  {
    hide Value, AllHex, IsDigit;
    if i < e {
      var s := DigitsStart(hex);
      assert d[s..e][i - s] == d[i];
      DigitIsHex(d[i], hex);
      ValueSnoc(d, s, i, Base(hex));
      NumericTo(d, hex, i + 1, e, FirstCase(c, HexCaseOf(d[i])));
    }
  }

  /** What was read as a number is digits up to a semicolon. */
  lemma {:induction false} NumericFrom(d: Bytes, hex: bool, i: nat, c: HexCase)
    requires DigitsStart(hex) <= i <= |d| && i - DigitsStart(hex) <= MaxDigits(hex)
    requires AllDigits(d[DigitsStart(hex)..i], hex)
    requires NumericEscape(d, hex, i, Value(d[DigitsStart(hex)..i], Base(hex)), c).Escape?
    ensures var x := NumericEscape(d, hex, i, Value(d[DigitsStart(hex)..i], Base(hex)), c);
            && DigitsStart(hex) < x.w - 1 && x.w - 1 - DigitsStart(hex) <= MaxDigits(hex) && d[x.w - 1] == SEMICOLON
            && AllDigits(d[DigitsStart(hex)..x.w - 1], hex) && Value(d[DigitsStart(hex)..x.w - 1], Base(hex)) == x.r
    decreases |d| - i
  {
    hide Value, AllHex, IsDigit;
    if d[i] != SEMICOLON {
      var s := DigitsStart(hex);
      DigitIsHex(d[i], hex);
      DigitsAreHex(d[s..i], hex);
      ValueSnoc(d, s, i, Base(hex));
      DigitsSnoc(d, s, i, hex);
      NumericFrom(d, hex, i + 1, FirstCase(c, HexCaseOf(d[i])));
    }
  }

  /** A name up to a semicolon at position e is looked up. */
  lemma {:induction false} NamedTo(d: Bytes, i: nat, e: nat)
    requires 1 <= i <= e < |d| && e <= 5 && d[e] == SEMICOLON && NamedRune(d[1..e]) >= 0
    requires forall j :: 1 <= j < e ==> IsLowerLetter(d[j])
    ensures NamedEscape(d, i) == Escape(NamedRune(d[1..e]), e + 1, Spelling(HtmlNamed, NoCase))
    decreases e - i
  {
    if i < e {
      NamedTo(d, i + 1, e);
    }
  }

  lemma {:induction false} NamedFrom(d: Bytes, i: nat)
    requires 1 <= i <= |d| && i <= 6 && NamedEscape(d, i).Escape?
    ensures var x := NamedEscape(d, i); d[x.w - 1] == SEMICOLON && NamedRune(d[1..x.w - 1]) == x.r
    decreases 6 - i
  {
    if d[i] != SEMICOLON {
      NamedFrom(d, i + 1);
    }
  }

  predicate SpellsWithAmpersand(t: Bytes, r: Rune) {
    SpellsNumerically(t, r, false) || SpellsNumerically(t, r, true) || SpellsByName(t, r)
  }

  lemma NumericComplete(d: Bytes, w: nat, r: Rune, hex: bool)
    requires w <= |d| && IsScalar(r) && SpellsNumerically(d[..w], r, hex)
    ensures d[0] == AMPERSAND
    ensures ReferenceEscape(d).Escape? && ReferenceEscape(d).r == r && ReferenceEscape(d).w == w
  {
    hide Value, NumericEscape;
    var s := DigitsStart(hex);
    assert d[..w][s..w - 1] == d[s..w - 1];
    assert hex <==> |d| > 2 && (d[2] == LOWER_X || d[2] == UPPER_X) by {
      if !hex {
        assert IsDigit(d[..w][s..w - 1][0], false);
      }
    }
    assert d[s..s] == [];
    ValueOfNothing(Base(hex));
    NumericTo(d, hex, s, w - 1, NoCase);
  }

  lemma ValueOfNothing(base: nat)
    ensures Value([], base) == 0
  {
  }

  lemma NameShape(name: Bytes)
    requires NamedRune(name) >= 0
    ensures 1 <= |name| <= 4 && forall j :: 0 <= j < |name| ==> IsLowerLetter(name[j])
  {
  }

  lemma NamedComplete(d: Bytes, w: nat, r: Rune)
    requires w <= |d| && SpellsByName(d[..w], r)
    ensures d[0] == AMPERSAND
    ensures ReferenceEscape(d).Escape? && ReferenceEscape(d).r == r && ReferenceEscape(d).w == w
  {
    hide NamedEscape, NamedRune;
    assert d[..w][1..w - 1] == d[1..w - 1];
    NameShape(d[1..w - 1]);
    assert forall j :: 1 <= j < w - 1 ==> d[j] == d[1..w - 1][j - 1];
    assert d[1] == d[1..w - 1][0];
    NamedTo(d, 1, w - 1);
  }

  lemma ReferenceSound(d: Bytes)
    requires d != [] && d[0] == AMPERSAND && ReferenceEscape(d).Escape?
    ensures SpellsWithAmpersand(d[..ReferenceEscape(d).w], ReferenceEscape(d).r)
  {
    hide NumericEscape, NamedEscape, Value;
    var x := ReferenceEscape(d);
    if d[1] != HASH {
      NamedFrom(d, 1);
      assert d[..x.w][1..x.w - 1] == d[1..x.w - 1];
    } else {
      var hex := |d| > 2 && (d[2] == LOWER_X || d[2] == UPPER_X);
      var s := DigitsStart(hex);
      assert d[s..s] == [];
      ValueOfNothing(Base(hex));
      NumericFrom(d, hex, s, NoCase);
      assert d[..x.w][s..x.w - 1] == d[s..x.w - 1];
      assert SpellsNumerically(d[..x.w], x.r, hex);
    }
  }

  /** The tokenizer reads every spelling of a character as that character, and stops exactly at its end. */
  lemma TokenComplete(d: Bytes, w: nat, r: Rune, final: bool)
    requires w <= |d| && IsScalar(r) && Spells(d[..w], r)
    ensures d != [] && w > 0
    ensures var t := ReadToken(d, true, final); t.Token? && t.r == r && t.w == w
  {
    hide PercentText, SpellsJsonU, SpellsJsonShort, SpellsHexEscape, SpellsNumerically, SpellsByName, PercentEscape,
      BackslashEscape, ReferenceEscape, EncodeRune, DecodeRune;
    if SpellsWithBackslash(d[..w], r) {
      BackslashComplete(d, w, r);
    } else if SpellsNumerically(d[..w], r, false) {
      NumericComplete(d, w, r, false);
    } else if SpellsNumerically(d[..w], r, true) {
      NumericComplete(d, w, r, true);
    } else if SpellsByName(d[..w], r) {
      NamedComplete(d, w, r);
    } else if PercentText(d[..w], EncodeRune(r)) {
      PercentTextLength(d[..w], EncodeRune(r));
      PercentComplete(d, r);
    } else {
      assert d == EncodeRune(r) + d[w..];
      DecodeEncode(r, d[w..]);
      EncodeStart(r);
    }
  }

  lemma EncodeStart(r: Rune)
    requires IsScalar(r)
    ensures IsEscapeStart(EncodeRune(r)[0]) ==> EncodeRune(r)[0] == r
  {
  }

  /** What the tokenizer reads as a character is a spelling of it, or a lone byte that starts no escape here. */
  lemma TokenSound(d: Bytes, final: bool)
    requires d != [] && ReadToken(d, true, final).Token? && IsScalar(ReadToken(d, true, final).r)
    ensures var t := ReadToken(d, true, final);
            Spells(d[..t.w], t.r) || (t == Token(d[0], 1, PLAIN) && IsEscapeStart(d[0]))
  {
    hide PercentText, SpellsJsonU, SpellsJsonShort, SpellsHexEscape, SpellsNumerically, SpellsByName, PercentEscape,
      BackslashEscape, ReferenceEscape, DecodeRune;
    var t := ReadToken(d, true, final);
    if t.sp.form == Literal {
      EncodeDecode(d);
    } else if d[0] == PERCENT {
      PercentSound(d);
    } else if d[0] == BACKSLASH {
      BackslashSound(d);
    } else {
      ReferenceSound(d);
    }
  }
}
