/**
  * Writing a replacement in the spelling a match used. Reading the written text back gives the replacement, character
  * by character and form by form, whatever text follows it.
  */
module Printer {
  import opened Utf8
  import opened Wrappers
  import opened Tokens
  import opened Matcher
  import opened Grammar

  // ---- spell

  function HexDigit(v: nat, lower: bool): (b: Byte)
    requires v < 16
    ensures IsHexDigit(b) && HexValue(b) == v
    ensures v < 10 ==> IsDecimal(b)
  {
    if v < 10 then 0x30 + v else if lower then 0x61 + v - 10 else 0x41 + v - 10
  }

  function HexByte(v: nat, lower: bool): Bytes
    requires v < 256
  {
    [HexDigit(v / 16, lower), HexDigit(v % 16, lower)]
  }

  function PercentBytesOf(bs: Bytes, lower: bool): Bytes {
    if bs == [] then []
    else PercentBytesOf(bs[..|bs| - 1], lower) + [PERCENT] + HexByte(bs[|bs| - 1], lower)
  }

  function Unit(v: nat, lower: bool): Bytes
    requires v < 0x10000
  {
    [BACKSLASH, LOWER_U] + HexByte(v / 256, lower) + HexByte(v % 256, lower)
  }

  /** The digits of v without leading zeros. */
  function Digits(v: nat, hex: bool, lower: bool): (d: Bytes)
    ensures d != []
  {
    if v < Base(hex) then [HexDigit(v, lower)] else Digits(v / Base(hex), hex, lower) + [HexDigit(v % Base(hex), lower)]
  }

  /** The key of the short JSON escape for r, or -1. */
  function JsonShortKey(r: Rune): (k: int)
    ensures -1 <= k < 0x80
    ensures 0 <= k ==> JsonShortRune(k) == r
    ensures k < 0 ==> forall b :: 0 <= b < 256 ==> JsonShortRune(b) != r
  {
    if r == 0x22 || r == BACKSLASH || r == 0x2F then r
    else if r == 0x08 then 0x62
    else if r == 0x0C then 0x66
    else if r == 0x0A then 0x6E
    else if r == 0x0D then 0x72
    else if r == 0x09 then 0x74
    else -1
  }

  /** The name of the character reference for r, or nothing. */
  function ReferenceName(r: Rune): (name: Bytes)
    ensures name != [] ==> NamedRune(name) == r
  {
    if r == AMPERSAND then AMP
    else if r == 0x3C then LT
    else if r == 0x3E then GT
    else if r == 0x22 then QUOT
    else if r == 0x27 then APOS
    else []
  }

  /** Whether form f can spell r at all. */
  predicate CanSpell(r: Rune, f: Form) {
    match f
    case Literal => false
    case Percent => true
    case JsonU => r <= MAX_RUNE
    case JsonShort => JsonShortKey(r) >= 0
    case HexEscape => r < 0x80
    case HtmlDec => r <= MAX_RUNE
    case HtmlHex => r <= MAX_RUNE
    case HtmlNamed => ReferenceName(r) != []
  }

  /**
    * Percent escapes, unicode escapes and numeric references spell every proper character, hex escapes the ASCII ones,
    * and the short escapes and names those in their tables.
    */
  lemma CanSpellMeans(r: Rune, f: Form)
    requires IsScalar(r)
    ensures CanSpell(r, f) <==>
            match f
            case Literal => false
            case JsonShort => exists b :: ShortEscape(b, r)
            case HexEscape => r < 128
            case HtmlNamed => exists name :: NamedReference(name, r)
            case _ => true
  {
    if f == JsonShort && JsonShortKey(r) >= 0 {
      ShortEscapesAre([BACKSLASH, JsonShortKey(r)], r);
      assert ShortEscape(JsonShortKey(r), r);
    }
    if f == JsonShort && exists b :: ShortEscape(b, r) {
      var b :| ShortEscape(b, r);
      ShortEscapesAre([BACKSLASH, b], r);
    }
    if f == HtmlNamed {
      NameTable(r);
    }
  }

  lemma NameTable(r: Rune)
    ensures ReferenceName(r) != [] <==> exists name :: NamedReference(name, r)
  {
    if r == '&' as int {
      assert NamedReference(Ascii("amp"), r);
    } else if r == '<' as int {
      assert NamedReference(Ascii("lt"), r);
    } else if r == '>' as int {
      assert NamedReference(Ascii("gt"), r);
    } else if r == '"' as int {
      assert NamedReference(Ascii("quot"), r);
    } else if r == '\'' as int {
      assert NamedReference(Ascii("apos"), r);
    }
  }

  /** Digits have no zero in front. */
  lemma {:induction false} DigitsAreShort(v: nat, hex: bool, lower: bool)
    ensures |Digits(v, hex, lower)| > 1 ==> Digits(v, hex, lower)[0] != '0' as int
    ensures v > 0 ==> Digits(v, hex, lower)[0] != '0' as int
  {
    if v >= Base(hex) {
      DigitsAreShort(v / Base(hex), hex, lower);
    }
  }

  /** spell: r in form f, or literally when f cannot spell it. */
  function Spell(r: Rune, f: Form, c: HexCase): Bytes {
    var lower := c == Lower;
    if !CanSpell(r, f) then EncodeRune(r)
    else
      match f
      case Literal => EncodeRune(r)
      case Percent => PercentBytesOf(EncodeRune(r), lower)
      case JsonU =>
        if r < 0x10000 then Unit(r, lower)
        else Unit(0xD800 + (r - 0x10000) / 1024, lower) + Unit(0xDC00 + (r - 0x10000) % 1024, lower)
      case JsonShort => [BACKSLASH, JsonShortKey(r)]
      case HexEscape => [BACKSLASH, LOWER_X] + HexByte(r, lower)
      case HtmlDec => [AMPERSAND, HASH] + Digits(r, false, true) + [SEMICOLON]
      case HtmlHex => [AMPERSAND, HASH, LOWER_X] + Digits(r, true, c != Upper) + [SEMICOLON]
      case HtmlNamed => [AMPERSAND] + ReferenceName(r) + [SEMICOLON]
  }

  // ---- what is written is a spelling

  lemma HexByteValue(v: nat, lower: bool)
    requires v < 256
    ensures AllHex(HexByte(v, lower)) && Value(HexByte(v, lower), 16) == v
  {
    var d := HexByte(v, lower);
    assert d[..1] == [d[0]] && d[..1][..0] == [];
    assert Value(d[..1], 16) == HexValue(d[0]);
  }

  lemma {:induction false} PercentBytesOfText(bs: Bytes, lower: bool)
    ensures PercentText(PercentBytesOf(bs, lower), bs)
  {
    hide HexByte, Value, AllHex;
    if bs != [] {
      var n := |bs| - 1;
      PercentBytesOfText(bs[..n], lower);
      HexByteValue(bs[n], lower);
      HexByteLength(bs[n], lower);
      var init, last := PercentBytesOf(bs[..n], lower), [PERCENT] + HexByte(bs[n], lower);
      var t := PercentBytesOf(bs, lower);
      assert t == init + last;
      assert t[..|t| - 3] == init && t[|t| - 3..] == last && last[1..] == HexByte(bs[n], lower);
    }
  }

  lemma HexByteLength(v: nat, lower: bool)
    requires v < 256
    ensures |HexByte(v, lower)| == 2
  {
  }

  lemma UnitIsUnit(v: nat, lower: bool)
    requires v < 0x10000
    ensures UnitText(Unit(v, lower), v)
  {
    var hi, lo := HexByte(v / 256, lower), HexByte(v % 256, lower);
    HexByteValue(v / 256, lower);
    var t := hi + lo;
    assert t[0..2] == hi && t[0..4] == t;
    ValueSnoc(t, 0, 2, 16);
    ValueSnoc(t, 0, 3, 16);
    assert Unit(v, lower)[2..] == t;
  }

  /** Digits denote their number, and there are few of them. */
  lemma {:induction false} DigitsValue(v: nat, hex: bool, lower: bool)
    ensures AllDigits(Digits(v, hex, lower), hex) && AllHex(Digits(v, hex, lower))
    ensures Value(Digits(v, hex, lower), Base(hex)) == v
  {
    var d, b := Digits(v, hex, lower), Base(hex);
    if v >= b {
      DigitsValue(v / b, hex, lower);
      assert d[..|d| - 1] == Digits(v / b, hex, lower);
    } else {
      assert d[..0] == [];
    }
  }

  function Power(hex: bool, n: nat): nat {
    if n == 0 then 1 else Base(hex) * Power(hex, n - 1)
  }

  lemma {:induction false} DigitsLength(v: nat, hex: bool, lower: bool, n: nat)
    requires 0 < n && v < Power(hex, n)
    ensures |Digits(v, hex, lower)| <= n
  {
    if v >= Base(hex) {
      assert n > 1 by { assert Power(hex, 1) == Base(hex) * Power(hex, 0); }
      DigitsLength(v / Base(hex), hex, lower, n - 1);
    }
  }

  lemma DigitsFit(v: nat, hex: bool, lower: bool)
    requires v <= MAX_RUNE
    ensures |Digits(v, hex, lower)| <= MaxDigits(hex)
  {
    assert Power(hex, MaxDigits(hex)) > MAX_RUNE by { Powers(); }
    DigitsLength(v, hex, lower, MaxDigits(hex));
  }

  lemma Powers()
    ensures Power(true, 6) == 0x1000000 && Power(false, 7) == 10000000
  {
    assert Power(true, 2) == 256;
    assert Power(true, 4) == 0x10000;
    assert Power(false, 2) == 100;
    assert Power(false, 4) == 10000;
    assert Power(false, 6) == 1000000;
  }

  lemma NumericSpells(r: Rune, hex: bool, lower: bool)
    requires r <= MAX_RUNE
    ensures var digits := Digits(r, hex, lower);
            SpellsNumerically((if hex then [AMPERSAND, HASH, LOWER_X] else [AMPERSAND, HASH]) + digits + [SEMICOLON],
              r, hex)
  {
    hide Digits, Value, AllHex;
    var digits := Digits(r, hex, lower);
    DigitsValue(r, hex, lower);
    DigitsFit(r, hex, lower);
    var t := (if hex then [AMPERSAND, HASH, LOWER_X] else [AMPERSAND, HASH]) + digits + [SEMICOLON];
    assert t[DigitsStart(hex)..|t| - 1] == digits;
  }

  /** A character written in a form that can spell it, or one that starts no escape, is spelled. */
  predicate Legible(r: Rune, f: Form) {
    IsScalar(r) && (CanSpell(r, f) || !IsEscapeStart(r))
  }

  lemma SpellSpells(r: Rune, f: Form, c: HexCase)
    requires Legible(r, f)
    ensures Spells(Spell(r, f, c), r)
  {
    hide EncodeRune, Digits, Unit, HexByte, PercentBytesOf, JsonShortKey, ReferenceName, PercentText, UnitText, Value,
      AllHex, SpellsNumerically;
    var t, lower := Spell(r, f, c), c == Lower;
    if CanSpell(r, f) {
      match f
      case Percent =>
        PercentBytesOfText(EncodeRune(r), lower);
      case JsonU =>
        if r < 0x10000 {
          UnitIsUnit(r, lower);
        } else {
          var hi, lo := 0xD800 + (r - 0x10000) / 1024, 0xDC00 + (r - 0x10000) % 1024;
          UnitIsUnit(hi, lower);
          UnitIsUnit(lo, lower);
          UnitWidth(Unit(hi, lower), hi);
          UnitWidth(Unit(lo, lower), lo);
          assert t[..6] == Unit(hi, lower) && t[6..] == Unit(lo, lower);
        }
      case JsonShort =>
        assert SpellsJsonShort(t, r);
      case HexEscape =>
        HexByteValue(r, lower);
        HexByteLength(r, lower);
        assert t[2..] == HexByte(r, lower);
      case HtmlDec =>
        NumericSpells(r, false, true);
      case HtmlHex =>
        NumericSpells(r, true, c != Upper);
      case HtmlNamed =>
        assert t[1..|t| - 1] == ReferenceName(r);
    }
  }

  // ---- reading back

  /** The form of an escape shows in its first bytes. */
  function FormAt(d: Bytes): Form
    requires |d| >= 2
  {
    if d[0] == PERCENT then Percent
    else if d[0] == BACKSLASH then (if d[1] == LOWER_U then JsonU else if d[1] == LOWER_X then HexEscape else JsonShort)
    else if d[1] != HASH then HtmlNamed
    else if |d| > 2 && (d[2] == LOWER_X || d[2] == UPPER_X) then HtmlHex
    else HtmlDec
  }

  lemma EscapeForm(d: Bytes)
    requires d != [] && EscapeAt(d).Escape?
    ensures EscapeAt(d).sp.form == FormAt(d)
  {
    hide HexRun, PercentEscape, NamedEscape, NumericEscape;
  }

  lemma FormAtExtends(a: Bytes, b: Bytes)
    requires |a| >= 3 || (|a| == 2 && a[0] == BACKSLASH)
    ensures FormAt(a + b) == FormAt(a)
  {
    assert forall i :: 0 <= i < |a| ==> (a + b)[i] == a[i];
  }

  /** The first bytes of a reference. */
  lemma ReferenceStart(r: Rune, f: Form, c: HexCase)
    requires CanSpell(r, f) && (f == HtmlDec || f == HtmlHex || f == HtmlNamed)
    ensures |Spell(r, f, c)| >= 3 && Spell(r, f, c)[0] == AMPERSAND && FormAt(Spell(r, f, c)) == f
  {
    hide HexDigit, ReferenceName, EncodeRune, Digits, HexByte, Unit;
    match f
    case HtmlDec =>
      DigitsValue(r, false, true);
      assert Spell(r, f, c)[2] == Digits(r, false, true)[0];
    case HtmlNamed =>
      NameShape(ReferenceName(r));
      assert Spell(r, f, c)[1] == ReferenceName(r)[0];
    case HtmlHex =>
  }

  lemma BackslashStart(r: Rune, f: Form, c: HexCase)
    requires CanSpell(r, f) && (f == JsonU || f == JsonShort || f == HexEscape)
    ensures |Spell(r, f, c)| >= 2 && Spell(r, f, c)[0] == BACKSLASH && FormAt(Spell(r, f, c)) == f
  {
    hide HexDigit, HexByte, EncodeRune, JsonShortKey, Digits, ReferenceName;
    ShortKeys(r);
  }

  lemma SpellShowsForm(r: Rune, f: Form, c: HexCase, rest: Bytes)
    requires CanSpell(r, f)
    ensures |Spell(r, f, c)| >= 2 && IsEscapeStart(Spell(r, f, c)[0])
    ensures FormAt(Spell(r, f, c) + rest) == f
  {
    hide Spell, FormAt;
    var s := Spell(r, f, c);
    if f == Percent {
      PercentStart(r, c);
    } else if f == JsonU || f == JsonShort || f == HexEscape {
      BackslashStart(r, f, c);
    } else {
      ReferenceStart(r, f, c);
    }
    FormAtExtends(s, rest);
  }

  lemma PercentStart(r: Rune, c: HexCase)
    ensures |Spell(r, Percent, c)| >= 3 && Spell(r, Percent, c)[0] == PERCENT
    ensures FormAt(Spell(r, Percent, c)) == Percent
  {
    hide EncodeRune, PercentBytesOf;
    PercentBytesOfStart(EncodeRune(r), c == Lower);
  }

  lemma ShortKeys(r: Rune)
    ensures JsonShortKey(r) != LOWER_U && JsonShortKey(r) != LOWER_X
  {
  }

  lemma {:induction false} PercentBytesOfStart(bs: Bytes, lower: bool)
    requires bs != []
    ensures |PercentBytesOf(bs, lower)| >= 3 && PercentBytesOf(bs, lower)[0] == PERCENT
  {
    hide HexDigit;
    HexByteLength(bs[|bs| - 1], lower);
    if |bs| > 1 {
      PercentBytesOfStart(bs[..|bs| - 1], lower);
    }
  }

  /** The form r ends up in when f is asked for. */
  function FormUsed(r: Rune, f: Form): Form {
    if CanSpell(r, f) then f else Literal
  }

  /** The tokenizer inverts the printer: it reads back the character, in the form it was written, whatever follows. */
  lemma ReadInvertsSpell(r: Rune, f: Form, c: HexCase, rest: Bytes, final: bool)
    requires Legible(r, f)
    ensures Spell(r, f, c) != []
    ensures var t := ReadToken(Spell(r, f, c) + rest, true, final);
            t.Token? && t.r == r && t.w == |Spell(r, f, c)| && t.sp.form == FormUsed(r, f)
  {
    hide Spells, ReadToken, Spell, CanSpell;
    var s := Spell(r, f, c);
    var d := s + rest;
    SpellSpells(r, f, c);
    assert d[..|s|] == s;
    TokenComplete(d, |s|, r, final);
    if CanSpell(r, f) {
      SpellShowsForm(r, f, c, rest);
      WideTokenIsEscape(d, final);
    } else {
      LiteralSpelling(r, f, c, rest, final);
    }
  }

  /** Read by itself, what is written for any character in any form is that character, an escape start included. */
  lemma ReadInvertsSpellAlone(r: Rune, f: Form, c: HexCase)
    requires IsScalar(r)
    ensures Spell(r, f, c) != []
    ensures var t := ReadToken(Spell(r, f, c), true, true);
            t.Token? && t.r == r && t.w == |Spell(r, f, c)| && t.sp.form == FormUsed(r, f)
  {
    hide CanSpell;
    if Legible(r, f) {
      ReadInvertsSpell(r, f, c, [], true);
      assert Spell(r, f, c) + [] == Spell(r, f, c);
    } else {
      assert Spell(r, f, c) == [r];
    }
  }

  /** A spelling of some proper character starts at the start of d, and is longer than one byte. */
  ghost predicate SpellingStarts(d: Bytes) {
    exists w, x :: 2 <= w <= |d| && IsScalar(x) && Spells(d[..w], x)
  }

  /**
    * An escape start that its form cannot spell is written as it is. It is read back exactly when no spelling starts
    * there, together with what follows, and no escape of a bare byte or half a surrogate pair either.
    */
  lemma EscapeStartReadsBack(r: Rune, f: Form, c: HexCase, rest: Bytes)
    requires IsEscapeStart(r) && !CanSpell(r, f)
    ensures Spell(r, f, c) == [r]
    ensures var t := ReadToken([r] + rest, true, true);
            t == Token(r, 1, PLAIN) <==> IsScalar(t.r) && !SpellingStarts([r] + rest)
  {
    hide CanSpell, Spells, ReadToken;
    var d := [r] + rest;
    var t := ReadToken(d, true, true);
    if SpellingStarts(d) {
      var w, x :| 2 <= w <= |d| && IsScalar(x) && Spells(d[..w], x);
      TokenComplete(d, w, x, true);
    } else if IsScalar(t.r) {
      TokenSound(d, true);
      OneByteToken(d);
    }
  }

  lemma OneByteToken(d: Bytes)
    requires d != [] && IsEscapeStart(d[0]) && ReadToken(d, true, true).w == 1
    ensures ReadToken(d, true, true) == Token(d[0], 1, PLAIN)
  {
    hide EscapeAt;
  }

  lemma WideTokenIsEscape(d: Bytes, final: bool)
    requires d != [] && IsEscapeStart(d[0]) && ReadToken(d, true, final).Token? && ReadToken(d, true, final).w >= 2
    ensures |d| >= 2 && ReadToken(d, true, final).sp.form == FormAt(d)
  {
    hide FormAt;
    if EscapeAt(d).Escape? {
      EscapeForm(d);
    }
  }

  lemma LiteralSpelling(r: Rune, f: Form, c: HexCase, rest: Bytes, final: bool)
    requires IsScalar(r) && !CanSpell(r, f) && !IsEscapeStart(r)
    ensures Spell(r, f, c) != [] && ReadToken(Spell(r, f, c) + rest, true, final).Token?
    ensures ReadToken(Spell(r, f, c) + rest, true, final).sp.form == Literal
  {
    DecodeEncode(r, rest);
    EncodeStart(r);
  }

  // ---- encodeRepl

  /** Letters and digits, the unreserved punctuation, everything else. */
  function Class(r: Rune): (c: nat)
    ensures c < 3
  {
    if r < 0x80 && (IsDecimal(r) || 0x41 <= r <= 0x5A || 0x61 <= r <= 0x7A) then 0
    else if r == 0x2D || r == 0x2E || r == 0x5F || r == 0x7E then 1
    else 2
  }

  function FirstOf(a: Option<Spelling>, found: bool, sp: Spelling): Option<Spelling> {
    if a.Some? then a else if found then Some(sp) else None
  }

  /** The spelling of the first occurrence of r. */
  function ByRune(rs: seq<Rune>, sps: seq<Spelling>, r: Rune): Option<Spelling>
    requires |rs| == |sps|
  {
    if rs == [] then None
    else
      var k := |rs| - 1;
      FirstOf(ByRune(rs[..k], sps[..k], r), rs[k] == r, sps[k])
  }

  /** The spelling of the first character of class c. */
  function ByClass(rs: seq<Rune>, sps: seq<Spelling>, c: nat): Option<Spelling>
    requires |rs| == |sps|
  {
    if rs == [] then None
    else
      var k := |rs| - 1;
      FirstOf(ByClass(rs[..k], sps[..k], c), Class(rs[k]) == c, sps[k])
  }

  /** The first case seen in form f. */
  function CaseOf(sps: seq<Spelling>, f: Form): HexCase {
    if sps == [] then NoCase
    else
      var k := |sps| - 1;
      FirstCase(CaseOf(sps[..k], f), if sps[k].form == f then sps[k].hexCase else NoCase)
  }

  /**
    * A character of the match keeps its spelling; another takes that of the first of its class, of the first letter, or
    * of the first.
    */
  function SpellingFor(n: Needle, sps: seq<Spelling>, r: Rune): Spelling
    requires |n.runes| == |sps| > 0
  {
    match (ByRune(n.runes, sps, r), ByClass(n.runes, sps, Class(r)), ByClass(n.runes, sps, 0))
    case (Some(sp), _, _) => sp
    case (_, Some(sp), _) => sp
    case (_, _, Some(sp)) => sp
    case _ => sps[0]
  }

  /** k is the first position of r in rs. */
  predicate FirstRune(rs: seq<Rune>, r: Rune, k: nat) {
    k < |rs| && rs[k] == r && forall j :: 0 <= j < k ==> rs[j] != r
  }

  /** k is the first position of a character of class c in rs. */
  predicate FirstClass(rs: seq<Rune>, c: nat, k: nat) {
    k < |rs| && Class(rs[k]) == c && forall j :: 0 <= j < k ==> Class(rs[j]) != c
  }

  lemma {:induction false} ByRuneFinds(rs: seq<Rune>, sps: seq<Spelling>, r: Rune)
    requires |rs| == |sps|
    ensures ByRune(rs, sps, r).None? <==> r !in rs
    ensures forall k: nat :: FirstRune(rs, r, k) ==> ByRune(rs, sps, r) == Some(sps[k])
  {
    if rs != [] {
      var n := |rs| - 1;
      ByRuneFinds(rs[..n], sps[..n], r);
      assert rs == rs[..n] + [rs[n]];
      assert forall k: nat :: FirstRune(rs, r, k) && k < n ==> FirstRune(rs[..n], r, k);
    }
  }

  lemma {:induction false} ByClassFinds(rs: seq<Rune>, sps: seq<Spelling>, c: nat)
    requires |rs| == |sps|
    ensures ByClass(rs, sps, c).None? <==> forall j :: 0 <= j < |rs| ==> Class(rs[j]) != c
    ensures forall k: nat :: FirstClass(rs, c, k) ==> ByClass(rs, sps, c) == Some(sps[k])
  {
    if rs != [] {
      var n := |rs| - 1;
      ByClassFinds(rs[..n], sps[..n], c);
      assert forall k: nat :: FirstClass(rs, c, k) && k < n ==> FirstClass(rs[..n], c, k);
    }
  }

  predicate NoneOfClass(rs: seq<Rune>, c: nat) {
    forall j :: 0 <= j < |rs| ==> Class(rs[j]) != c
  }

  /**
    * A character of the match takes the spelling of its first occurrence; any other that of the first of its class,
    * or else of the first letter or digit, or else of the first character of all.
    */
  lemma SpellingTaken(n: Needle, sps: seq<Spelling>, r: Rune, k: nat)
    requires |n.runes| == |sps| > 0
    ensures FirstRune(n.runes, r, k) ==> SpellingFor(n, sps, r) == sps[k]
    ensures r !in n.runes && FirstClass(n.runes, Class(r), k) ==> SpellingFor(n, sps, r) == sps[k]
    ensures r !in n.runes && NoneOfClass(n.runes, Class(r)) && FirstClass(n.runes, 0, k) ==>
              SpellingFor(n, sps, r) == sps[k]
    ensures r !in n.runes && NoneOfClass(n.runes, Class(r)) && NoneOfClass(n.runes, 0) ==>
              SpellingFor(n, sps, r) == sps[0]
  {
    ByRuneFinds(n.runes, sps, r);
    ByClassFinds(n.runes, sps, Class(r));
    ByClassFinds(n.runes, sps, 0);
  }

  /** The character that stands for r: its capital when a fold needle matched capitals. */
  function Written(u: Unicode, n: Needle, sps: seq<Spelling>, r: Rune): Rune
    requires |n.runes| == |sps| > 0
  {
    if n.fold && CaseOf(sps, SpellingFor(n, sps, r).form) == Upper then ToUpper(u, r) else r
  }

  function WrittenText(u: Unicode, n: Needle, sps: seq<Spelling>, r: Rune): Bytes
    requires |n.runes| == |sps| > 0
  {
    var f := SpellingFor(n, sps, r).form;
    Spell(Written(u, n, sps, r), f, CaseOf(sps, f))
  }

  /** The text written for the characters rs of a replacement. */
  function Replacement(u: Unicode, n: Needle, sps: seq<Spelling>, rs: seq<Rune>): Bytes
    requires |n.runes| == |sps| > 0
  {
    if rs == [] then [] else Replacement(u, n, sps, rs[..|rs| - 1]) + WrittenText(u, n, sps, rs[|rs| - 1])
  }

  /** The first loop of encodeRepl: what the match says of each character, class and form. */
  method Tally(n: Needle, sps: seq<Spelling>)
    returns (byClass: seq<Option<Spelling>>, byRune: map<Rune, Spelling>, caseOf: map<Form, HexCase>)
    requires |n.runes| == |sps|
    ensures |byClass| == 3 && forall c :: 0 <= c < 3 ==> byClass[c] == ByClass(n.runes, sps, c)
    ensures forall r: Rune :: ByRune(n.runes, sps, r) == if r in byRune then Some(byRune[r]) else None
    ensures forall f :: CaseOf(sps, f) == if f in caseOf then caseOf[f] else NoCase
  {
    byClass, byRune, caseOf := [None, None, None], map[], map[];
    for k := 0 to |sps|
      invariant |byClass| == 3 && forall c :: 0 <= c < 3 ==> byClass[c] == ByClass(n.runes[..k], sps[..k], c)
      invariant forall r: Rune :: ByRune(n.runes[..k], sps[..k], r) == if r in byRune then Some(byRune[r]) else None
      invariant forall f :: CaseOf(sps[..k], f) == if f in caseOf then caseOf[f] else NoCase
    {
      var r, sp := n.runes[k], sps[k];
      assert n.runes[..k + 1][..k] == n.runes[..k] && sps[..k + 1][..k] == sps[..k];
      if r !in byRune {
        byRune := byRune[r := sp];
      }
      if byClass[Class(r)].None? {
        byClass := byClass[Class(r) := Some(sp)];
      }
      if !sp.hexCase.NoCase? && (sp.form !in caseOf || caseOf[sp.form].NoCase?) {
        caseOf := caseOf[sp.form := sp.hexCase];
      }
    }
    assert n.runes[..|sps|] == n.runes && sps[..|sps|] == sps;
  }

  lemma ReplacementOfNothing(u: Unicode, n: Needle, sps: seq<Spelling>)
    requires |n.runes| == |sps| > 0
    ensures Replacement(u, n, sps, []) == []
  {
  }

  lemma ReplacementStep(u: Unicode, n: Needle, sps: seq<Spelling>, rs: seq<Rune>, k: nat)
    requires |n.runes| == |sps| > 0 && k < |rs|
    ensures Replacement(u, n, sps, rs[..k + 1]) == Replacement(u, n, sps, rs[..k]) + WrittenText(u, n, sps, rs[k])
  {
    hide WrittenText;
    assert rs[..k + 1][..k] == rs[..k];
  }

  method EncodeReplacement(u: Unicode, dst: Bytes, n: Needle, sps: seq<Spelling>) returns (out: Bytes)
    requires |n.runes| == |sps| > 0
    ensures out == dst + Replacement(u, n, sps, n.repl)
  {
    hide Spell, ByRune, ByClass, CaseOf, Replacement, Class, ToUpper;
    var byClass, byRune, caseOf := Tally(n, sps);
    out := dst;
    assert n.repl[..0] == [];
    ReplacementOfNothing(u, n, sps);
    for k := 0 to |n.repl|
      invariant out == dst + Replacement(u, n, sps, n.repl[..k])
    {
      var r := n.repl[k];
      var sp := if r in byRune then byRune[r]
                else if byClass[Class(r)].Some? then byClass[Class(r)].value
                else if byClass[0].Some? then byClass[0].value
                else sps[0];
      var hexCase := if sp.form in caseOf then caseOf[sp.form] else NoCase;
      if n.fold && hexCase == Upper {
        r := ToUpper(u, r);
      }
      ReplacementStep(u, n, sps, n.repl, k);
      Assoc(dst, Replacement(u, n, sps, n.repl[..k]), Spell(r, sp.form, hexCase));
      out := out + Spell(r, sp.form, hexCase);
    }
    assert n.repl[..|n.repl|] == n.repl;
  }

  // ---- print and parse

  /** The characters of a text, read one after the other, and the form of each. */
  function ReadAll(d: Bytes): seq<(Rune, Form)> {
    if d == [] then []
    else var t := ReadToken(d, true, true); [(t.r, t.sp.form)] + ReadAll(d[t.w..])
  }

  /** Each character of a replacement, as written, with its form. */
  function Meant(u: Unicode, n: Needle, sps: seq<Spelling>, rs: seq<Rune>): seq<(Rune, Form)>
    requires |n.runes| == |sps| > 0
  {
    seq(|rs|, k requires 0 <= k < |rs| =>
      (Written(u, n, sps, rs[k]), FormUsed(Written(u, n, sps, rs[k]), SpellingFor(n, sps, rs[k]).form)))
  }

  predicate LegibleAll(u: Unicode, n: Needle, sps: seq<Spelling>, rs: seq<Rune>)
    requires |n.runes| == |sps| > 0
  {
    forall k :: 0 <= k < |rs| ==> Legible(Written(u, n, sps, rs[k]), SpellingFor(n, sps, rs[k]).form)
  }

  /** Reading a written replacement back gives its characters in their forms, and then whatever follows. */
  lemma {:induction false} ReadInvertsReplacement(u: Unicode, n: Needle, sps: seq<Spelling>, rs: seq<Rune>, rest: Bytes)
    requires |n.runes| == |sps| > 0 && LegibleAll(u, n, sps, rs)
    ensures ReadAll(Replacement(u, n, sps, rs) + rest) == Meant(u, n, sps, rs) + ReadAll(rest)
  {
    hide Spell, ReadAll, Legible, SpellingFor, Written, FormUsed, WrittenText;
    if rs == [] {
      assert Replacement(u, n, sps, rs) + rest == rest;
    } else {
      var k := |rs| - 1;
      var text, init := WrittenText(u, n, sps, rs[k]), Replacement(u, n, sps, rs[..k]);
      ReadInvertsReplacement(u, n, sps, rs[..k], text + rest);
      Assoc(init, text, rest);
      ReadInvertsWritten(u, n, sps, rs[k], rest);
      var last := Meant(u, n, sps, [rs[k]]);
      assert Meant(u, n, sps, rs) == Meant(u, n, sps, rs[..k]) + last;
      Assoc(Meant(u, n, sps, rs[..k]), last, ReadAll(rest));
    }
  }

  lemma ReadInvertsWritten(u: Unicode, n: Needle, sps: seq<Spelling>, r: Rune, rest: Bytes)
    requires |n.runes| == |sps| > 0 && Legible(Written(u, n, sps, r), SpellingFor(n, sps, r).form)
    ensures ReadAll(WrittenText(u, n, sps, r) + rest) == Meant(u, n, sps, [r]) + ReadAll(rest)
  {
    hide Spell, ReadToken, Legible, SpellingFor, Written, FormUsed;
    var w, f := Written(u, n, sps, r), SpellingFor(n, sps, r).form;
    var text := WrittenText(u, n, sps, r);
    ReadInvertsSpell(w, f, CaseOf(sps, f), rest, true);
    assert (text + rest)[|text|..] == rest;
    assert Meant(u, n, sps, [r]) == [(w, FormUsed(w, f))];
  }

  /** got stands for want: the character itself, or its capital where case is folded. */
  predicate StandsFor(u: Unicode, fold: bool, got: Rune, want: Rune) {
    && (got == want || (fold && got == ToUpper(u, want)))
    && (want < 0x80 ==> AsciiLower(got) == AsciiLower(want))
  }

  /** The characters written are those of the replacement, up to case where case is folded. */
  lemma WrittenIsReplacement(u: Unicode, n: Needle, sps: seq<Spelling>, r: Rune)
    requires |n.runes| == |sps| > 0
    ensures StandsFor(u, n.fold, Written(u, n, sps, r), r)
  {
  }

  /** A proper character that starts no escape; where case is folded, its capital too. */
  predicate PlainToWrite(u: Unicode, n: Needle, r: Rune) {
    && IsScalar(r) && !IsEscapeStart(r)
    && (n.fold && r >= 0x80 ==> IsScalar(ToUpper(u, r)) && !IsEscapeStart(ToUpper(u, r)))
  }

  /** Proper characters none of which starts an escape can always be read back. */
  lemma PlainReplacementIsLegible(u: Unicode, n: Needle, sps: seq<Spelling>, rs: seq<Rune>)
    requires |n.runes| == |sps| > 0 && forall k :: 0 <= k < |rs| ==> PlainToWrite(u, n, rs[k])
    ensures LegibleAll(u, n, sps, rs)
  {
  }

  /**
    * Print and parse: reading what was written for a replacement gives back its characters, up to case where it is
    * folded.
    */
  lemma PrintParse(u: Unicode, n: Needle, sps: seq<Spelling>)
    requires |n.runes| == |sps| > 0 && forall k :: 0 <= k < |n.repl| ==> PlainToWrite(u, n, n.repl[k])
    ensures var read := ReadAll(Replacement(u, n, sps, n.repl));
            |read| == |n.repl| && forall k :: 0 <= k < |read| ==> StandsFor(u, n.fold, read[k].0, n.repl[k])
  {
    hide Replacement, LegibleAll, PlainToWrite, Written, StandsFor, SpellingFor, FormUsed;
    PlainReplacementIsLegible(u, n, sps, n.repl);
    ReadInvertsReplacement(u, n, sps, n.repl, []);
    var text := Replacement(u, n, sps, n.repl);
    assert text + [] == text && ReadAll([]) == [];
    assert ReadAll(text) == Meant(u, n, sps, n.repl);
    forall k | 0 <= k < |n.repl|
      ensures StandsFor(u, n.fold, Meant(u, n, sps, n.repl)[k].0, n.repl[k])
    {
      WrittenIsReplacement(u, n, sps, n.repl[k]);
    }
  }

  /** Without folding it is the replacement, character by character. */
  lemma PrintParseExact(u: Unicode, n: Needle, sps: seq<Spelling>)
    requires |n.runes| == |sps| > 0 && !n.fold && forall k :: 0 <= k < |n.repl| ==> PlainToWrite(u, n, n.repl[k])
    ensures RunesRead(ReadAll(Replacement(u, n, sps, n.repl))) == n.repl
  {
    hide Replacement, PlainToWrite, ReadAll;
    PrintParse(u, n, sps);
  }

  function RunesRead(read: seq<(Rune, Form)>): seq<Rune> {
    seq(|read|, k requires 0 <= k < |read| => read[k].0)
  }
}
