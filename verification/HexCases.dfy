/**
  * Letter case in escapes. What the tokenizer records of an escape is the case of its first hex letter, and an escape
  * written in one case shows that case, so a replacement keeps the case of the match.
  */
module HexCases {
  import opened Utf8
  import opened Tokens
  import opened Matcher
  import opened Printer

  function CaseOfByte(b: Byte): HexCase {
    if IsHexDigit(b) then HexCaseOf(b) else NoCase
  }

  /** The case of the first hex letter in a text. */
  function CaseShown(d: Bytes): HexCase {
    if d == [] then NoCase else FirstCase(CaseShown(d[..|d| - 1]), CaseOfByte(d[|d| - 1]))
  }

  lemma {:induction false} CaseOfConcat(a: Bytes, b: Bytes)
    ensures CaseShown(a + b) == FirstCase(CaseShown(a), CaseShown(b))
  {
    if b == [] {
      assert a + b == a;
    } else {
      var k := |b| - 1;
      CaseOfConcat(a, b[..k]);
      assert (a + b)[..|a + b| - 1] == a + b[..k];
    }
  }

  lemma CaseOfSnoc(d: Bytes, i: nat)
    requires i < |d|
    ensures CaseShown(d[..i + 1]) == FirstCase(CaseShown(d[..i]), CaseOfByte(d[i]))
  {
    assert d[..i + 1][..i] == d[..i];
  }

  lemma CaseOfSlices(d: Bytes, i: nat, j: nat)
    requires i <= j <= |d|
    ensures CaseShown(d[..j]) == FirstCase(CaseShown(d[..i]), CaseShown(d[i..j]))
  {
    assert d[..j] == d[..i] + d[i..j];
    CaseOfConcat(d[..i], d[i..j]);
  }

  // ---- what is read

  lemma {:induction false} HexRunCase(d: Bytes, n: nat)
    requires HexRun(d, n).Hex?
    ensures HexRun(d, n).hexCase == CaseShown(d[..n])
  {
    if n > 0 {
      HexRunCase(d, n - 1);
      CaseOfSnoc(d, n - 1);
    }
  }

  lemma {:induction false} PercentRunCase(d: Bytes, n: nat)
    requires PercentRun(d, n).PercentBytes?
    ensures PercentRun(d, n).hexCase == CaseShown(d[..3 * n])
  {
    hide HexRun;
    if n > 0 {
      var at := 3 * (n - 1);
      PercentRunCase(d, n - 1);
      CaseOfSlices(d, at + 1, at + 3);
      CaseOfSnoc(d, at);
      HexRunCase(d[at + 1..], 2);
      assert d[at + 1..][..2] == d[at + 1..at + 3];
    }
  }

  lemma PercentCase(d: Bytes)
    requires PercentEscape(d).Escape?
    ensures PercentEscape(d).sp.hexCase == CaseShown(d[..PercentEscape(d).w])
  {
    hide PercentRun, CaseShown;
    PercentRunCase(d, 1);
    var need := PercentNeed(PercentRun(d, 1).bytes[0]);
    if PercentRun(d, need).PercentBytes? {
      PercentRunCase(d, need);
    }
  }

  lemma UnitCase(d: Bytes, at: nat, n: nat)
    requires at + 2 + n <= |d| && d[at] == BACKSLASH && (d[at + 1] == LOWER_U || d[at + 1] == LOWER_X) &&
              HexRun(d[at + 2..], n).Hex?
    ensures CaseShown(d[..at + 2 + n]) == FirstCase(CaseShown(d[..at]), HexRun(d[at + 2..], n).hexCase)
  {
    hide HexRun;
    CaseOfSnoc(d, at);
    CaseOfSnoc(d, at + 1);
    CaseOfSlices(d, at + 2, at + 2 + n);
    HexRunCase(d[at + 2..], n);
    assert d[at + 2..][..n] == d[at + 2..at + 2 + n];
  }

  lemma BackslashCase(d: Bytes)
    requires d != [] && d[0] == BACKSLASH && BackslashEscape(d).Escape? && BackslashEscape(d).sp.form != JsonShort
    ensures BackslashEscape(d).sp.hexCase == CaseShown(d[..BackslashEscape(d).w])
  {
    hide HexRun;
    assert CaseShown(d[..0]) == NoCase;
    if d[1] == LOWER_X {
      UnitCase(d, 0, 2);
    } else {
      UnitCase(d, 0, 4);
      if BackslashEscape(d).w == 12 {
        UnitCase(d, 6, 4);
      }
    }
  }

  lemma {:induction false} NumericCase(d: Bytes, hex: bool, i: nat, value: nat)
    requires DigitsStart(hex) <= i <= |d| && i - DigitsStart(hex) <= MaxDigits(hex)
    requires NumericEscape(d, hex, i, value, CaseShown(d[..i])).Escape?
    ensures var e := NumericEscape(d, hex, i, value, CaseShown(d[..i])); e.sp.hexCase == CaseShown(d[..e.w])
    decreases |d| - i
  {
    CaseOfSnoc(d, i);
    if d[i] != SEMICOLON {
      NumericCase(d, hex, i + 1, Base(hex) * value + HexValue(d[i]));
    }
  }

  lemma ReferenceCase(d: Bytes)
    requires d != [] && d[0] == AMPERSAND && ReferenceEscape(d).Escape? && ReferenceEscape(d).sp.form != HtmlNamed
    ensures ReferenceEscape(d).sp.hexCase == CaseShown(d[..ReferenceEscape(d).w])
  {
    hide NumericEscape;
    assert CaseShown(d[..0]) == NoCase;
    CaseOfSnoc(d, 0);
    CaseOfSnoc(d, 1);
    var hex := |d| > 2 && (d[2] == LOWER_X || d[2] == UPPER_X);
    if hex {
      CaseOfSnoc(d, 2);
    }
    NumericCase(d, hex, DigitsStart(hex), 0);
  }

  /** The forms in which a character is written in hex. */
  predicate HasHex(f: Form) {
    f != Literal && f != JsonShort && f != HtmlNamed
  }

  /** The case recorded for a token is that of its first hex letter; forms without hex record none. */
  lemma TokenCase(d: Bytes, final: bool)
    requires d != [] && ReadToken(d, true, final).Token?
    ensures var t := ReadToken(d, true, final);
            t.sp.hexCase == if HasHex(t.sp.form) then CaseShown(d[..t.w]) else NoCase
  {
    hide CaseShown, PercentEscape, BackslashEscape, ReferenceEscape;
    var e := EscapeAt(d);
    if e.Escape? {
      if d[0] == PERCENT {
        PercentCase(d);
      } else if d[0] == BACKSLASH {
        if HasHex(e.sp.form) {
          BackslashCase(d);
        } else {
          NoHexBackslash(d);
        }
      } else {
        if HasHex(e.sp.form) {
          ReferenceCase(d);
        } else {
          NoHexReference(d);
        }
      }
    }
  }

  lemma NoHexBackslash(d: Bytes)
    requires d != [] && BackslashEscape(d).Escape? && !HasHex(BackslashEscape(d).sp.form)
    ensures BackslashEscape(d).sp.hexCase == NoCase
  {
    hide HexRun;
  }

  lemma NoHexReference(d: Bytes)
    requires d != [] && ReferenceEscape(d).Escape? && !HasHex(ReferenceEscape(d).sp.form)
    ensures ReferenceEscape(d).sp.hexCase == NoCase
  {
    hide NumericEscape, NamedEscape;
  }

  // ---- what is written

  /** The case in which spell writes hex digits: a case not seen means capitals, but small letters in a reference. */
  function CaseWritten(f: Form, c: HexCase): HexCase {
    if c == Lower || (f == HtmlHex && c == NoCase) then Lower else Upper
  }

  /** All hex letters of a text are of this case. */
  predicate InCase(d: Bytes, c: HexCase) {
    forall i :: 0 <= i < |d| ==> CaseOfByte(d[i]) == NoCase || CaseOfByte(d[i]) == c
  }

  lemma {:induction false} InCaseShows(d: Bytes, c: HexCase)
    requires InCase(d, c)
    ensures CaseShown(d) == NoCase || CaseShown(d) == c
  {
    if d != [] {
      InCaseShows(d[..|d| - 1], c);
    }
  }

  function LetterCase(lower: bool): HexCase {
    if lower then Lower else Upper
  }

  lemma HexByteCase(v: nat, lower: bool)
    requires v < 256
    ensures InCase(HexByte(v, lower), LetterCase(lower))
  {
  }

  lemma {:induction false} PercentBytesCase(bs: Bytes, lower: bool)
    ensures InCase(PercentBytesOf(bs, lower), LetterCase(lower))
  {
    hide HexByte;
    if bs != [] {
      PercentBytesCase(bs[..|bs| - 1], lower);
      HexByteCase(bs[|bs| - 1], lower);
    }
  }

  lemma UnitWrittenCase(v: nat, lower: bool)
    requires v < 0x10000
    ensures InCase(Unit(v, lower), LetterCase(lower))
  {
    hide HexByte;
    HexByteCase(v / 256, lower);
    HexByteCase(v % 256, lower);
  }

  lemma {:induction false} DigitsCase(v: nat, hex: bool, lower: bool)
    ensures InCase(Digits(v, hex, lower), LetterCase(lower)) && (!hex ==> InCase(Digits(v, hex, lower), NoCase))
  {
    if v >= Base(hex) {
      DigitsCase(v / Base(hex), hex, lower);
    }
  }

  lemma SpellCase(r: Rune, f: Form, c: HexCase)
    requires HasHex(f) && CanSpell(r, f)
    ensures InCase(Spell(r, f, c), CaseWritten(f, c))
  {
    hide HexByte, Unit, Digits, PercentBytesOf;
    var lower := c == Lower;
    match f
    case Percent => PercentBytesCase(EncodeRune(r), lower);
    case JsonU =>
      if r < 0x10000 {
        UnitWrittenCase(r, lower);
      } else {
        UnitWrittenCase(0xD800 + (r - 0x10000) / 1024, lower);
        UnitWrittenCase(0xDC00 + (r - 0x10000) % 1024, lower);
      }
    case HexEscape => HexByteCase(r, lower);
    case HtmlDec => DigitsCase(r, false, true);
    case HtmlHex => DigitsCase(r, true, c != Upper);
  }

  /** Reading back a written escape never shows another case than the one it was written in. */
  lemma ReadInvertsCase(r: Rune, f: Form, c: HexCase, rest: Bytes, final: bool)
    requires IsScalar(r) && HasHex(f) && CanSpell(r, f)
    ensures Spell(r, f, c) != [] && ReadToken(Spell(r, f, c) + rest, true, final).Token?
    ensures ReadToken(Spell(r, f, c) + rest, true, final).sp.hexCase == CaseShown(Spell(r, f, c))
    ensures CaseShown(Spell(r, f, c)) == NoCase || CaseShown(Spell(r, f, c)) == CaseWritten(f, c)
  {
    hide Spell, ReadToken, CaseShown, InCase;
    var text := Spell(r, f, c);
    ReadInvertsSpell(r, f, c, rest, final);
    TokenCase(text + rest, final);
    assert (text + rest)[..|text|] == text;
    SpellCase(r, f, c);
    InCaseShows(text, CaseWritten(f, c));
  }

  // ---- the case a replacement takes

  /** A character in form f that showed a case. */
  predicate Cased(sp: Spelling, f: Form) {
    sp.form == f && sp.hexCase != NoCase
  }

  /** A replacement's escapes show no case of their own when the match showed none in their form. */
  lemma {:induction false} NoCaseTaken(sps: seq<Spelling>, f: Form)
    ensures CaseOf(sps, f) == NoCase <==> forall j :: 0 <= j < |sps| ==> !Cased(sps[j], f)
  {
    if sps != [] {
      NoCaseTaken(sps[..|sps| - 1], f);
    }
  }

  /** And otherwise take the case of the first character that showed one. */
  lemma {:induction false} CaseTaken(sps: seq<Spelling>, f: Form, k: nat)
    requires k < |sps| && Cased(sps[k], f) && forall j :: 0 <= j < k ==> !Cased(sps[j], f)
    ensures CaseOf(sps, f) == sps[k].hexCase
  {
    if k < |sps| - 1 {
      CaseTaken(sps[..|sps| - 1], f, k);
    } else {
      NoCaseTaken(sps[..k], f);
    }
  }

  /** Letters and digits, the other characters that a URL need not escape (section 2.3 of RFC 3986), and the rest. */
  lemma ClassMeans(r: Rune)
    ensures Class(r) == 0 <==>
              || '0' as int <= r <= '9' as int || 'A' as int <= r <= 'Z' as int || 'a' as int <= r <= 'z' as int
    ensures Class(r) == 1 <==> r in {'-' as int, '.' as int, '_' as int, '~' as int}
  {
  }

  /** Character k is the first in form f that showed a case. */
  predicate FirstCased(sps: seq<Spelling>, f: Form, k: nat) {
    k < |sps| && Cased(sps[k], f) && forall j :: 0 <= j < k ==> !Cased(sps[j], f)
  }

  /** A replacement is written in capitals exactly when the match folds case and showed capitals first in that form. */
  lemma CapitalsTaken(u: Unicode, n: Needle, sps: seq<Spelling>, r: Rune, k: nat)
    requires |n.runes| == |sps| > 0
    ensures var f := SpellingFor(n, sps, r).form;
            && (n.fold && FirstCased(sps, f, k) ==>
                  Written(u, n, sps, r) == if sps[k].hexCase == Upper then ToUpper(u, r) else r)
            && (!n.fold || (forall j :: 0 <= j < |sps| ==> !Cased(sps[j], f)) ==> Written(u, n, sps, r) == r)
  {
    hide SpellingFor, CaseOf, Cased;
    var f := SpellingFor(n, sps, r).form;
    NoCaseTaken(sps, f);
    if FirstCased(sps, f, k) {
      CaseTaken(sps, f, k);
    }
  }
}
