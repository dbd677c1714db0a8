/**
  * The forms of a secret that are looked for, as they are: hex, reversal, rot13, and the alphabets of base64 and base32
  * (tables 1 to 4 of RFC 4648).
  */
module Encodings {
  import opened Utf8
  import opened Grammar
  import opened Matcher
  import opened Replacing
  import opened Tables
  import opened Alignment
  import opened EncodedMatch

  // ---- bits

  /** The number that bits denote, most significant first. */
  function GroupValue(g: seq<bool>): nat {
    if g == [] then 0 else 2 * GroupValue(g[..|g| - 1]) + if g[|g| - 1] then 1 else 0
  }

  lemma PowersOfTwo()
    ensures PowerOfTwo(0) == 1 && PowerOfTwo(1) == 2 && PowerOfTwo(2) == 4 && PowerOfTwo(3) == 8
    ensures PowerOfTwo(4) == 16 && PowerOfTwo(5) == 32 && PowerOfTwo(6) == 64 && PowerOfTwo(7) == 128
    ensures PowerOfTwo(8) == 256
  {
    assert PowerOfTwo(3) == 8;
    assert PowerOfTwo(5) == 32;
    assert PowerOfTwo(7) == 128;
  }

  /** The eight bits of byte i. */
  function BitsOf(data: Bytes, i: nat): seq<bool> {
    seq(8, t requires 0 <= t < 8 => Bit(data, 8 * i + t))
  }

  lemma BitIs(data: Bytes, i: nat, t: nat)
    requires i < |data| && t < 8
    ensures Bit(data, 8 * i + t) <==> data[i] / PowerOfTwo(7 - t) % 2 == 1
  {
    assert (8 * i + t) / 8 == i && (8 * i + t) % 8 == t;
  }

  lemma Products(m: nat, a: int, b: int)
    ensures m * (a - b) == m * a - m * b && m * (2 * a + b) == 2 * m * a + m * b
    ensures a >= 1 ==> m * a >= m
    ensures a <= -1 ==> m * a + m <= 0
  {
  }

  lemma QuotientIs(b: nat, m: nat, q: nat, r: nat)
    requires r < m && b == m * q + r
    ensures b / m == q
  {
    var a := b / m;
    assert b == m * a + b % m;
    Products(m, a, q);
    Products(m, a - q, 0);
  }

  lemma Halves(b: nat, p: nat)
    requires p > 0
    ensures b / p == 2 * (b / (2 * p)) + b / p % 2
  {
    var x, r := b / p, b % p;
    var y, e := x / 2, x % 2;
    assert b == p * x + r;
    Products(p, y, e);
    assert p * e == if e == 0 then 0 else p;
    QuotientIs(b, 2 * p, y, p * e + r);
  }

  /** The top n bits of a byte denote what is left of it without the others. */
  lemma {:induction false} TopBits(data: Bytes, i: nat, n: nat)
    requires i < |data| && n <= 8
    ensures GroupValue(BitsOf(data, i)[..n]) == data[i] / PowerOfTwo(8 - n)
  {
    hide Bit;
    if n == 0 {
      PowersOfTwo();
    } else {
      TopBits(data, i, n - 1);
      BitIs(data, i, n - 1);
      assert BitsOf(data, i)[..n][..n - 1] == BitsOf(data, i)[..n - 1];
      Halves(data[i], PowerOfTwo(8 - n));
    }
  }

  /** The bits of a byte, most significant first, are its value. */
  lemma ByteFromBits(data: Bytes, i: nat)
    requires i < |data|
    ensures GroupValue(BitsOf(data, i)) == data[i]
  {
    hide Bit;
    TopBits(data, i, 8);
    PowersOfTwo();
    assert BitsOf(data, i)[..8] == BitsOf(data, i);
  }

  // ---- alphabets

  function Code(c: char): Byte
    requires c as int < 0x80
  {
    c as int
  }

  function Base64Char(v: nat, c62: Byte, c63: Byte): Byte {
    if v < 26 then Code('A') + v
    else if v < 52 then Code('a') + v - 26
    else if v < 62 then Code('0') + v - 52
    else if v == 62 then c62
    else c63
  }

  /** In small letters. */
  function Base32Char(v: nat): Byte {
    if v < 26 then Code('a') + v else if v < 32 then Code('2') + v - 26 else Code('=')
  }

  function Base32HexChar(v: nat): Byte {
    if v < 10 then Code('0') + v else if v < 32 then Code('a') + v - 10 else Code('=')
  }

  function NoPadding(n: nat): Bytes {
    []
  }

  /** To a multiple of eight characters. */
  function Base32Padding(n: nat): Bytes {
    seq((8 - CharCount(Base32, n) % 8) % 8, _ => Code('='))
  }

  function Base64Of(c62: Byte, c63: Byte): Encoding {
    Encoding(Base64, g => Base64Char(GroupValue(g), c62, c63), NoPadding)
  }

  function Base32Std(): Encoding {
    Encoding(Base32, g => Base32Char(GroupValue(g)), Base32Padding)
  }

  function Base32Hex(): Encoding {
    Encoding(Base32, g => Base32HexChar(GroupValue(g)), Base32Padding)
  }

  // ---- hex, reversal, rot13

  function HexChar(v: nat): Byte
    requires v < 16
  {
    if v < 10 then Code('0') + v else Code('a') + v - 10
  }

  /** hex.EncodeToString. */
  function Hex(b: Bytes): Bytes {
    if b == [] then [] else [HexChar(b[0] / 16), HexChar(b[0] % 16)] + Hex(b[1..])
  }

  /** A conversion to characters and back turns a byte that is none into U+FFFD. */
  function Repaired(r: Rune): Rune {
    if r > MAX_RUNE then RUNE_ERROR else r
  }

  function RepairedAll(rs: seq<Rune>): seq<Rune> {
    seq(|rs|, k requires 0 <= k < |rs| => Repaired(rs[k]))
  }

  function Backwards<T>(s: seq<T>): seq<T> {
    seq(|s|, k requires 0 <= k < |s| => s[|s| - 1 - k])
  }

  function Reverse(b: Bytes): Bytes {
    EncodeRunes(Backwards(RepairedAll(Runes(b))))
  }

  function Turn(r: Rune): Rune {
    if Code('a') <= r <= Code('z') then Code('a') + (r - Code('a') + 13) % 26
    else if Code('A') <= r <= Code('Z') then Code('A') + (r - Code('A') + 13) % 26
    else r
  }

  function TurnAll(rs: seq<Rune>): seq<Rune> {
    seq(|rs|, k requires 0 <= k < |rs| => Turn(rs[k]))
  }

  function Rot13(b: Bytes): Bytes {
    EncodeRunes(TurnAll(RepairedAll(Runes(b))))
  }

  /** The transforms of scrubPairsFor; hex and base32 are matched in either case. */
  function Standard(): Transforms {
    Transforms([(Hex, true), (Reverse, false), (Rot13, false)],
               [Base64Of(Code('+'), Code('/')), Base64Of(Code('-'), Code('_'))],
               [Base32Std(), Base32Hex()])
  }

  // ---- what they mean

  lemma {:induction false} HexLength(b: Bytes)
    ensures |Hex(b)| == 2 * |b|
  {
    hide HexChar;
    if b != [] {
      HexLength(b[1..]);
    }
  }

  lemma HexCons(b: Bytes)
    requires b != []
    ensures Hex(b) == [HexChar(b[0] / 16), HexChar(b[0] % 16)] + Hex(b[1..])
  {
    hide HexChar;
  }

  lemma {:induction false} HexSplit(b: Bytes, k: nat)
    requires k < |b|
    ensures |Hex(b)| == 2 * |b|
    ensures Hex(b)[2 * k] == HexChar(b[k] / 16) && Hex(b)[2 * k + 1] == HexChar(b[k] % 16)
  {
    hide HexChar, Hex;
    HexLength(b);
    HexCons(b);
    if k > 0 {
      HexLength(b[1..]);
      HexSplit(b[1..], k - 1);
    }
  }

  /** Each byte is two hex digits that denote it. */
  lemma HexReadsBack(b: Bytes, k: nat)
    requires k < |b|
    ensures |Hex(b)| == 2 * |b|
    ensures var two := Hex(b)[2 * k..2 * k + 2]; AllHex(two) && Value(two, 16) == b[k]
  {
    hide Hex;
    HexSplit(b, k);
    TwoDigits(Hex(b)[2 * k], Hex(b)[2 * k + 1], b[k]);
    assert Hex(b)[2 * k..2 * k + 2] == [Hex(b)[2 * k], Hex(b)[2 * k + 1]];
  }

  lemma TwoDigits(h: Byte, l: Byte, b: Byte)
    requires h == HexChar(b / 16) && l == HexChar(b % 16)
    ensures AllHex([h, l]) && Value([h, l], 16) == b
  {
    assert [h, l][..1] == [h] && [h][..0] == [];
    assert Value([h], 16) == b / 16;
  }

  predicate ProperText(b: Bytes) {
    forall k :: 0 <= k < |Runes(b)| ==> IsScalar(Runes(b)[k])
  }

  lemma {:induction false} RunesOfEncoded(rs: seq<Rune>)
    requires forall k :: 0 <= k < |rs| ==> IsScalar(rs[k])
    ensures Runes(EncodeRunes(rs)) == rs
  {
    hide LiteralRune, EncodeRune, IsScalar;
    if rs != [] {
      var rest := EncodeRunes(rs[1..]);
      RunesOfEncoded(rs[1..]);
      DecodeEncode(rs[0], rest);
      assert (EncodeRune(rs[0]) + rest)[|EncodeRune(rs[0])|..] == rest;
    }
  }

  lemma ProperIsRepaired(b: Bytes)
    requires ProperText(b)
    ensures RepairedAll(Runes(b)) == Runes(b)
  {
  }

  /** Of a proper text the characters come out in reverse, so that doing it again gives the text. */
  lemma ReverseTwice(b: Bytes)
    requires ProperText(b)
    ensures Runes(Reverse(b)) == Backwards(Runes(b)) && ProperText(Reverse(b))
    ensures Reverse(Reverse(b)) == b
  {
    hide Runes, EncodeRunes, RepairedAll;
    ProperIsRepaired(b);
    RunesOfEncoded(Backwards(Runes(b)));
    ProperIsRepaired(Reverse(b));
    assert Backwards(Backwards(Runes(b))) == Runes(b);
    EncodeRunesInvertsRunes(b);
  }

  predicate IsAsciiLetter(r: Rune) {
    Code('a') <= r <= Code('z') || Code('A') <= r <= Code('Z')
  }

  lemma Thirteen(k: nat)
    requires k < 26
    ensures (k + 13) % 26 == if k < 13 then k + 13 else k - 13
  {
  }

  lemma TurnIs(r: Rune)
    ensures Turn(r) ==
            if 'a' as int <= r <= 'm' as int || 'A' as int <= r <= 'M' as int then r + 13
            else if 'n' as int <= r <= 'z' as int || 'N' as int <= r <= 'Z' as int then r - 13
            else r
  {
    if Code('a') <= r <= Code('z') {
      Thirteen(r - Code('a'));
    } else if Code('A') <= r <= Code('Z') {
      Thirteen(r - Code('A'));
    }
  }

  lemma TurnTwice(r: Rune)
    ensures Turn(Turn(r)) == r && (IsScalar(r) ==> IsScalar(Turn(r)))
    ensures Turn(r) != r <==> IsAsciiLetter(r)
  {
    hide Turn;
    TurnIs(r);
    TurnIs(Turn(r));
  }

  /** Of a proper text exactly the ASCII letters are turned, and doing it again gives the text. */
  lemma Rot13Twice(b: Bytes)
    requires ProperText(b)
    ensures Runes(Rot13(b)) == TurnAll(Runes(b)) && ProperText(Rot13(b))
    ensures Rot13(Rot13(b)) == b
  {
    hide Runes, EncodeRunes, RepairedAll, Turn, IsScalar;
    ProperIsRepaired(b);
    forall k | 0 <= k < |Runes(b)|
      ensures IsScalar(Turn(Runes(b)[k])) && Turn(Turn(Runes(b)[k])) == Runes(b)[k]
    {
      TurnTwice(Runes(b)[k]);
    }
    RunesOfEncoded(TurnAll(Runes(b)));
    ProperIsRepaired(Rot13(b));
    assert TurnAll(TurnAll(Runes(b))) == Runes(b);
    EncodeRunesInvertsRunes(b);
  }

  /** The alphabets are as the search needs them. */
  lemma StandardAlphabets(e: Encoding)
    ensures e in Standard().base64 ==> e.radix == Base64 && PlainAlphabet(e)
    ensures e in Standard().base32 ==> e.radix == Base32 && SmallAlphabet(e)
  {
    hide GroupValue;
  }

  lemma {:induction false} GroupBound(g: seq<bool>)
    ensures GroupValue(g) < PowerOfTwo(|g|)
  {
    if g != [] {
      GroupBound(g[..|g| - 1]);
    }
  }

  lemma {:induction false} GroupInjective(g: seq<bool>, g': seq<bool>)
    requires |g| == |g'|
    ensures GroupValue(g) == GroupValue(g') ==> g == g'
  {
    if g != [] && GroupValue(g) == GroupValue(g') {
      var k := |g| - 1;
      GroupInjective(g[..k], g'[..k]);
      assert g == g[..k] + [g[k]] && g' == g'[..k] + [g'[k]];
    }
  }

  lemma Base64IsDistinct(v: nat, v': nat, c62: Byte, c63: Byte)
    requires (c62 == Code('+') && c63 == Code('/')) || (c62 == Code('-') && c63 == Code('_'))
    ensures v < 64 && v' < 64 && Base64Char(v, c62, c63) == Base64Char(v', c62, c63) ==> v == v'
  {
  }

  lemma Base32IsDistinct(v: nat, v': nat)
    ensures v < 32 && v' < 32 && Base32Char(v) == Base32Char(v') ==> v == v'
    ensures v < 32 && v' < 32 && Base32HexChar(v) == Base32HexChar(v') ==> v == v'
  {
  }

  /** Different groups are written as different characters. */
  lemma AlphabetIsInjective(e: Encoding, g: seq<bool>, g': seq<bool>)
    requires e in Standard().base64 || e in Standard().base32
    requires |g| == |g'| == e.radix.Bits() && e.alphabet(g) == e.alphabet(g')
    ensures g == g'
  {
    hide GroupValue, Base64Char, Base32Char, Base32HexChar;
    GroupBound(g);
    GroupBound(g');
    PowersOfTwo();
    Base64IsDistinct(GroupValue(g), GroupValue(g'), Code('+'), Code('/'));
    Base64IsDistinct(GroupValue(g), GroupValue(g'), Code('-'), Code('_'));
    Base32IsDistinct(GroupValue(g), GroupValue(g'));
    GroupInjective(g, g');
  }

  /** The character that carries bit j. */
  lemma BitIsCarried(radix: Radix, n: nat, j: nat)
    requires j < 8 * n
    ensures var b := radix.Bits(); j / b < CharCount(radix, n) && j / b * b + j % b == j
  {
  }

  lemma SameBit(e: Encoding, a: Bytes, b: Bytes, j: nat)
    requires e in Standard().base64 || e in Standard().base32
    requires |a| == |b| && Encode(e, a) == Encode(e, b) && j < 8 * |a|
    ensures Bit(a, j) == Bit(b, j)
  {
    hide Bit, Standard, CharCount;
    var bits := e.radix.Bits();
    var k, i := j / bits, j % bits;
    BitIsCarried(e.radix, |a|, j);
    assert CharAt(e, a, k) == Encode(e, a)[k] == CharAt(e, b, k);
    AlphabetIsInjective(e, Group(e.radix, a, k), Group(e.radix, b, k));
    assert Group(e.radix, a, k)[i] == Bit(a, j) && Group(e.radix, b, k)[i] == Bit(b, j);
  }

  /** Nothing is lost: texts of one length with the same encoding are the same. */
  lemma EncodeIsInjective(e: Encoding, a: Bytes, b: Bytes)
    requires e in Standard().base64 || e in Standard().base32
    requires |a| == |b| && Encode(e, a) == Encode(e, b)
    ensures a == b
  {
    hide Bit, Standard, Encode, GroupValue;
    forall i | 0 <= i < |a|
      ensures a[i] == b[i]
    {
      forall t | 0 <= t < 8
        ensures BitsOf(a, i)[t] == BitsOf(b, i)[t]
      {
        SameBit(e, a, b, 8 * i + t);
      }
      assert BitsOf(a, i) == BitsOf(b, i);
      ByteFromBits(a, i);
      ByteFromBits(b, i);
    }
  }

  // ---- the list

  /** c is the form of value that fold, whole and fragment transforms give, with that form of the placeholder. */
  ghost predicate IsForm(t: Transforms, value: Bytes, placeholder: Bytes, c: ScrubPair) {
    || (exists k :: 0 <= k < |t.whole| &&
          c == ScrubPair(t.whole[k].0(value), t.whole[k].0(placeholder), t.whole[k].1))
    || (exists e, pad :: e in t.base64 && IsFragmentForm(e, value, placeholder, pad, c) && !c.fold)
    || (exists e, pad :: e in t.base32 && IsFragmentForm(e, value, placeholder, pad, c) && c.fold)
  }

  ghost predicate IsFragmentForm(e: Encoding, value: Bytes, placeholder: Bytes, pad: int, c: ScrubPair) {
    && 0 <= pad < e.radix.BlockBytes()
    && c.needle == Fragment(e, value, pad) && c.repl == Fragment(e, placeholder, pad)
  }

  lemma {:induction false} EncodingFormsAre(es: seq<Encoding>, value: Bytes, placeholder: Bytes, fold: bool,
                                            c: ScrubPair)
    ensures c in EncodingForms(es, value, placeholder, fold) <==>
              c.fold == fold && exists e, pad :: e in es && IsFragmentForm(e, value, placeholder, pad, c)
  {
    hide Fragment;
    if es != [] {
      var k := |es| - 1;
      EncodingFormsAre(es[..k], value, placeholder, fold, c);
      var forms := FragmentForms(es[k], value, placeholder, fold);
      if c in forms {
        var pad :| 0 <= pad < |forms| && forms[pad] == c;
        assert es[k] in es && IsFragmentForm(es[k], value, placeholder, pad, c);
      }
      if e, pad :| c.fold == fold && e in es && IsFragmentForm(e, value, placeholder, pad, c) {
        assert e == es[k] || e in es[..k];
        assert e == es[k] ==> forms[pad] == c;
      }
    }
  }

  /** The forms of a value: each with the same form of the placeholder, and only base32 and hex in either case. */
  lemma FormsAre(t: Transforms, value: Bytes, placeholder: Bytes, c: ScrubPair)
    ensures c in Forms(t, value, placeholder) <==> IsForm(t, value, placeholder, c)
  {
    hide Fragment, EncodingForms, IsFragmentForm;
    EncodingFormsAre(t.base64, value, placeholder, false, c);
    EncodingFormsAre(t.base32, value, placeholder, true, c);
    var whole := WholeForms(t, value, placeholder);
    if k :| 0 <= k < |t.whole| && c == ScrubPair(t.whole[k].0(value), t.whole[k].0(placeholder), t.whole[k].1) {
      assert whole[k] == c;
    }
  }

  /** Every form of at least eight characters is looked for, unless that form of the placeholder is empty. */
  lemma EveryFormIsListed(t: Transforms, value: Bytes, placeholder: Bytes, c: ScrubPair)
    requires value != [] && IsForm(t, value, placeholder, c) && |Runes(c.needle)| >= 8 && c.repl != []
    ensures Listed(PairsFor(t, value, placeholder), c.needle)
  {
    hide Kept, Forms, IsForm, Listed;
    FormsAre(t, value, placeholder, c);
    var forms := Forms(t, value, placeholder);
    var j :| 0 <= j < |forms| && forms[j] == c;
    KeptIsComplete([ScrubPair(value, placeholder, false)], forms, j);
  }

  /** And nothing else is but the value: a pair behind the first is a form of at least eight characters. */
  lemma ListedIsForm(t: Transforms, value: Bytes, placeholder: Bytes, i: nat)
    requires value != [] && 0 < i < |PairsFor(t, value, placeholder)|
    ensures var c := PairsFor(t, value, placeholder)[i];
            IsForm(t, value, placeholder, c) && |Runes(c.needle)| >= 8 && c.repl != []
  {
    hide Kept, Forms, IsForm;
    PairsForIsSound(t, value, placeholder);
    FormsAre(t, value, placeholder, PairsFor(t, value, placeholder)[i]);
  }

  /** In a stream in any of these encodings the value's fragment never comes through whole. */
  lemma StandardValueIsReplaced(u: Unicode, e: Encoding, prefix: Bytes, value: Bytes, placeholder: Bytes, suffix: Bytes)
    requires e in Standard().base64 || e in Standard().base32
    requires Worthwhile(FormIn(Standard(), e, prefix, value, placeholder))
    ensures Place(e, prefix) < |Encode(e, prefix + value + suffix)|
    ensures var ns, text := NeedlesOf(PairsFor(Standard(), value, placeholder)), Encode(e, prefix + value + suffix);
            Replaced(u, ns, text, Place(e, prefix)) && !Copied(u, ns, text, Place(e, prefix))
  {
    hide Encode, Fragment, Place, PairsFor, NeedlesOf, Worthwhile, Standard, Replaced, Copied, PlainAlphabet;
    StandardAlphabets(e);
    if e in Standard().base32 {
      SmallIsPlain(e);
    }
    EncodedValueIsReplaced(u, Standard(), e, prefix, value, placeholder, suffix);
  }
}
