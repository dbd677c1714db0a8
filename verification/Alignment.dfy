/**
  * Base64 and base32 at bit level (sections 4 to 7 of RFC 4648), and the part of an encoded stream that depends on one
  * value alone. The forms of a secret that are looked for are listed so that no alignment of it is missed.
  */
module Alignment {
  import opened Utf8
  import opened Tables

  /** How many bits one character of the encoding carries. */
  datatype Radix = Base64 | Base32 {
    function Bits(): nat {
      if Base64? then 6 else 5
    }

    /** Bytes after which the encoding is aligned again. */
    function BlockBytes(): nat {
      if Base64? then 3 else 5
    }
  }

  /** An encoding: how a group of bits is written, and whether padding completes the last block. */
  datatype Encoding = Encoding(radix: Radix, alphabet: seq<bool> -> Byte, padding: nat -> Bytes)

  function PowerOfTwo(n: nat): (p: nat)
    ensures p > 0
  {
    if n == 0 then 1 else 2 * PowerOfTwo(n - 1)
  }

  /** Bit j of a byte string, the most significant bit of each byte first; there are zeros behind its end. */
  function Bit(data: Bytes, j: nat): bool {
    j / 8 < |data| && data[j / 8] / PowerOfTwo(7 - j % 8) % 2 == 1
  }

  function Group(radix: Radix, data: Bytes, k: nat): (g: seq<bool>)
    ensures |g| == radix.Bits()
  {
    seq(radix.Bits(), i requires 0 <= i => Bit(data, k * radix.Bits() + i))
  }

  function CharCount(radix: Radix, n: nat): nat {
    (8 * n + radix.Bits() - 1) / radix.Bits()
  }

  function CharAt(e: Encoding, data: Bytes, k: nat): Byte {
    e.alphabet(Group(e.radix, data, k))
  }

  function Encode(e: Encoding, data: Bytes): (t: Bytes)
    ensures |t| >= CharCount(e.radix, |data|)
    ensures forall k :: 0 <= k < CharCount(e.radix, |data|) ==> t[k] == CharAt(e, data, k)
  {
    seq(CharCount(e.radix, |data|), k requires 0 <= k => CharAt(e, data, k)) + e.padding(|data|)
  }

  function Zeros(n: nat): Bytes {
    seq(n, _ => 0)
  }

  function First(radix: Radix, pad: nat): nat {
    (8 * pad + radix.Bits() - 1) / radix.Bits()
  }

  function Last(radix: Radix, n: nat): nat {
    8 * n / radix.Bits()
  }

  /** fragment: the text that depends on value alone when pad bytes of other data come before it. */
  function Fragment(e: Encoding, value: Bytes, pad: nat): Bytes {
    var encoded := Encode(e, Zeros(pad) + value);
    var start, end := First(e.radix, pad), Last(e.radix, pad + |value|);
    if end <= start then [] else encoded[start..end]
  }

  /** Where the aligned part of a stream begins, in characters, with p bytes before the value. */
  function Offset(radix: Radix, p: nat): nat {
    p / radix.BlockBytes() * (8 * radix.BlockBytes() / radix.Bits())
  }

  /** The group holds bits of the value and of nothing else exactly within the fragment. */
  lemma FragmentCoversTheValue(radix: Radix, p: nat, n: nat, k: nat)
    ensures var b, pad := radix.Bits(), p % radix.BlockBytes();
            (First(radix, pad) <= k < Last(radix, pad + n)) <==>
            (8 * p <= (Offset(radix, p) + k) * b && (Offset(radix, p) + k) * b + b <= 8 * (p + n))
  {
    match radix
    case Base64 => assert p == 3 * (p / 3) + p % 3;
    case Base32 => assert p == 5 * (p / 5) + p % 5;
  }

  /** A bit of the value reads the same wherever the value stands. */
  lemma ValueBit(prefix: Bytes, value: Bytes, suffix: Bytes, pad: nat, j: nat)
    requires pad <= |prefix| && 8 * pad <= j < 8 * (pad + |value|)
    ensures Bit(prefix + value + suffix, 8 * (|prefix| - pad) + j) == Bit(Zeros(pad) + value, j)
  {
    var i := 8 * (|prefix| - pad) + j;
    assert i / 8 == |prefix| - pad + j / 8 && i % 8 == j % 8;
    assert (prefix + value + suffix)[i / 8] == value[j / 8 - pad] == (Zeros(pad) + value)[j / 8];
  }

  lemma ValueGroup(radix: Radix, prefix: Bytes, value: Bytes, suffix: Bytes, k: nat)
    requires var pad := |prefix| % radix.BlockBytes(); First(radix, pad) <= k < Last(radix, pad + |value|)
    ensures var pad := |prefix| % radix.BlockBytes();
            Group(radix, prefix + value + suffix, Offset(radix, |prefix|) + k) == Group(radix, Zeros(pad) + value, k)
  {
    hide Bit, First, Last, Offset, Zeros;
    var pad, b, off := |prefix| % radix.BlockBytes(), radix.Bits(), Offset(radix, |prefix|);
    FragmentCoversTheValue(radix, |prefix|, |value|, k);
    AlignedOffset(radix, |prefix|);
    var here, alone := Group(radix, prefix + value + suffix, off + k), Group(radix, Zeros(pad) + value, k);
    forall i | 0 <= i < b
      ensures here[i] == alone[i]
    {
      assert (off + k) * b + i == 8 * (|prefix| - pad) + (k * b + i);
      ValueBit(prefix, value, suffix, pad, k * b + i);
    }
  }

  lemma AlignedOffset(radix: Radix, p: nat)
    ensures Offset(radix, p) * radix.Bits() == 8 * (p - p % radix.BlockBytes())
  {
    match radix
    case Base64 => assert p == 3 * (p / 3) + p % 3;
    case Base32 => assert p == 5 * (p / 5) + p % 5;
  }

  /** Alignment: the encoding of any stream that carries the value shows the fragment, at the computed place. */
  lemma FragmentAppears(e: Encoding, prefix: Bytes, value: Bytes, suffix: Bytes)
    ensures var pad := |prefix| % e.radix.BlockBytes();
            var f, at := Fragment(e, value, pad), Offset(e.radix, |prefix|) + First(e.radix, pad);
            var encoded := Encode(e, prefix + value + suffix);
            f != [] ==> at + |f| <= CharCount(e.radix, |prefix + value + suffix|) && encoded[at..at + |f|] == f
  {
    hide Group, Bit, Fragment, First, Last, Offset, CharCount;
    var radix, whole := e.radix, prefix + value + suffix;
    var pad, off := |prefix| % radix.BlockBytes(), Offset(radix, |prefix|);
    var f := Fragment(e, value, pad);
    if f != [] {
      var at, encoded := off + First(radix, pad), Encode(e, whole);
      FragmentLength(e, value, pad);
      FragmentFits(radix, |prefix|, |value|, |suffix|);
      forall j | 0 <= j < |f|
        ensures encoded[at..at + |f|][j] == f[j]
      {
        ValueGroup(radix, prefix, value, suffix, First(radix, pad) + j);
        assert encoded[at + j] == CharAt(e, whole, off + (First(radix, pad) + j));
        FragmentAt(e, value, pad, j);
      }
    }
  }

  lemma FragmentLength(e: Encoding, value: Bytes, pad: nat)
    ensures Fragment(e, value, pad) != [] ==>
              |Fragment(e, value, pad)| == Last(e.radix, pad + |value|) - First(e.radix, pad)
  {
    hide Group;
  }

  lemma FragmentAt(e: Encoding, value: Bytes, pad: nat, j: nat)
    requires j < |Fragment(e, value, pad)|
    ensures Fragment(e, value, pad)[j] == e.alphabet(Group(e.radix, Zeros(pad) + value, First(e.radix, pad) + j))
  {
    hide Group;
    var all := Zeros(pad) + value;
    assert First(e.radix, pad) + j < CharCount(e.radix, |all|);
    assert Encode(e, all)[First(e.radix, pad) + j] == CharAt(e, all, First(e.radix, pad) + j);
  }

  /** The fragment ends before the characters of the whole stream do. */
  lemma FragmentFits(radix: Radix, p: nat, n: nat, m: nat)
    ensures Offset(radix, p) + Last(radix, p % radix.BlockBytes() + n) <= CharCount(radix, p + n + m)
  {
    AlignedOffset(radix, p);
  }

  // ---- the forms of a secret

  /** A derived needle shorter than this is not looked for. */
  const MIN_FRAGMENT: int := 8

  /** The transforms of a whole value: hex, reversal and rot13, two base64 alphabets and two base32 ones. */
  datatype Transforms = Transforms(
    whole: seq<(Bytes -> Bytes, bool)>,
    base64: seq<Encoding>,
    base32: seq<Encoding>
  )

  predicate Listed(pairs: seq<ScrubPair>, needle: Bytes) {
    exists i :: 0 <= i < |pairs| && pairs[i].needle == needle
  }

  predicate Worthwhile(c: ScrubPair) {
    |Runes(c.needle)| >= MIN_FRAGMENT && c.repl != []
  }

  /** No two forms look for the same text. */
  predicate Distinct(pairs: seq<ScrubPair>) {
    forall i, j :: 0 <= i < j < |pairs| ==> pairs[i].needle != pairs[j].needle
  }

  /** One form with the same form of the placeholder, for each transform of the whole value. */
  function WholeForms(t: Transforms, value: Bytes, placeholder: Bytes): seq<ScrubPair> {
    seq(|t.whole|, k requires 0 <= k < |t.whole| =>
      ScrubPair(t.whole[k].0(value), t.whole[k].0(placeholder), t.whole[k].1))
  }

  /** One for each alignment. */
  function FragmentForms(e: Encoding, value: Bytes, placeholder: Bytes, fold: bool): seq<ScrubPair> {
    seq(e.radix.BlockBytes(), pad requires 0 <= pad =>
      ScrubPair(Fragment(e, value, pad), Fragment(e, placeholder, pad), fold))
  }

  function EncodingForms(es: seq<Encoding>, value: Bytes, placeholder: Bytes, fold: bool): seq<ScrubPair> {
    if es == [] then []
    else EncodingForms(es[..|es| - 1], value, placeholder, fold) + FragmentForms(es[|es| - 1], value, placeholder, fold)
  }

  /** Every form of the value besides the value itself; base32 is looked for in either case. */
  function Forms(t: Transforms, value: Bytes, placeholder: Bytes): seq<ScrubPair> {
    WholeForms(t, value, placeholder)
    + EncodingForms(t.base64, value, placeholder, false)
    + EncodingForms(t.base32, value, placeholder, true)
  }

  /** derived: a form is added when it is long enough and new. */
  function Keep(pairs: seq<ScrubPair>, c: ScrubPair): seq<ScrubPair> {
    if Worthwhile(c) && !Listed(pairs, c.needle) then pairs + [c] else pairs
  }

  function Kept(pairs: seq<ScrubPair>, cs: seq<ScrubPair>): seq<ScrubPair> {
    if cs == [] then pairs else Keep(Kept(pairs, cs[..|cs| - 1]), cs[|cs| - 1])
  }

  lemma {:induction false} KeptConcat(pairs: seq<ScrubPair>, a: seq<ScrubPair>, b: seq<ScrubPair>)
    ensures Kept(Kept(pairs, a), b) == Kept(pairs, a + b)
  {
    hide Keep;
    if b == [] {
      assert a + b == a;
    } else {
      KeptConcat(pairs, a, b[..|b| - 1]);
      assert (a + b)[..|a + b| - 1] == a + b[..|b| - 1];
    }
  }

  /** What is kept extends the list by worthwhile candidates only, and never lists a text twice. */
  lemma {:induction false} KeptIsSound(pairs: seq<ScrubPair>, cs: seq<ScrubPair>)
    requires Distinct(pairs)
    ensures pairs <= Kept(pairs, cs) && Distinct(Kept(pairs, cs))
    ensures forall i :: |pairs| <= i < |Kept(pairs, cs)| ==> Kept(pairs, cs)[i] in cs && Worthwhile(Kept(pairs, cs)[i])
  {
    hide Worthwhile;
    if cs != [] {
      KeptIsSound(pairs, cs[..|cs| - 1]);
    }
  }

  lemma ListedGrows(pairs: seq<ScrubPair>, pairs': seq<ScrubPair>, needle: Bytes)
    requires pairs <= pairs' && Listed(pairs, needle)
    ensures Listed(pairs', needle)
  {
    var i :| 0 <= i < |pairs| && pairs[i].needle == needle;
    assert pairs'[i].needle == needle;
  }

  /** Every worthwhile candidate is looked for. */
  lemma {:induction false} KeptIsComplete(pairs: seq<ScrubPair>, cs: seq<ScrubPair>, j: nat)
    requires j < |cs| && Worthwhile(cs[j])
    ensures Listed(Kept(pairs, cs), cs[j].needle)
  {
    hide Worthwhile, Listed;
    var init := Kept(pairs, cs[..|cs| - 1]);
    if j < |cs| - 1 {
      KeptIsComplete(pairs, cs[..|cs| - 1], j);
      ListedGrows(init, Kept(pairs, cs), cs[j].needle);
    } else {
      KeptLast(init, cs[j]);
    }
  }

  lemma KeptLast(pairs: seq<ScrubPair>, c: ScrubPair)
    requires Worthwhile(c)
    ensures Listed(Keep(pairs, c), c.needle)
  {
    assert !Listed(pairs, c.needle) ==> Keep(pairs, c)[|pairs|] == c;
  }

  /** The closure derived of scrubPairsFor, with its loop over the list so far. */
  method AddDerived(pairs: seq<ScrubPair>, c: ScrubPair) returns (pairs': seq<ScrubPair>)
    requires pairs != []
    ensures pairs' == Keep(pairs, c)
  {
    var runes := DecodeRunes(c.needle);
    if |runes| < MIN_FRAGMENT || c.repl == [] || c.needle == pairs[0].needle {
      return pairs;
    }
    for i := 0 to |pairs|
      invariant forall j :: 0 <= j < i ==> pairs[j].needle != c.needle
    {
      if pairs[i].needle == c.needle {
        return pairs;
      }
    }
    return pairs + [c];
  }

  /** The fragments of one encoding, one for each alignment. */
  method AddFragments(pairs: seq<ScrubPair>, e: Encoding, value: Bytes, placeholder: Bytes, fold: bool)
    returns (pairs': seq<ScrubPair>)
    requires pairs != []
    ensures pairs' == Kept(pairs, FragmentForms(e, value, placeholder, fold)) && pairs' != []
  {
    hide Fragment, Keep;
    var forms := FragmentForms(e, value, placeholder, fold);
    pairs' := pairs;
    for pad := 0 to e.radix.BlockBytes()
      invariant pairs' == Kept(pairs, forms[..pad]) && pairs' != []
    {
      KeepGrows(pairs', forms[pad]);
      pairs' := AddDerived(pairs', ScrubPair(Fragment(e, value, pad), Fragment(e, placeholder, pad), fold));
      assert forms[..pad + 1][..pad] == forms[..pad];
    }
    assert forms[..|forms|] == forms;
  }

  lemma KeepGrows(pairs: seq<ScrubPair>, c: ScrubPair)
    ensures pairs <= Keep(pairs, c)
  {
  }

  method AddEncodings(pairs: seq<ScrubPair>, es: seq<Encoding>, value: Bytes, placeholder: Bytes, fold: bool)
    returns (pairs': seq<ScrubPair>)
    requires pairs != []
    ensures pairs' == Kept(pairs, EncodingForms(es, value, placeholder, fold)) && pairs' != []
  {
    hide Kept, FragmentForms;
    pairs' := pairs;
    KeptOfNothing(pairs);
    for k := 0 to |es|
      invariant pairs' == Kept(pairs, EncodingForms(es[..k], value, placeholder, fold)) && pairs' != []
    {
      pairs' := AddFragments(pairs', es[k], value, placeholder, fold);
      assert es[..k + 1][..k] == es[..k];
      KeptConcat(pairs, EncodingForms(es[..k], value, placeholder, fold),
        FragmentForms(es[k], value, placeholder, fold));
    }
    assert es[..|es|] == es;
  }

  lemma KeptOfNothing(pairs: seq<ScrubPair>)
    ensures Kept(pairs, []) == pairs
  {
  }

  /** What is looked for on account of one secret. */
  function PairsFor(t: Transforms, value: Bytes, placeholder: Bytes): seq<ScrubPair> {
    if value == [] then [] else Kept([ScrubPair(value, placeholder, false)], Forms(t, value, placeholder))
  }

  /** scrubPairsFor. */
  method ScrubPairsFor(t: Transforms, value: Bytes, placeholder: Bytes) returns (pairs: seq<ScrubPair>)
    ensures pairs == PairsFor(t, value, placeholder)
  {
    hide Keep, EncodingForms;
    if value == [] {
      return [];
    }
    var own := [ScrubPair(value, placeholder, false)];
    var forms := WholeForms(t, value, placeholder);
    pairs := own;
    for k := 0 to |t.whole|
      invariant pairs == Kept(own, forms[..k]) && pairs != []
    {
      KeepGrows(pairs, forms[k]);
      pairs := AddDerived(pairs, ScrubPair(t.whole[k].0(value), t.whole[k].0(placeholder), t.whole[k].1));
      assert forms[..k + 1][..k] == forms[..k];
    }
    assert forms[..|forms|] == forms;
    pairs := AddEncodings(pairs, t.base64, value, placeholder, false);
    KeptConcat(own, forms, EncodingForms(t.base64, value, placeholder, false));
    pairs := AddEncodings(pairs, t.base32, value, placeholder, true);
    KeptConcat(own, forms + EncodingForms(t.base64, value, placeholder, false),
      EncodingForms(t.base32, value, placeholder, true));
  }

  predicate StandsAt(text: Bytes, at: nat, needle: Bytes) {
    at + |needle| <= |text| && text[at..at + |needle|] == needle
  }

  lemma {:induction false} EncodingFormsHold(es: seq<Encoding>, value: Bytes, placeholder: Bytes, fold: bool,
                                             e: Encoding, pad: nat)
    requires e in es && pad < e.radix.BlockBytes()
    ensures ScrubPair(Fragment(e, value, pad), Fragment(e, placeholder, pad), fold)
              in EncodingForms(es, value, placeholder, fold)
  {
    hide Fragment;
    var k := |es| - 1;
    if es[k] == e {
      assert FragmentForms(e, value, placeholder, fold)[pad]
          == ScrubPair(Fragment(e, value, pad), Fragment(e, placeholder, pad), fold);
    } else {
      EncodingFormsHold(es[..k], value, placeholder, fold, e, pad);
    }
  }

  /**
    * No form is looked for twice, the value comes first, and each of the others is worthwhile and replaced by its own
    * form.
    */
  lemma PairsForIsSound(t: Transforms, value: Bytes, placeholder: Bytes)
    requires value != []
    ensures var pairs := PairsFor(t, value, placeholder);
            && pairs != [] && pairs[0] == ScrubPair(value, placeholder, false) && Distinct(pairs)
            && forall i :: 1 <= i < |pairs| ==> pairs[i] in Forms(t, value, placeholder) && Worthwhile(pairs[i])
  {
    hide Forms, Worthwhile, Kept;
    KeptIsSound([ScrubPair(value, placeholder, false)], Forms(t, value, placeholder));
  }

  /** A fragment that is long enough is looked for. */
  lemma FragmentIsListed(t: Transforms, e: Encoding, value: Bytes, placeholder: Bytes, pad: nat) returns (i: nat)
    requires (e in t.base64 || e in t.base32) && pad < e.radix.BlockBytes()
    requires Worthwhile(ScrubPair(Fragment(e, value, pad), Fragment(e, placeholder, pad), e in t.base32))
    ensures i < |PairsFor(t, value, placeholder)| &&
              PairsFor(t, value, placeholder)[i].needle == Fragment(e, value, pad)
  {
    hide Fragment, Kept, EncodingForms, WholeForms, Worthwhile;
    var fold := e in t.base32;
    var c := ScrubPair(Fragment(e, value, pad), Fragment(e, placeholder, pad), fold);
    NothingIsNotWorthwhile(c);
    NoFragmentOfNothing(e, pad);
    EncodingFormsHold(if fold then t.base32 else t.base64, value, placeholder, fold, e, pad);
    var forms := Forms(t, value, placeholder);
    InConcat(WholeForms(t, value, placeholder), EncodingForms(t.base64, value, placeholder, false),
             EncodingForms(t.base32, value, placeholder, true), c);
    var j :| 0 <= j < |forms| && forms[j] == c;
    KeptIsComplete([ScrubPair(value, placeholder, false)], forms, j);
    assert Listed(PairsFor(t, value, placeholder), c.needle);
    i :| 0 <= i < |PairsFor(t, value, placeholder)| && PairsFor(t, value, placeholder)[i].needle == c.needle;
  }

  /**
    * Wherever the value stands in an encoded stream, a listed needle stands in the text, unless too short to look for.
    */
  lemma EncodedValueIsListed(t: Transforms, e: Encoding, value: Bytes, placeholder: Bytes, prefix: Bytes, suffix: Bytes)
    requires e in t.base64 || e in t.base32
    requires var pad := |prefix| % e.radix.BlockBytes();
             Worthwhile(ScrubPair(Fragment(e, value, pad), Fragment(e, placeholder, pad), e in t.base32))
    ensures exists i, at ::
              0 <= i < |PairsFor(t, value, placeholder)| &&
              StandsAt(Encode(e, prefix + value + suffix), at, PairsFor(t, value, placeholder)[i].needle)
  {
    hide Fragment, Encode, First, Offset, PairsFor, Worthwhile;
    var pad := |prefix| % e.radix.BlockBytes();
    var i := FragmentIsListed(t, e, value, placeholder, pad);
    NothingIsNotWorthwhile(ScrubPair(Fragment(e, value, pad), Fragment(e, placeholder, pad), e in t.base32));
    FragmentAppears(e, prefix, value, suffix);
    assert StandsAt(Encode(e, prefix + value + suffix), Offset(e.radix, |prefix|) + First(e.radix, pad),
      Fragment(e, value, pad));
  }

  lemma InConcat<T>(a: seq<T>, b: seq<T>, c: seq<T>, x: T)
    requires x in b || x in c
    ensures x in a + b + c
  {
  }

  lemma NothingIsNotWorthwhile(c: ScrubPair)
    requires Worthwhile(c)
    ensures c.needle != []
  {
  }

  lemma NoFragmentOfNothing(e: Encoding, pad: nat)
    ensures Fragment(e, [], pad) == []
  {
  }
}
