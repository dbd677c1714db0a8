/**
  * A secret inside encoded data is found: wherever the value stands in a base64 or base32 stream, a needle looked for
  * on its account matches at the computed place, and the byte there is not copied but replaced; in base32 whatever the
  * case of the stream.
  */
module EncodedMatch {
  import opened Utf8
  import opened Tokens
  import opened TokenLaws
  import opened Matcher
  import opened Reference
  import opened Replacing
  import opened Tables
  import opened Alignment

  // ---- plain bytes

  predicate PlainByte(b: int) {
    0 <= b < 0x80 && !IsEscapeStart(b)
  }

  predicate PlainText(d: Bytes) {
    forall j :: 0 <= j < |d| ==> PlainByte(d[j])
  }

  lemma {:induction false} PlainRunes(d: Bytes)
    requires PlainText(d)
    ensures |Runes(d)| == |d| && forall j :: 0 <= j < |d| ==> Runes(d)[j] == d[j]
  {
    if d != [] {
      assert LiteralRune(d) == (d[0], 1);
      PlainRunes(d[1..]);
    }
  }

  /** Plain bytes stand for the needle from its k-th character on. */
  predicate Agrees(n: Needle, k: nat, d: Bytes) {
    && k <= |n.runes| && |n.runes| - k <= |d|
    && forall j :: 0 <= j < |n.runes| - k ==> EqualRune(d[j], n.runes[k + j], n.fold)
  }

  /** On plain bytes the matcher compares byte by byte, and nothing else. */
  lemma {:induction false} PlainMatch(q: Query, d: Bytes, k: nat)
    requires k <= |q.n.runes| && |q.n.runes| - k <= |d| && PlainText(d[..|q.n.runes| - k])
    ensures if Agrees(q.n, k, d) then MatchFrom(q, d, k).Match? && MatchFrom(q, d, k).w == |q.n.runes| - k
            else MatchFrom(q, d, k) == NoMatch
    decreases |q.n.runes| - k
  {
    hide FindRune, Agrees, EqualRune, PlainText, PlainByte;
    if k == |q.n.runes| {
      AgreesAtEnd(q.n, d);
    } else {
      PlainHeadTail(d, |q.n.runes| - k);
      PlainFind(q, d, q.n.runes[k], k == 0);
      PlainMatch(q, d[1..], k + 1);
      AgreesStep(q.n, k, d);
    }
  }

  lemma PlainHeadTail(d: Bytes, n: nat)
    requires 0 < n <= |d| && PlainText(d[..n])
    ensures PlainByte(d[0]) && PlainText(d[1..][..n - 1])
  {
    assert d[..n][0] == d[0] && d[1..][..n - 1] == d[..n][1..];
  }

  lemma AgreesAtEnd(n: Needle, d: Bytes)
    ensures Agrees(n, |n.runes|, d)
  {
  }

  lemma PlainFind(q: Query, d: Bytes, want: Rune, first: bool)
    requires d != [] && PlainByte(d[0])
    ensures var f := FindRune(q, d, want, first, 0);
            if EqualRune(d[0], want, q.n.fold) then f.RuneAt? && f.w == 1 else f == NoRune
  {
    PlainByteToken(d, q.escaped, q.final);
  }

  lemma AgreesStep(n: Needle, k: nat, d: Bytes)
    requires k < |n.runes| && |n.runes| - k <= |d|
    ensures Agrees(n, k, d) <==> EqualRune(d[0], n.runes[k], n.fold) && Agrees(n, k + 1, d[1..])
  {
    if EqualRune(d[0], n.runes[k], n.fold) && Agrees(n, k + 1, d[1..]) {
      forall j | 0 <= j < |n.runes| - k
        ensures EqualRune(d[j], n.runes[k + j], n.fold)
      {
        assert j > 0 ==> d[j] == d[1..][j - 1] && n.runes[k + j] == n.runes[k + 1 + (j - 1)];
      }
    }
    if Agrees(n, k, d) {
      forall j | 0 <= j < |n.runes| - (k + 1)
        ensures EqualRune(d[1..][j], n.runes[k + 1 + j], n.fold)
      {
        assert d[1..][j] == d[j + 1] && n.runes[k + 1 + j] == n.runes[k + (j + 1)];
      }
    }
  }

  // ---- encoded text

  /** Every character of the encoding is plain; and for one that is looked for in either case, none is a capital. */
  ghost predicate PlainAlphabet(e: Encoding) {
    forall g: seq<bool> :: |g| == e.radix.Bits() ==> PlainByte(e.alphabet(g))
  }

  ghost predicate SmallAlphabet(e: Encoding) {
    PlainAlphabet(e) && forall g: seq<bool> :: |g| == e.radix.Bits() ==> AsciiLower(e.alphabet(g)) == e.alphabet(g)
  }

  /** The same text but for the case of ASCII letters. */
  predicate SameButCase(a: Bytes, b: Bytes) {
    |a| == |b| && forall j :: 0 <= j < |a| ==> AsciiLower(a[j]) == AsciiLower(b[j])
  }

  lemma FragmentIsPlain(e: Encoding, value: Bytes, pad: nat)
    requires PlainAlphabet(e)
    ensures PlainText(Fragment(e, value, pad))
    ensures SmallAlphabet(e) ==> forall j :: 0 <= j < |Fragment(e, value, pad)| ==>
              AsciiLower(Fragment(e, value, pad)[j]) == Fragment(e, value, pad)[j]
  {
    hide Group;
    var f := Fragment(e, value, pad);
    forall j | 0 <= j < |f|
      ensures PlainByte(f[j]) && (SmallAlphabet(e) ==> AsciiLower(f[j]) == f[j])
    {
      FragmentAt(e, value, pad, j);
    }
  }

  lemma CaseKeepsPlain(a: Bytes, b: Bytes)
    requires SameButCase(a, b) && PlainText(b)
    ensures PlainText(a)
  {
    forall j | 0 <= j < |a|
      ensures PlainByte(a[j])
    {
      assert PlainByte(b[j]) && AsciiLower(a[j]) == AsciiLower(b[j]);
    }
  }

  /** The needle of a plain text agrees with a text that differs in case only when it folds or nothing differs. */
  lemma PlainNeedleAgrees(pair: ScrubPair, d: Bytes)
    requires PlainText(pair.needle) && |pair.needle| <= |d| && SameButCase(d[..|pair.needle|], pair.needle)
    requires forall j :: 0 <= j < |pair.needle| ==> AsciiLower(pair.needle[j]) == pair.needle[j]
    ensures Agrees(NeedleOf(pair), 0, d) <==> pair.fold || d[..|pair.needle|] == pair.needle
  {
    PlainRunes(pair.needle);
    CaseKeepsPlain(d[..|pair.needle|], pair.needle);
    var n, f := NeedleOf(pair), pair.needle;
    forall j | 0 <= j < |f|
      ensures EqualRune(d[j], n.runes[j], n.fold) <==> pair.fold || d[j] == f[j]
    {
      assert d[..|f|][j] == d[j] && PlainByte(f[j]) && PlainByte(d[..|f|][j]);
    }
    if Agrees(n, 0, d) && !pair.fold {
      assert forall j :: 0 <= j < |f| ==> EqualRune(d[j], n.runes[0 + j], n.fold);
    }
  }

  lemma PlainNeedleAgreesWithItself(pair: ScrubPair, d: Bytes)
    requires PlainText(pair.needle) && |pair.needle| <= |d| && d[..|pair.needle|] == pair.needle
    ensures Agrees(NeedleOf(pair), 0, d)
  {
    PlainRunes(pair.needle);
    assert forall j :: 0 <= j < |pair.needle| ==> d[j] == d[..|pair.needle|][j];
  }

  // ---- the value in a stream

  /** Where the fragment of the value stands in the encoding of a stream. */
  function Place(e: Encoding, prefix: Bytes): nat {
    Offset(e.radix, |prefix|) + First(e.radix, |prefix| % e.radix.BlockBytes())
  }

  function FragmentIn(e: Encoding, prefix: Bytes, value: Bytes): Bytes {
    Fragment(e, value, |prefix| % e.radix.BlockBytes())
  }

  /** The form of the value that a stream shows behind this prefix. */
  ghost function FormIn(t: Transforms, e: Encoding, prefix: Bytes, value: Bytes, placeholder: Bytes): ScrubPair {
    ScrubPair(FragmentIn(e, prefix, value), FragmentIn(e, prefix, placeholder), e in t.base32)
  }

  /** A stream that carries the value, up to the case of its letters. */
  predicate Carries(e: Encoding, prefix: Bytes, value: Bytes, suffix: Bytes, text: Bytes) {
    SameButCase(text, Encode(e, prefix + value + suffix))
  }

  lemma TextAtPlace(e: Encoding, prefix: Bytes, value: Bytes, suffix: Bytes, text: Bytes)
    requires Carries(e, prefix, value, suffix, text) && FragmentIn(e, prefix, value) != []
    ensures var f, at := FragmentIn(e, prefix, value), Place(e, prefix);
            && at + |f| <= |text| && SameButCase(text[at..][..|f|], f)
            && (text == Encode(e, prefix + value + suffix) ==> text[at..][..|f|] == f)
  {
    hide Encode, Fragment, First, Offset;
    FragmentAppears(e, prefix, value, suffix);
    var f, at, encoded := FragmentIn(e, prefix, value), Place(e, prefix), Encode(e, prefix + value + suffix);
    assert at + |f| <= CharCount(e.radix, |prefix + value + suffix|) <= |encoded|;
    assert encoded[at..at + |f|] == f;
    forall j | 0 <= j < |f|
      ensures text[at..][..|f|][j] == text[at + j] && encoded[at + j] == f[j]
    {
      assert encoded[at..at + |f|][j] == encoded[at + j];
    }
  }

  /** A pair that is looked for and has the form's text. */
  predicate ListedAs(pairs: seq<ScrubPair>, i: nat, needle: Bytes) {
    i < |pairs| && pairs[i].needle == needle
  }

  lemma FormIsListed(t: Transforms, e: Encoding, prefix: Bytes, value: Bytes, placeholder: Bytes) returns (i: nat)
    requires (e in t.base64 || e in t.base32) && Worthwhile(FormIn(t, e, prefix, value, placeholder))
    ensures ListedAs(PairsFor(t, value, placeholder), i, FragmentIn(e, prefix, value)) &&
              FragmentIn(e, prefix, value) != []
  {
    hide Fragment, PairsFor, Worthwhile;
    i := FragmentIsListed(t, e, value, placeholder, |prefix| % e.radix.BlockBytes());
    NothingIsNotWorthwhile(FormIn(t, e, prefix, value, placeholder));
  }

  /** In a stream as the encoder writes it, every listed pair with the fragment's text matches at its place. */
  lemma EncodedValueMatches(u: Unicode, pair: ScrubPair, e: Encoding, prefix: Bytes, value: Bytes, suffix: Bytes)
    requires PlainAlphabet(e) && pair.needle == FragmentIn(e, prefix, value) != []
    ensures Place(e, prefix) <= |Encode(e, prefix + value + suffix)|
    ensures var d := Encode(e, prefix + value + suffix)[Place(e, prefix)..];
            var m := MatchHere(Query(u, NeedleOf(pair), true, true), d);
            m.Match? && m.w == |pair.needle|
  {
    hide Encode, Fragment, MatchFrom, Place;
    var text := Encode(e, prefix + value + suffix);
    TextAtPlace(e, prefix, value, suffix, text);
    FragmentIsPlain(e, value, |prefix| % e.radix.BlockBytes());
    PlainRunes(pair.needle);
    PlainNeedleAgreesWithItself(pair, text[Place(e, prefix)..]);
    PlainMatch(Query(u, NeedleOf(pair), true, true), text[Place(e, prefix)..], 0);
  }

  /** In a stream whose letters may be of either case, it matches exactly when it folds or the case is the encoder's. */
  lemma EncodedValueMatchesAnyCase(u: Unicode, pair: ScrubPair, e: Encoding, prefix: Bytes, value: Bytes,
                                   suffix: Bytes, text: Bytes)
    requires SmallAlphabet(e) && pair.needle == FragmentIn(e, prefix, value) != [] &&
              Carries(e, prefix, value, suffix, text)
    ensures Place(e, prefix) <= |text|
    ensures var d := text[Place(e, prefix)..];
            var m := MatchHere(Query(u, NeedleOf(pair), true, true), d);
            if pair.fold || pair.needle <= d then m.Match? && m.w == |pair.needle| else m == NoMatch
  {
    hide Encode, Fragment, MatchFrom, Place, Carries, SmallAlphabet;
    TextAtPlace(e, prefix, value, suffix, text);
    SmallIsPlain(e);
    FragmentIsPlain(e, value, |prefix| % e.radix.BlockBytes());
    var d := text[Place(e, prefix)..];
    PlainRunes(pair.needle);
    CaseKeepsPlain(d[..|pair.needle|], pair.needle);
    PlainNeedleAgrees(pair, d);
    PlainMatch(Query(u, NeedleOf(pair), true, true), d, 0);
  }

  lemma SmallIsPlain(e: Encoding)
    requires SmallAlphabet(e)
    ensures PlainAlphabet(e)
  {
  }

  // ---- the scan replaces it

  lemma {:induction false} NeedlesOfHas(ps: seq<ScrubPair>, i: nat) returns (k: nat)
    requires i < |ps| && NeedleOf(ps[i]).runes != []
    ensures k < |NeedlesOf(ps)| && NeedlesOf(ps)[k] == NeedleOf(ps[i])
  {
    hide NeedleOf;
    var n := |ps| - 1;
    if i < n {
      k := NeedlesOfHas(ps[..n], i);
    } else {
      k := |NeedlesOf(ps[..n])|;
    }
  }

  /** Where a listed pair matches plain bytes, something at least as long is replaced. */
  lemma MatchIsReplaced(u: Unicode, ps: seq<ScrubPair>, i: nat, d: Bytes)
    requires i < |ps| && ps[i].needle != [] && PlainText(ps[i].needle) && d != [] && PlainByte(d[0])
    requires MatchHere(Query(u, NeedleOf(ps[i]), true, true), d).Match?
    ensures var h := HitAt(u, NeedlesOf(ps), d);
            h.Hit? && h.w >= MatchHere(Query(u, NeedleOf(ps[i]), true, true), d).w
  {
    hide Longest, MatchFrom, NeedlesOf;
    PlainRunes(ps[i].needle);
    var k := NeedlesOfHas(ps, i);
    var n := NeedleOf(ps[i]);
    FirstAgrees(u, n, d);
    LongestIsLongest(u, NeedlesOf(ps), true, d);
    assert PassMatch(u, NeedlesOf(ps)[k], true, d).Match?;
  }

  lemma FirstAgrees(u: Unicode, n: Needle, d: Bytes)
    requires d != [] && PlainByte(d[0]) && ValidNeedle(n) && MatchHere(Query(u, n, true, true), d).Match?
    ensures PassMatch(u, n, true, d) == MatchHere(Query(u, n, true, true), d)
  {
    hide FindRune;
    PlainByteToken(d, true, true);
    PlainFind(Query(u, n, true, true), d, n.runes[0], true);
  }

  /** If its form is long enough to look for, the encoded value is a hit at its place, at least the fragment long. */
  lemma EncodedValueIsHit(u: Unicode, t: Transforms, e: Encoding, prefix: Bytes, value: Bytes, placeholder: Bytes,
                          suffix: Bytes)
    requires (e in t.base64 || e in t.base32) && PlainAlphabet(e)
    requires Worthwhile(FormIn(t, e, prefix, value, placeholder))
    ensures Place(e, prefix) < |Encode(e, prefix + value + suffix)|
    ensures var d := Encode(e, prefix + value + suffix)[Place(e, prefix)..];
            var h := HitAt(u, NeedlesOf(PairsFor(t, value, placeholder)), d);
            h.Hit? && h.w >= |FragmentIn(e, prefix, value)|
  {
    hide Encode, Fragment, MatchFrom, Place, PairsFor, NeedlesOf, NeedleOf, HitAt, Worthwhile, PlainAlphabet;
    var ps, text := PairsFor(t, value, placeholder), Encode(e, prefix + value + suffix);
    var i := FormIsListed(t, e, prefix, value, placeholder);
    TextItself(text);
    TextAtPlace(e, prefix, value, suffix, text);
    FragmentIsPlain(e, value, |prefix| % e.radix.BlockBytes());
    EncodedValueMatches(u, ps[i], e, prefix, value, suffix);
    var d := text[Place(e, prefix)..];
    assert d[0] == d[..|ps[i].needle|][0] == ps[i].needle[0];
    MatchIsReplaced(u, ps, i, d);
  }

  lemma TextItself(text: Bytes)
    ensures SameButCase(text, text)
  {
  }

  /**
    * The scrub of an encoded stream never lets the fragment of the value through whole: its first byte is replaced,
    * in a match that begins there or in one that began before and overlaps it.
    */
  lemma EncodedValueIsReplaced(u: Unicode, t: Transforms, e: Encoding, prefix: Bytes, value: Bytes,
                               placeholder: Bytes, suffix: Bytes)
    requires (e in t.base64 || e in t.base32) && PlainAlphabet(e)
    requires Worthwhile(FormIn(t, e, prefix, value, placeholder))
    ensures Place(e, prefix) < |Encode(e, prefix + value + suffix)|
    ensures var ns, text := NeedlesOf(PairsFor(t, value, placeholder)), Encode(e, prefix + value + suffix);
            Replaced(u, ns, text, Place(e, prefix)) && !Copied(u, ns, text, Place(e, prefix))
  {
    hide Encode, Fragment, Place, PairsFor, NeedlesOf, HitAt, Worthwhile, PlainAlphabet, Replaced, Copied;
    EncodedValueIsHit(u, t, e, prefix, value, placeholder, suffix);
    HitIsReplaced(u, NeedlesOf(PairsFor(t, value, placeholder)), Encode(e, prefix + value + suffix), Place(e, prefix));
  }

  /** If the scrub stops there, because no earlier match overlaps, the whole fragment is replaced. */
  lemma WholeFragmentIsReplaced(u: Unicode, t: Transforms, e: Encoding, prefix: Bytes, value: Bytes,
                                placeholder: Bytes, suffix: Bytes, j: nat)
    requires (e in t.base64 || e in t.base32) && PlainAlphabet(e)
    requires Worthwhile(FormIn(t, e, prefix, value, placeholder)) && j < |FragmentIn(e, prefix, value)|
    requires Place(e, prefix) <= |Encode(e, prefix + value + suffix)|
    requires Stops(u, NeedlesOf(PairsFor(t, value, placeholder)), Encode(e, prefix + value + suffix), Place(e, prefix))
    ensures Place(e, prefix) + j < |Encode(e, prefix + value + suffix)|
    ensures Replaced(u, NeedlesOf(PairsFor(t, value, placeholder)), Encode(e, prefix + value + suffix),
                     Place(e, prefix) + j)
  {
    hide Encode, Fragment, Place, PairsFor, NeedlesOf, HitAt, Worthwhile, PlainAlphabet, Stops;
    EncodedValueIsHit(u, t, e, prefix, value, placeholder, suffix);
    assert ReplacedFrom(u, NeedlesOf(PairsFor(t, value, placeholder)), Encode(e, prefix + value + suffix),
                        Place(e, prefix) + j, Place(e, prefix));
  }

  /** No other form of the value has this text without folding case. */
  predicate OnlyFolded(t: Transforms, value: Bytes, placeholder: Bytes, needle: Bytes) {
    value != needle && forall k :: 0 <= k < |Forms(t, value, placeholder)| ==>
      Forms(t, value, placeholder)[k].needle == needle ==> Forms(t, value, placeholder)[k].fold
  }

  /** In base32 the hit is there whatever the case of the stream. */
  lemma EncodedValueIsHitAnyCase(u: Unicode, t: Transforms, e: Encoding, prefix: Bytes, value: Bytes,
                                 placeholder: Bytes, suffix: Bytes, text: Bytes)
    requires e in t.base32 && SmallAlphabet(e) && Worthwhile(FormIn(t, e, prefix, value, placeholder))
    requires OnlyFolded(t, value, placeholder, FragmentIn(e, prefix, value)) && Carries(e, prefix, value, suffix, text)
    ensures Place(e, prefix) < |text|
    ensures var h := HitAt(u, NeedlesOf(PairsFor(t, value, placeholder)), text[Place(e, prefix)..]);
            h.Hit? && h.w >= |FragmentIn(e, prefix, value)|
  {
    hide Encode, Fragment, MatchFrom, Place, PairsFor, NeedlesOf, NeedleOf, HitAt, Worthwhile, SmallAlphabet,
      OnlyFolded;
    var ps := PairsFor(t, value, placeholder);
    var i := FormIsListed(t, e, prefix, value, placeholder);
    ListedIsFolded(t, value, placeholder, i);
    TextAtPlace(e, prefix, value, suffix, text);
    SmallIsPlain(e);
    FragmentIsPlain(e, value, |prefix| % e.radix.BlockBytes());
    EncodedValueMatchesAnyCase(u, ps[i], e, prefix, value, suffix, text);
    var d := text[Place(e, prefix)..];
    CaseKeepsPlain(d[..|ps[i].needle|], ps[i].needle);
    assert d[0] == d[..|ps[i].needle|][0];
    MatchIsReplaced(u, ps, i, d);
  }

  /** And so is the replacement. */
  lemma EncodedValueIsReplacedAnyCase(u: Unicode, t: Transforms, e: Encoding, prefix: Bytes, value: Bytes,
                                      placeholder: Bytes, suffix: Bytes, text: Bytes)
    requires e in t.base32 && SmallAlphabet(e) && Worthwhile(FormIn(t, e, prefix, value, placeholder))
    requires OnlyFolded(t, value, placeholder, FragmentIn(e, prefix, value)) && Carries(e, prefix, value, suffix, text)
    ensures Place(e, prefix) < |text|
    ensures var ns := NeedlesOf(PairsFor(t, value, placeholder));
            Replaced(u, ns, text, Place(e, prefix)) && !Copied(u, ns, text, Place(e, prefix))
  {
    hide Encode, Fragment, Place, PairsFor, NeedlesOf, HitAt, Worthwhile, SmallAlphabet, OnlyFolded, Carries, Replaced,
      Copied;
    EncodedValueIsHitAnyCase(u, t, e, prefix, value, placeholder, suffix, text);
    HitIsReplaced(u, NeedlesOf(PairsFor(t, value, placeholder)), text, Place(e, prefix));
  }

  lemma ListedIsFolded(t: Transforms, value: Bytes, placeholder: Bytes, i: nat)
    requires i < |PairsFor(t, value, placeholder)|
    requires OnlyFolded(t, value, placeholder, PairsFor(t, value, placeholder)[i].needle)
    ensures PairsFor(t, value, placeholder)[i].fold
  {
    hide Forms, PairsFor;
    var pair := PairsFor(t, value, placeholder)[i];
    NothingForNothing(t, placeholder);
    PairsForIsSound(t, value, placeholder);
    assert i > 0 && pair in Forms(t, value, placeholder);
  }

  lemma NothingForNothing(t: Transforms, placeholder: Bytes)
    ensures PairsFor(t, [], placeholder) == []
  {
  }
}
