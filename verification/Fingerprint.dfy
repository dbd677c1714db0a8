/**
  * The bytes from which a credential fingerprint is computed: every key and value with its length in front, in the
  * order of the keys, and a marker between the credentials and the token-endpoint headers. The fingerprint decides
  * whether a token source built earlier may be used again.
  */
module Fingerprint {
  import opened Utf8
  import opened Wrappers

  const TWO_TO_THE_32 := 0x1_0000_0000

  // ---- length prefixes

  /** A text shorter than a length prefix can say. */
  predicate Short(b: Bytes) {
    |b| < TWO_TO_THE_32
  }

  /** binary.BigEndian.PutUint32(uint32(n)): the conversion keeps the low 32 bits. */
  function Uint32(n: nat): (b: Bytes)
    ensures |b| == 4
  {
    var a := n % TWO_TO_THE_32;
    var b, c, d := a / 256, a / 256 / 256, a / 256 / 256 / 256;
    [d, c % 256, b % 256, a % 256]
  }

  function FromUint32(b: Bytes): nat
    requires |b| == 4
  {
    var b0: nat, b1: nat, b2: nat, b3: nat := b[0], b[1], b[2], b[3];
    256 * (256 * (256 * b0 + b1) + b2) + b3
  }

  lemma Uint32Back(n: nat)
    requires n < TWO_TO_THE_32
    ensures FromUint32(Uint32(n)) == n
  {
    assert n % TWO_TO_THE_32 == n;
  }

  function Prefixed(b: Bytes): Bytes {
    Uint32(|b|) + b
  }

  function Encode(chunks: seq<Bytes>): Bytes {
    if chunks == [] then [] else Prefixed(chunks[0]) + Encode(chunks[1..])
  }

  lemma {:induction false} EncodeConcat(a: seq<Bytes>, b: seq<Bytes>)
    ensures Encode(a + b) == Encode(a) + Encode(b)
  {
    hide Prefixed;
    if a == [] {
      assert a + b == b;
    } else {
      EncodeConcat(a[1..], b);
      assert (a + b)[0] == a[0] && (a + b)[1..] == a[1..] + b;
      Assoc(Prefixed(a[0]), Encode(a[1..]), Encode(b));
    }
  }

  lemma EncodePair(k: Bytes, v: Bytes)
    ensures Encode([k, v]) == Prefixed(k) + Prefixed(v)
  {
    hide Prefixed;
    assert [k, v][1..] == [v] && [v][1..] == [];
    assert Encode([v]) == Prefixed(v) + Encode([]);
  }

  lemma EncodeOne(k: Bytes)
    ensures Encode([k]) == Prefixed(k)
  {
    assert [k][1..] == [];
  }

  lemma EncodeIsEmpty(a: seq<Bytes>)
    ensures Encode(a) == [] <==> a == []
  {
  }

  predicate AllShort(chunks: seq<Bytes>) {
    forall i :: 0 <= i < |chunks| ==> Short(chunks[i])
  }

  /** One length-prefixed text can be cut off the front in only one way. */
  lemma PrefixedIsUnique(a: Bytes, restA: Bytes, b: Bytes, restB: Bytes)
    requires Short(a) && Short(b) && Prefixed(a) + restA == Prefixed(b) + restB
    ensures a == b && restA == restB
  {
    hide Uint32;
    var s, t := Prefixed(a) + restA, Prefixed(b) + restB;
    assert s[..4] == Uint32(|a|) && t[..4] == Uint32(|b|);
    Uint32Back(|a|);
    Uint32Back(|b|);
    assert s[4..4 + |a|] == a && t[4..4 + |b|] == b;
    assert s[4 + |a|..] == restA && t[4 + |b|..] == restB;
  }

  /** Length prefixing is uniquely decodable. */
  lemma {:induction false} EncodeIsInjective(a: seq<Bytes>, b: seq<Bytes>)
    requires AllShort(a) && AllShort(b) && Encode(a) == Encode(b)
    ensures a == b
  {
    hide Prefixed;
    if a == [] || b == [] {
      EncodeIsEmpty(a);
      EncodeIsEmpty(b);
    } else {
      PrefixedIsUnique(a[0], Encode(a[1..]), b[0], Encode(b[1..]));
      EncodeIsInjective(a[1..], b[1..]);
      assert a == [a[0]] + a[1..] && b == [b[0]] + b[1..];
    }
  }

  // ---- the two maps

  /** "endpoint_headers" */
  const MARKER: Bytes :=
    [0x65, 0x6E, 0x64, 0x70, 0x6F, 0x69, 0x6E, 0x74, 0x5F, 0x68, 0x65, 0x61, 0x64, 0x65, 0x72, 0x73]

  type Fields = map<Bytes, Bytes>

  /** Byte-wise order, as strings are sorted. */
  predicate Less(a: Bytes, b: Bytes) {
    b != [] && (a == [] || a[0] < b[0] || (a[0] == b[0] && Less(a[1..], b[1..])))
  }

  predicate Ascending(keys: seq<Bytes>) {
    forall i, j :: 0 <= i < j < |keys| ==> Less(keys[i], keys[j])
  }

  /** What one resolution found: both maps, each with its keys in the order they are walked. */
  datatype Entry = Entry(keys: seq<Bytes>, creds: Fields, headerKeys: seq<Bytes>, headers: Fields)

  ghost predicate Lists(keys: seq<Bytes>, m: Fields) {
    forall k :: k in keys <==> k in m
  }

  ghost predicate Listed(e: Entry) {
    Lists(e.keys, e.creds) && Lists(e.headerKeys, e.headers)
  }

  ghost predicate Sorted(e: Entry) {
    Listed(e) && Ascending(e.keys) && Ascending(e.headerKeys)
  }

  function Pairs(keys: seq<Bytes>, m: Fields): seq<Bytes>
    requires forall k :: k in keys ==> k in m
  {
    if keys == [] then [] else Pairs(keys[..|keys| - 1], m) + [keys[|keys| - 1], m[keys[|keys| - 1]]]
  }

  function HeaderChunks(keys: seq<Bytes>, m: Fields): seq<Bytes>
    requires forall k :: k in keys ==> k in m
  {
    if keys == [] then [] else [MARKER] + Pairs(keys, m)
  }

  /** What goes into the hasher, as texts to be length-prefixed. */
  ghost function Chunks(e: Entry): seq<Bytes>
    requires Listed(e)
  {
    Pairs(e.keys, e.creds) + HeaderChunks(e.headerKeys, e.headers)
  }

  /** The stream fed to the hasher. */
  ghost function Stream(e: Entry): Bytes
    requires Listed(e)
  {
    Encode(Chunks(e))
  }

  ghost predicate SameMaps(e: Entry, e': Entry) {
    e.creds == e'.creds && e.headers == e'.headers
  }

  lemma {:induction false} PairsLength(keys: seq<Bytes>, m: Fields)
    requires forall k :: k in keys ==> k in m
    ensures |Pairs(keys, m)| == 2 * |keys|
  {
    if keys != [] {
      PairsLength(keys[..|keys| - 1], m);
    }
  }

  lemma {:induction false} PairsAt(keys: seq<Bytes>, m: Fields, i: nat)
    requires (forall k :: k in keys ==> k in m) && i < |keys|
    ensures |Pairs(keys, m)| == 2 * |keys| && Pairs(keys, m)[2 * i] == keys[i] &&
              Pairs(keys, m)[2 * i + 1] == m[keys[i]]
  {
    var n := |keys| - 1;
    PairsLength(keys[..n], m);
    if i < n {
      PairsAt(keys[..n], m, i);
    }
  }

  /** Equal lists of pairs come from equal keys and equal values. */
  lemma PairsDetermine(keys: seq<Bytes>, m: Fields, keys': seq<Bytes>, m': Fields)
    requires Lists(keys, m) && Lists(keys', m') && Pairs(keys, m) == Pairs(keys', m')
    ensures keys == keys' && m == m'
  {
    hide Pairs;
    PairsLength(keys, m);
    PairsLength(keys', m');
    forall i | 0 <= i < |keys|
      ensures keys[i] == keys'[i] && m[keys[i]] == m'[keys'[i]]
    {
      PairsAt(keys, m, i);
      PairsAt(keys', m', i);
    }
    assert keys == keys';
    assert forall k :: k in m ==> k in keys;
    assert m.Keys == m'.Keys;
  }

  /** Once it is known how many credentials there are, the rest follows. */
  lemma SplitDetermines(e: Entry, e': Entry)
    requires Listed(e) && Listed(e') && |e.keys| == |e'.keys| && Chunks(e) == Chunks(e')
    ensures SameMaps(e, e') && e.headerKeys == e'.headerKeys
  {
    hide Pairs;
    var n, c, c' := 2 * |e.keys|, Chunks(e), Chunks(e');
    PairsLength(e.keys, e.creds);
    PairsLength(e'.keys, e'.creds);
    assert c[..n] == Pairs(e.keys, e.creds) && c'[..n] == Pairs(e'.keys, e'.creds);
    PairsDetermine(e.keys, e.creds, e'.keys, e'.creds);
    var t, t' := HeaderChunks(e.headerKeys, e.headers), HeaderChunks(e'.headerKeys, e'.headers);
    assert c[n..] == t && c'[n..] == t';
    if e.headerKeys == [] {
      assert e.headers.Keys == e'.headers.Keys;
    } else {
      assert t[1..] == Pairs(e.headerKeys, e.headers) && t'[1..] == Pairs(e'.headerKeys, e'.headers);
      PairsDetermine(e.headerKeys, e.headers, e'.headerKeys, e'.headers);
    }
  }

  /** In the place of a key the marker stands only behind the last credential. */
  lemma MarkerPlace(e: Entry, i: nat)
    requires Listed(e) && MARKER !in e.creds && i <= |e.keys|
    ensures (2 * i < |Chunks(e)| && Chunks(e)[2 * i] == MARKER) <==> i == |e.keys| && e.headerKeys != []
  {
    hide Pairs;
    PairsLength(e.keys, e.creds);
    if i < |e.keys| {
      PairsAt(e.keys, e.creds, i);
      assert e.keys[i] in e.keys;
    }
  }

  lemma ChunksLength(e: Entry)
    requires Listed(e)
    ensures |Chunks(e)| == 2 * |e.keys| + (if e.headerKeys == [] then 0 else 1 + 2 * |e.headerKeys|)
  {
    hide Pairs;
    PairsLength(e.keys, e.creds);
    PairsLength(e.headerKeys, e.headers);
  }

  /** The texts determine both maps, provided no credential is called like the marker. */
  lemma ChunksDetermine(e: Entry, e': Entry)
    requires Listed(e) && Listed(e') && MARKER !in e.creds && MARKER !in e'.creds && Chunks(e) == Chunks(e')
    ensures SameMaps(e, e')
  {
    hide Chunks, Listed;
    var n, n' := |e.keys|, |e'.keys|;
    var k := if n < n' then n else n';
    ChunksLength(e);
    ChunksLength(e');
    MarkerPlace(e, k);
    MarkerPlace(e', k);
    SplitDetermines(e, e');
  }

  predicate Within(m: Fields, limit: nat) {
    forall k :: k in m ==> |k| <= limit && |m[k]| <= limit
  }

  predicate AllWithin(chunks: seq<Bytes>, limit: nat) {
    forall i :: 0 <= i < |chunks| ==> |chunks[i]| <= limit
  }

  lemma {:induction false} PairsWithin(keys: seq<Bytes>, m: Fields, limit: nat)
    requires (forall k :: k in keys ==> k in m) && Within(m, limit)
    ensures AllWithin(Pairs(keys, m), limit)
  {
    if keys != [] {
      assert forall k :: k in keys[..|keys| - 1] ==> k in keys;
      PairsWithin(keys[..|keys| - 1], m, limit);
      assert keys[|keys| - 1] in keys;
    }
  }

  lemma ChunksWithin(e: Entry, limit: nat)
    requires Listed(e) && Within(e.creds, limit) && Within(e.headers, limit) && |MARKER| <= limit
    ensures AllWithin(Chunks(e), limit)
  {
    hide Pairs, Within;
    PairsWithin(e.keys, e.creds, limit);
    PairsWithin(e.headerKeys, e.headers, limit);
  }

  // ---- what the stream tells apart

  const LONGEST: nat := TWO_TO_THE_32 - 1

  ghost predicate Prefixable(e: Entry) {
    Listed(e) && Within(e.creds, LONGEST) && Within(e.headers, LONGEST)
  }

  lemma StreamGivesChunks(e: Entry, e': Entry)
    requires Prefixable(e) && Prefixable(e') && Stream(e) == Stream(e')
    ensures Chunks(e) == Chunks(e')
  {
    hide Chunks, Encode, Within;
    ChunksWithin(e, LONGEST);
    ChunksWithin(e', LONGEST);
    EncodeIsInjective(Chunks(e), Chunks(e'));
  }

  /** One entry, whose sources have fixed names, at two times: the stream changes exactly when a value does. */
  lemma ValuesAreTracked(e: Entry, e': Entry)
    requires Prefixable(e) && Prefixable(e') && e.keys == e'.keys && e.headerKeys == e'.headerKeys
    ensures Stream(e) == Stream(e') <==> SameMaps(e, e')
  {
    hide Chunks;
    if Stream(e) == Stream(e') {
      StreamGivesChunks(e, e');
      SplitDetermines(e, e');
    }
  }

  /** Any two entries: equal streams mean equal maps when no credential is called like the marker. */
  lemma StreamDetermines(e: Entry, e': Entry)
    requires Prefixable(e) && Prefixable(e') && MARKER !in e.creds && MARKER !in e'.creds && Stream(e) == Stream(e')
    ensures SameMaps(e, e')
  {
    hide Chunks, Stream;
    StreamGivesChunks(e, e');
    ChunksDetermine(e, e');
  }

  /** Entries whose credentials have names from a given set and whose texts are no longer than a given limit. */
  ghost predicate InFamily(e: Entry, names: set<Bytes>, limit: nat) {
    Sorted(e) && e.creds.Keys <= names && Within(e.creds, limit) && Within(e.headers, limit)
  }

  ghost predicate TellsApart(names: set<Bytes>, limit: nat) {
    forall e, e' :: InFamily(e, names, limit) && InFamily(e', names, limit) && Stream(e) == Stream(e') ==>
      SameMaps(e, e')
  }

  lemma OneByteKeys(a: Byte, b: Byte)
    requires a < b
    ensures Ascending([[a], [b]])
  {
  }

  lemma OneKey(a: Bytes)
    ensures Ascending([]) && Ascending([a])
  {
  }

  /** A credential called like the marker can be mistaken for a header. */
  lemma MarkerCollides() returns (e: Entry, e': Entry)
    ensures Sorted(e) && Sorted(e') && e.creds.Keys == {MARKER} && e'.creds == map[]
    ensures Within(e.creds, |MARKER|) && Within(e.headers, |MARKER|) && Within(e'.headers, |MARKER|)
    ensures Stream(e) == Stream(e') && !SameMaps(e, e')
  {
    hide Encode, Less;
    OneByteKeys(0x61, 0x78);
    var a: Bytes, x: Bytes, y: Bytes := [0x61], [0x78], [0x79];
    e := Entry([MARKER], map[MARKER := a], [x], map[x := y]);
    e' := Entry([], map[], [a, x], map[a := MARKER, x := y]);
    OnePair(MARKER, e.creds);
    OnePair(x, e.headers);
    TwoPairs(a, x, e'.headers);
    assert Chunks(e) == [MARKER, a, MARKER, x, y];
    assert Chunks(e') == [MARKER, a, MARKER, x, y];
  }

  lemma NoPairs(m: Fields)
    ensures Pairs([], m) == []
  {
  }

  lemma OnePair(k: Bytes, m: Fields)
    requires k in m
    ensures Pairs([k], m) == [k, m[k]]
  {
    assert [k][..0] == [];
  }

  lemma TwoPairs(k: Bytes, l: Bytes, m: Fields)
    requires k in m && l in m
    ensures Pairs([k, l], m) == [k, m[k], l, m[l]]
  {
    OnePair(k, m);
    assert [k, l][..1] == [k];
  }

  /** A value of 2^32 bytes is announced as empty, and its own bytes can then pass for another header. */
  lemma LengthCollides() returns (e: Entry, e': Entry)
    ensures Sorted(e) && Sorted(e') && e.creds == map[] && e'.creds == map[]
    ensures Within(e.headers, TWO_TO_THE_32) && Within(e'.headers, TWO_TO_THE_32)
    ensures Stream(e) == Stream(e') && !SameMaps(e, e')
  {
    hide Encode, Prefixed, Less, Ascending, Pairs;
    var a: Bytes, x: Bytes := [0x61], [0x78];
    OneByteKeys(0x61, 0x78);
    OneKey(a);
    var y: Bytes := seq(TWO_TO_THE_32 - 9, _ => 0);
    var v := Prefixed(x) + Prefixed(y);
    PrefixedLength(x);
    PrefixedLength(y);
    e := Entry([], map[], [a], map[a := v]);
    e' := Entry([], map[], [a, x], map[a := [], x := y]);
    NoPairs(map[]);
    OnePair(a, e.headers);
    TwoPairs(a, x, e'.headers);
    assert Chunks(e) == [MARKER] + [a, v];
    assert Chunks(e') == [MARKER] + ([a, []] + [x, y]);
    SwallowedPair(a, x, y);
  }

  lemma SwallowedPair(a: Bytes, x: Bytes, y: Bytes)
    requires |Prefixed(x) + Prefixed(y)| == TWO_TO_THE_32
    ensures Encode([MARKER] + [a, Prefixed(x) + Prefixed(y)]) == Encode([MARKER] + ([a, []] + [x, y]))
  {
    hide Encode, Prefixed;
    var v := Prefixed(x) + Prefixed(y);
    FourGigabytes(a, v);
    EncodePair(x, y);
    EncodeConcat([a, []], [x, y]);
    EncodeConcat([MARKER], [a, v]);
    EncodeConcat([MARKER], [a, []] + [x, y]);
  }

  lemma PrefixedLength(b: Bytes)
    ensures |Prefixed(b)| == 4 + |b|
  {
  }

  lemma FourGigabytes(k: Bytes, v: Bytes)
    requires |v| == TWO_TO_THE_32
    ensures Encode([k, v]) == Encode([k, []]) + v
  {
    assert Prefixed(v) == Prefixed([]) + v;
    EncodePair(k, v);
    EncodePair(k, []);
    Assoc(Prefixed(k), Prefixed([]), v);
  }

  lemma NotToldApart(e: Entry, e': Entry, names: set<Bytes>, limit: nat)
    requires InFamily(e, names, limit) && InFamily(e', names, limit) && Stream(e) == Stream(e') && !SameMaps(e, e')
    ensures !TellsApart(names, limit)
  {
  }

  lemma ToldApart(names: set<Bytes>, limit: nat)
    requires MARKER !in names && limit < TWO_TO_THE_32
    ensures TellsApart(names, limit)
  {
    hide Stream, Listed, Ascending;
    forall e, e' | InFamily(e, names, limit) && InFamily(e', names, limit) && Stream(e) == Stream(e')
      ensures SameMaps(e, e')
    {
      StreamDetermines(e, e');
    }
  }

  /** Exactly when the stream determines the maps, over all entries of a family. */
  lemma TellsApartIff(names: set<Bytes>, limit: nat)
    requires |MARKER| <= limit
    ensures TellsApart(names, limit) <==> MARKER !in names && limit < TWO_TO_THE_32
  {
    hide Stream, Sorted, TellsApart, SameMaps;
    if MARKER in names {
      var e, e' := MarkerCollides();
      NotToldApart(e, e', names, limit);
    } else if limit >= TWO_TO_THE_32 {
      var e, e' := LengthCollides();
      NotToldApart(e, e', names, limit);
    } else {
      ToldApart(names, limit);
    }
  }

  // ---- the stream is a function of the maps

  lemma {:induction false} LessIrreflexive(a: Bytes)
    ensures !Less(a, a)
  {
    if a != [] {
      LessIrreflexive(a[1..]);
    }
  }

  lemma {:induction false} LessTransitive(a: Bytes, b: Bytes, c: Bytes)
    requires Less(a, b) && Less(b, c)
    ensures Less(a, c)
  {
    if a != [] && a[0] == b[0] == c[0] {
      LessTransitive(a[1..], b[1..], c[1..]);
    }
  }

  lemma FirstIsLeast(keys: seq<Bytes>, k: Bytes)
    requires Ascending(keys) && k in keys
    ensures k == keys[0] || Less(keys[0], k)
  {
    var i :| 0 <= i < |keys| && keys[i] == k;
  }

  lemma TailKeys(keys: seq<Bytes>, keys': seq<Bytes>)
    requires keys != [] && keys' != [] && keys[0] == keys'[0] && Ascending(keys) && forall k :: k in keys ==> k in keys'
    ensures Ascending(keys[1..]) && forall k :: k in keys[1..] ==> k in keys'[1..]
  {
    forall k | k in keys[1..]
      ensures k in keys'[1..]
    {
      var i :| 1 <= i < |keys| && keys[i] == k;
      assert Less(keys[0], k);
      LessIrreflexive(k);
      assert k in keys && keys' == [keys'[0]] + keys'[1..];
    }
  }

  lemma SameFirst(keys: seq<Bytes>, keys': seq<Bytes>)
    requires keys != [] && keys' != [] && Ascending(keys) && Ascending(keys') && forall k :: k in keys <==> k in keys'
    ensures keys[0] == keys'[0]
  {
    hide Ascending, Less;
    var a, b := keys[0], keys'[0];
    assert a in keys && b in keys';
    FirstIsLeast(keys, b);
    FirstIsLeast(keys', a);
    if a != b {
      LessTransitive(a, b, a);
      LessIrreflexive(a);
    }
  }

  lemma HasKey(keys: seq<Bytes>)
    ensures keys == [] || exists k :: k in keys
  {
    if keys != [] {
      assert keys[0] in keys;
    }
  }

  /** Sorting leaves no choice: two ascending lists of the same keys are equal. */
  lemma {:induction false} AscendingIsUnique(keys: seq<Bytes>, keys': seq<Bytes>)
    requires Ascending(keys) && Ascending(keys') && forall k :: k in keys <==> k in keys'
    ensures keys == keys'
  {
    if keys == [] {
      HasKey(keys');
    } else {
      assert keys[0] in keys;
      SameFirst(keys, keys');
      TailKeys(keys, keys');
      TailKeys(keys', keys);
      AscendingIsUnique(keys[1..], keys'[1..]);
      assert keys == [keys[0]] + keys[1..] && keys' == [keys'[0]] + keys'[1..];
    }
  }

  /** Equal maps give equal streams, whatever order the maps were walked in before sorting. */
  lemma StreamIsDetermined(e: Entry, e': Entry)
    requires Sorted(e) && Sorted(e') && SameMaps(e, e')
    ensures Stream(e) == Stream(e')
  {
    hide Chunks;
    AscendingIsUnique(e.keys, e'.keys);
    AscendingIsUnique(e.headerKeys, e'.headerKeys);
  }

  // ---- resolving

  /** A source gives a value or fails. */
  type Sources = map<Bytes, Option<Bytes>>

  datatype Result = Ok(vals: Fields) | Err(key: Bytes)

  /** A failed resolution names the first key, in sorted order, whose source failed. */
  predicate FirstFailure(keys: seq<Bytes>, sources: Sources, i: int)
    requires forall k :: k in keys ==> k in sources
  {
    0 <= i < |keys| && sources[keys[i]].None? && forall j :: 0 <= j < i ==> sources[keys[j]].Some?
  }

  /** What a resolution over the sources gives back. */
  ghost predicate Answers(result: Result, keys: seq<Bytes>, sources: Sources)
    requires forall k :: k in keys ==> k in sources
  {
    match result
    case Ok(vals) => vals.Keys == sources.Keys && forall k :: k in sources ==> sources[k] == Some(vals[k])
    case Err(key) => exists i :: FirstFailure(keys, sources, i) && keys[i] == key
  }

  /** The first i keys have been fetched, and nothing else. */
  ghost predicate Fetched(keys: seq<Bytes>, sources: Sources, vals: Fields, i: nat)
    requires forall k :: k in keys <==> k in sources
    ensures Fetched(keys, sources, vals, i) ==> i <= |keys| && forall k :: k in keys[..i] ==> k in vals
  {
    && i <= |keys|
    && (forall j :: 0 <= j < i ==> sources[keys[j]].Some?)
    && (forall k :: k in vals <==> k in keys[..i])
    && forall k :: k in vals ==> sources[k] == Some(vals[k])
  }

  lemma FetchedNone(keys: seq<Bytes>, sources: Sources)
    requires forall k :: k in keys <==> k in sources
    ensures Fetched(keys, sources, map[], 0) && Pairs(keys[..0], map[]) == []
  {
  }

  lemma FetchFails(keys: seq<Bytes>, sources: Sources, vals: Fields, i: nat)
    requires (forall k :: k in keys <==> k in sources) && Fetched(keys, sources, vals, i)
    requires i < |keys| && sources[keys[i]].None?
    ensures Answers(Err(keys[i]), keys, sources)
  {
    assert FirstFailure(keys, sources, i);
  }

  lemma FetchedAll(keys: seq<Bytes>, sources: Sources, vals: Fields)
    requires (forall k :: k in keys <==> k in sources) && Fetched(keys, sources, vals, |keys|)
    ensures Answers(Ok(vals), keys, sources) && keys[..|keys|] == keys
  {
    assert keys[..|keys|] == keys;
  }

  lemma FetchOne(keys: seq<Bytes>, sources: Sources, vals: Fields, i: nat)
    requires (forall k :: k in keys <==> k in sources) && Fetched(keys, sources, vals, i)
    requires i < |keys| && sources[keys[i]].Some?
    ensures var k := keys[i];
            var vals' := vals[k := sources[k].value];
            && Fetched(keys, sources, vals', i + 1)
            && Encode(Pairs(keys[..i + 1], vals')) == Encode(Pairs(keys[..i], vals)) + Encode([k, sources[k].value])
  {
    hide Encode, Pairs, Fetched;
    var k := keys[i];
    var vals' := vals[k := sources[k].value];
    FetchedOne(keys, sources, vals, i);
    SamePairs(keys[..i], vals, vals');
    EncodePairsSnoc(keys, vals', i);
  }

  lemma FetchedOne(keys: seq<Bytes>, sources: Sources, vals: Fields, i: nat)
    requires (forall k :: k in keys <==> k in sources) && Fetched(keys, sources, vals, i)
    requires i < |keys| && sources[keys[i]].Some?
    ensures var vals' := vals[keys[i] := sources[keys[i]].value];
            Fetched(keys, sources, vals', i + 1) && forall k :: k in keys[..i] ==> vals[k] == vals'[k]
  {
    assert keys[..i + 1] == keys[..i] + [keys[i]];
  }

  /** The hasher, as the bytes written to it. */
  class Hasher {
    var written: Bytes

    constructor ()
      ensures written == []
    {
      written := [];
    }

    method WriteFingerprintBytes(b: Bytes)
      modifies this
      ensures written == old(written) + Prefixed(b)
    {
      written := written + Uint32(|b|);
      written := written + b;
    }

    method WriteFingerprintField(k: Bytes, v: Bytes)
      modifies this
      ensures written == old(written) + Encode([k, v])
    {
      hide Prefixed;
      WriteFingerprintBytes(k);
      WriteFingerprintBytes(v);
      EncodePair(k, v);
      Assoc(old(written), Prefixed(k), Prefixed(v));
    }

    /** Fetch each source in key order and stream the field. */
    method ResolveCredentials(keys: seq<Bytes>, sources: Sources) returns (result: Result)
      requires forall k :: k in keys <==> k in sources
      modifies this
      ensures Answers(result, keys, sources)
      ensures result.Ok? ==> written == old(written) + Encode(Pairs(keys, result.vals))
    {
      hide Encode, Pairs, Fetched, Answers;
      var vals: Fields := map[];
      EncodeIsEmpty([]);
      FetchedNone(keys, sources);
      for i := 0 to |keys|
        invariant Fetched(keys, sources, vals, i) && written == old(written) + Encode(Pairs(keys[..i], vals))
      {
        var k := keys[i];
        if sources[k].None? {
          FetchFails(keys, sources, vals, i);
          return Err(k);
        }
        var v := sources[k].value;
        WriteFingerprintField(k, v);
        FetchOne(keys, sources, vals, i);
        Assoc(old(written), Encode(Pairs(keys[..i], vals)), Encode([k, v]));
        vals := vals[k := v];
      }
      FetchedAll(keys, sources, vals);
      return Ok(vals);
    }

    /** Nothing for an entry without header sources; otherwise the marker and then the fields. */
    method ResolveEndpointHeaders(keys: seq<Bytes>, sources: Sources) returns (result: Result)
      requires forall k :: k in keys <==> k in sources
      modifies this
      ensures Answers(result, keys, sources)
      ensures result.Ok? ==> written == old(written) + Encode(HeaderChunks(keys, result.vals))
    {
      hide Encode, Pairs, Prefixed;
      EncodeIsEmpty([]);
      if |sources| == 0 {
        assert forall k :: k in keys ==> k in sources.Keys;
        HasKey(keys);
        return Ok(map[]);
      }
      assert keys != [] by {
        var k :| k in sources;
        assert k in keys;
      }
      WriteFingerprintBytes(MARKER);
      result := ResolveCredentials(keys, sources);
      if result.Ok? {
        EncodeOne(MARKER);
        EncodeConcat([MARKER], Pairs(keys, result.vals));
        Assoc(old(written), Prefixed(MARKER), Encode(Pairs(keys, result.vals)));
      }
    }
  }

  lemma {:induction false} SamePairs(keys: seq<Bytes>, m: Fields, m': Fields)
    requires forall k :: k in keys ==> k in m && k in m' && m[k] == m'[k]
    ensures Pairs(keys, m) == Pairs(keys, m')
  {
    if keys != [] {
      SamePairs(keys[..|keys| - 1], m, m');
      assert keys[|keys| - 1] in keys;
    }
  }

  lemma EncodePairsSnoc(keys: seq<Bytes>, m: Fields, i: nat)
    requires i < |keys| && forall k :: k in keys[..i + 1] ==> k in m
    ensures keys[i] in m
    ensures forall k :: k in keys[..i] ==> k in m
    ensures Encode(Pairs(keys[..i + 1], m)) == Encode(Pairs(keys[..i], m)) + Encode([keys[i], m[keys[i]]])
  {
    hide Encode;
    assert keys[..i + 1][..i] == keys[..i] && keys[..i + 1][i] == keys[i];
    assert keys[i] in keys[..i + 1];
    EncodeConcat(Pairs(keys[..i], m), [keys[i], m[keys[i]]]);
  }

  // ---- reusing a token source

  /** A token source, as what it was built from. */
  datatype TokenSource = TokenSource(creds: Fields, headers: Fields)

  datatype Minting = Ready(source: TokenSource) | NotResolved(key: Bytes) | NotBuilt

  /** An entry's cached token source and the fingerprint it was built under; `hash` is the digest of a stream. */
  class TokenEntry {
    const hash: Bytes -> Bytes
    const keys: seq<Bytes>
    const headerKeys: seq<Bytes>
    var source: Option<TokenSource>
    var fingerprint: Bytes

    /** The entry a token source was built from. */
    ghost function Origin(ts: TokenSource): Entry {
      Entry(keys, ts.creds, headerKeys, ts.headers)
    }

    ghost predicate Valid()
      reads this
    {
      source.Some? ==> Listed(Origin(source.value)) && fingerprint == hash(Stream(Origin(source.value)))
    }

    constructor (hash: Bytes -> Bytes, keys: seq<Bytes>, headerKeys: seq<Bytes>)
      ensures Valid() && source == None && this.hash == hash && this.keys == keys && this.headerKeys == headerKeys
    {
      this.hash, this.keys, this.headerKeys := hash, keys, headerKeys;
      source, fingerprint := None, [];
    }

    /**
      * The token source handed out was built from the values just resolved, unless the digests of two different
      * streams agree; an earlier one is kept whenever it was built from those values. A failure changes nothing.
      */
    method TokenSourceFor(creds: Sources, headers: Sources, canBuild: TokenSource -> bool) returns (result: Minting)
      requires Valid() && (forall k :: k in keys <==> k in creds) && (forall k :: k in headerKeys <==> k in headers)
      modifies this
      ensures Valid() && (!result.Ready? ==> source == old(source) && fingerprint == old(fingerprint))
      ensures result.NotResolved? <==>
                (exists k :: k in creds && creds[k].None?) || (exists k :: k in headers && headers[k].None?)
      ensures !result.NotResolved? ==>
                exists now: TokenSource ::
                  && Answers(Ok(now.creds), keys, creds) && Answers(Ok(now.headers), headerKeys, headers)
                  && Listed(Origin(now)) && Decided(old(source), now, canBuild, result)
      ensures result.Ready? ==> source == Some(result.source)
    {
      hide Encode, Chunks, Pairs, HeaderChunks;
      var h := new Hasher();
      var c := h.ResolveCredentials(keys, creds);
      if c.Err? {
        return NotResolved(c.key);
      }
      var e := h.ResolveEndpointHeaders(headerKeys, headers);
      if e.Err? {
        return NotResolved(e.key);
      }
      var now := TokenSource(c.vals, e.vals);
      StreamIsBoth(Origin(now), h.written);
      var digest := hash(h.written);
      if source.Some? && digest == fingerprint {
        return Ready(source.value);
      }
      if !canBuild(now) {
        return NotBuilt;
      }
      source, fingerprint := Some(now), digest;
      return Ready(now);
    }

    /** How the cached source and the values just resolved decide the outcome. */
    ghost predicate Decided(before: Option<TokenSource>, now: TokenSource, canBuild: TokenSource -> bool,
                            result: Minting)
      requires Listed(Origin(now)) && (before.Some? ==> Listed(Origin(before.value)))
    {
      if before.Some? && hash(Stream(Origin(before.value))) == hash(Stream(Origin(now)))
      then result == Ready(before.value)
      else if canBuild(now) then result == Ready(now)
      else result == NotBuilt
    }
  }

  lemma StreamIsBoth(e: Entry, written: Bytes)
    requires Listed(e)
    requires written == [] + Encode(Pairs(e.keys, e.creds)) + Encode(HeaderChunks(e.headerKeys, e.headers))
    ensures written == Stream(e)
  {
    hide Encode, Pairs, HeaderChunks;
    EncodeConcat(Pairs(e.keys, e.creds), HeaderChunks(e.headerKeys, e.headers));
  }

  /** Without digest collisions a token source is handed out only for the values it was built from. */
  lemma HandedOutIsCurrent(entry: TokenEntry, before: Option<TokenSource>, now: TokenSource,
                           canBuild: TokenSource -> bool, result: Minting)
    requires Listed(entry.Origin(now)) && (before.Some? ==> Listed(entry.Origin(before.value)))
    requires entry.Decided(before, now, canBuild, result)
    requires Prefixable(entry.Origin(now)) && (before.Some? ==> Prefixable(entry.Origin(before.value)))
    requires before.Some? && entry.hash(Stream(entry.Origin(before.value))) == entry.hash(Stream(entry.Origin(now))) ==>
               Stream(entry.Origin(before.value)) == Stream(entry.Origin(now))
    ensures result.Ready? ==> result.source == now
    ensures result.Ready? <==> before == Some(now) || canBuild(now)
  {
    hide Stream;
    if before.Some? {
      ValuesAreTracked(entry.Origin(before.value), entry.Origin(now));
    }
  }
}
