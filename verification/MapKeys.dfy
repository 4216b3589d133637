/**
 Maps by what their keys are (cbor/value.go, rfc8949/decode.go:634-712). Which keys are the same is said
 here without the code's comparison: discrete values by identity, floats of one width by number.
 */
module MapKeys {
  import opened Bytes
  import opened Wire
  import opened Floats
  import opened Values
  import opened KeyOrder
  import opened Encoding
  import opened Decoding
  import opened RoundTrip
  import opened Canonical
  import A = MapAssembly
  import Cursor
  import CborFormat

  // ---------------------------------------------------------------- what a decoded map holds

  /** Equal keys have been read from the same bytes. */
  predicate KeysShareBytes(ins: seq<A.Insertion>) {
    forall j, k | 0 <= j < |ins| && 0 <= k < |ins| :: SameKey(ins[j].key, ins[k].key) ==> ins[j].wire == ins[k].wire
  }

  /** Pair f is the first of its key, and pair k the last. */
  predicate FirstAndLast(ins: seq<A.Insertion>, f: nat, k: nat)
    requires f < |ins| && k < |ins|
  {
    && f <= k && (f == k || SameKey(ins[f].key, ins[k].key))
    && (forall j | 0 <= j < f :: !SameKey(ins[j].key, ins[f].key))
    && (forall j | k < j < |ins| :: !SameKey(ins[f].key, ins[j].key))
  }

  /**
   One entry for each key, with the key as it was read first and the value that was read last, in the order
   of the first readings f.
   */
  predicate LastWrites(entries: seq<MapEntry>, ins: seq<A.Insertion>, f: seq<nat>, l: seq<nat>) {
    && |entries| == |f| == |l|
    && (forall i | 0 <= i < |f| ::
          && f[i] < |ins| && l[i] < |ins| && FirstAndLast(ins, f[i], l[i])
          && entries[i] == MapEntry(ins[f[i]].key, ins[l[i]].value))
    && (forall i, j | 0 <= i < j < |f| :: f[i] < f[j])
    && (forall k | 0 <= k < |ins| :: k in f || exists i | 0 <= i < |f| && f[i] < k ::
        SameKey(ins[f[i]].key, ins[k].key))
  }

  /**
   A decoded map holds one entry for each of its keys, with the last value, unless the index was used
   and one key stands there in different bytes. With the duplicate check no key stands there twice.
   */
  lemma DecodedMapIsLastWrite(src: seq<Byte>, off: nat, h: Head, depth: nat, o: DecodeOpts)
    returns (f: seq<nat>, l: seq<nat>)
    requires off + h.n <= |src| && h.n > 0 && DecodeMap(src, off, h, depth, o).Ok?
    requires A.MapPairs(src, off, h, depth, o).Ok?
    requires A.UsesIndex(h) ==> KeysShareBytes(A.MapPairs(src, off, h, depth, o).value)
    ensures DecodeMap(src, off, h, depth, o).value.Map?
    ensures var ins := A.MapPairs(src, off, h, depth, o).value;
            && LastWrites(DecodeMap(src, off, h, depth, o).value.pairs, ins, f, l)
            && (o.rejectDuplicateKeys ==>
                  forall j, k | 0 <= j < k < |ins| :: !SameKey(ins[j].key, ins[k].key))
  {
    hide DecodeMap, A.MapPairs, SameKey, ValuesEqual, Fnv1a, A.LastWriteWins, A.Distinct, A.Firsts, A.LastOf;
    A.DecodedMapKeepsLast(src, off, h, depth, o);
    var ins := A.MapPairs(src, off, h, depth, o).value;
    var dedup := A.UsesIndex(h);
    A.SameIsSameKey(ins, Fnv1a, dedup);
    forall j, k | 0 <= j < |ins| && 0 <= k < |ins|
      ensures A.Same(ins, Fnv1a, dedup, j, k) <==> SameKey(ins[j].key, ins[k].key)
    {
    }
    f := A.Firsts(ins, Fnv1a, dedup, |ins|);
    l := Lasts(ins, dedup, f);
    KeptIsLastWrite(DecodeMap(src, off, h, depth, o).value.pairs, ins, dedup, f, l);
    if o.rejectDuplicateKeys {
      DistinctKeys(ins, dedup);
    }
  }

  function Lasts(ins: seq<A.Insertion>, dedup: bool, f: seq<nat>): (l: seq<nat>)
    requires forall i | 0 <= i < |f| :: f[i] < |ins|
    ensures |l| == |f| && forall i | 0 <= i < |f| :: l[i] == A.LastOf(ins, Fnv1a, dedup, f[i], |ins|)
  {
    if f == [] then []
    else Lasts(ins, dedup, f[..|f| - 1]) + [A.LastOf(ins, Fnv1a, dedup, f[|f| - 1], |ins|)]
  }

  lemma DistinctKeys(ins: seq<A.Insertion>, dedup: bool)
    requires A.Distinct(ins, Fnv1a, dedup, |ins|)
    requires forall j, k | 0 <= j < |ins| && 0 <= k < |ins| ::
               A.Same(ins, Fnv1a, dedup, j, k) <==> SameKey(ins[j].key, ins[k].key)
    ensures forall j, k | 0 <= j < k < |ins| :: !SameKey(ins[j].key, ins[k].key)
  {
    hide SameKey, A.Same, Fnv1a;
    forall j, k | 0 <= j < k < |ins|
      ensures !SameKey(ins[j].key, ins[k].key)
    {
      assert A.IsFirst(ins, Fnv1a, dedup, k);
      assert !A.Same(ins, Fnv1a, dedup, j, k);
    }
  }

  lemma KeptIsLastWrite(entries: seq<MapEntry>, ins: seq<A.Insertion>, dedup: bool, f: seq<nat>, l: seq<nat>)
    requires f == A.Firsts(ins, Fnv1a, dedup, |ins|) && l == Lasts(ins, dedup, f) && A.KeepsLast(entries, ins, dedup)
    requires forall j, k | 0 <= j < |ins| && 0 <= k < |ins| ::
               A.Same(ins, Fnv1a, dedup, j, k) <==> SameKey(ins[j].key, ins[k].key)
    ensures LastWrites(entries, ins, f, l)
  {
    hide SameKey, A.Same, Fnv1a, A.Firsts, A.LastOf, Lasts;
    forall i | 0 <= i < |f|
      ensures f[i] < |ins| && l[i] < |ins| && FirstAndLast(ins, f[i], l[i])
    {
      assert A.IsFirst(ins, Fnv1a, dedup, f[i]);
    }
    forall k | 0 <= k < |ins| && k !in f
      ensures exists i | 0 <= i < |f| && f[i] < k :: SameKey(ins[f[i]].key, ins[k].key)
    {
      var g := A.Representative(ins, Fnv1a, dedup, k);
      var i :| 0 <= i < |f| && f[i] == g;
    }
  }

  // ---------------------------------------------------------------- maps that come back

  predicate DiscreteKeys(pairs: seq<MapEntry>) {
    forall i | 0 <= i < |pairs| :: IsDiscrete(pairs[i].key)
  }

  predicate DifferentKeys(pairs: seq<MapEntry>) {
    forall i, j | 0 <= i < j < |pairs| :: pairs[i].key != pairs[j].key
  }

  lemma DiscreteNorm(v: Value, e: EncodeOpts)
    requires IsDiscrete(v)
    ensures Norm(v, e) == v
  {
  }

  /** Discrete keys are apart for the decoder exactly if they are different. */
  lemma DiscreteKeysApart(pairs: seq<MapEntry>, e: EncodeOpts)
    requires DiscreteKeys(pairs)
    ensures RoundTrip.KeysApart(pairs, e) <==> DifferentKeys(pairs)
  {
    hide IsDiscrete, Norm, ValuesEqual, Fnv1a, Out;
    forall i, j | 0 <= i < |pairs| && 0 <= j < |pairs|
      ensures Clash(InfoOf(pairs[i], e), InfoOf(pairs[j], e), |pairs| > DEDUP_THRESHOLD) <==>
              pairs[i].key == pairs[j].key
    {
      DiscreteNorm(pairs[i].key, e);
      DiscreteNorm(pairs[j].key, e);
      DiscreteEqual(pairs[i].key, pairs[j].key);
    }
  }

  lemma DiscreteEqual(a: Value, b: Value)
    requires IsDiscrete(a)
    ensures ValuesEqual(a, b) <==> a == b
  {
    hide ValuesEqual;
    ValuesEqualIsSameKey(a, b);
  }

  /**
   An encoded map with discrete keys comes back, in the order it was written in, if and only if it is within the
   limits, its entries come back, and its keys are different. Where nothing is sorted or converted it
   is the map itself.
   */
  lemma DiscreteMapRoundTrip(pairs: seq<MapEntry>, e: EncodeOpts, d: DecodeOpts, rest: seq<Byte>)
    requires DiscreteKeys(pairs) && Enc(Map(pairs), e).Ok() && Sized(Map(pairs))
    ensures var b := Enc(Map(pairs), e).out;
            Decode(b + rest, d) == Decoded.Ok(Norm(Map(pairs), e), |b|) <==>
            && |pairs| <= d.MaxArray() && d.MaxNesting() >= 1
            && (forall i | 0 <= i < |pairs| :: FitsEntry(pairs[i], e, d, 1))
            && DifferentKeys(pairs)
    ensures !e.deterministic && !e.floatMode.Force64? ==> Norm(Map(pairs), e) == Map(pairs)
  {
    hide Enc, Norm, FitsEntry, Decode, Sized, DiscreteKeys, DifferentKeys, RoundTrip.KeysApart;
    DecodeOfEncode(Map(pairs), e, d, rest);
    DiscreteKeysApart(pairs, e);
    if !e.deterministic && !e.floatMode.Force64? {
      NormIsIdentity(Map(pairs), e);
    }
  }

  // ---------------------------------------------------------------- the key a search stops at

  /**
   The search for a map key stops at exactly the items that a decoder without rejections reads as this text,
   if the text is within its limit and not written in chunks; and, for the empty text, also at the reserved
   initial bytes 7c to 7e, which the decoder refuses.
   */
  lemma MatchIsDecodedText(src: seq<Byte>, pos: nat, key: seq<Byte>, depth: nat, o: DecodeOpts)
    requires pos < |src| && !o.rejectNonShortest && !o.rejectInvalidUTF8 && |key| <= o.MaxBytes()
    ensures Cursor.KeyMatches(src, pos, key) <==>
            || (0x7c <= src[pos] <= 0x7e && key == [])
            || (src[pos] != 0x7f
                && DecodeValue(src, pos, depth, o, false) == Ok(TextString(key), pos + ParseHead(src[pos..]).n + |key|))
  {
    hide ParseHead, HalfToDouble, ValidUTF8, DecodeArray, DecodeMap, DecodeTag, DecodeBytes, DecodeOther, DecodeChunks;
    CborFormat.ReadHead(src[pos..]);
    var h := ParseHead(src[pos..]);
    if h.n > 0 && h.major == MAJOR_TEXT && h.ai != AI_INDEFINITE {
      var start := pos + h.n;
      assert Bytes.At(src, start, key) <==> start + |key| <= |src| && src[start..start + |key|] == key;
    } else if h.n > 0 && DecodeValue(src, pos, depth, o, false).Ok?
              && DecodeValue(src, pos, depth, o, false).value.TextString? {
      NotText(src, pos, h, depth, o);
    }
  }

  lemma NotText(src: seq<Byte>, pos: nat, h: Head, depth: nat, o: DecodeOpts)
    requires pos < |src| && h == ParseHead(src[pos..]) && h.n > 0
    requires DecodeValue(src, pos, depth, o, false).Ok? && DecodeValue(src, pos, depth, o, false).value.TextString?
    ensures h.major == MAJOR_TEXT
  {
    hide ParseHead, HalfToDouble, ValidUTF8, DecodeItems, DecodeUntilBreak, DecodePairs, DecodePairsUntilBreak,
         DecodeChunks;
  }
}
