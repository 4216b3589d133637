/**
 Inputs on which an expectation fails. The exact conditions are proved where the expectation belongs;
 here is, for each, one concrete input that the code receives.
 */
module Counterexamples {
  import opened Bytes
  import opened Blocks
  import opened Wire
  import opened Floats
  import opened Values
  import opened KeyOrder
  import opened Encoding
  import D = Decoding
  import opened Decoding
  import opened MapAssembly
  import opened NonMalleable
  import opened Preorder
  import opened Cursor
  import opened WellFormed
  import Canonical
  import opened Octets

  // ---------------------------------------------------------------- heads

  lemma HeadOfOne(src: seq<Byte>, off: nat)
    requires off < |src| && (src[off] % 32 < 24 || src[off] % 32 >= 28)
    ensures ParseHead(src[off..]) ==
            Head(src[off] / 32, src[off] % 32, if src[off] % 32 < 24 then src[off] % 32 else 0, 1)
  {
  }

  lemma HeadOfTwo(src: seq<Byte>, off: nat)
    requires off + 1 < |src| && src[off] % 32 == AI_1BYTE
    ensures ParseHead(src[off..]) == Head(src[off] / 32, AI_1BYTE, src[off + 1], 2)
  {
    assert src[off..][1..2] == [src[off + 1]];
    assert [src[off + 1]][..0] == [];
  }

  lemma HeadOfThree(src: seq<Byte>, off: nat)
    requires off + 2 < |src| && src[off] % 32 == AI_2BYTES
    ensures ParseHead(src[off..]) == Head(src[off] / 32, AI_2BYTES, (src[off + 1] as int) * 256 + src[off + 2], 3)
  {
    var s := [src[off + 1], src[off + 2]];
    assert src[off..][1..3] == s;
    assert [src[off + 1]][..0] == [] && FromBE([src[off + 1]]) == src[off + 1];
    assert s[..1] == [src[off + 1]] && FromBE(s) == FromBE(s[..1]) * 256 + s[1];
  }

  /** What Decode does with a head. */
  lemma AtRoot(src: seq<Byte>, h: Head, o: DecodeOpts)
    requires src != [] && ParseHead(src[0..]) == h && h.n > 0 && !Reserved(h)
    ensures Overlong(h, o) ==> D.Decode(src, o) == Err(NonShortest, 0)
    ensures !Overlong(h, o) && h.major == MAJOR_MAP ==> D.Decode(src, o) == D.DecodeMap(src, 0, h, 0, o)
    ensures !Overlong(h, o) && h.major == MAJOR_OTHER ==> D.Decode(src, o) == D.DecodeOther(0, h, o)
  {
    hide ParseHead, D.DecodeMap, D.DecodeBytes, D.DecodeText, D.DecodeArray, D.DecodeTag, D.DecodeOther, Overlong;
  }

  // ---------------------------------------------------------------- decoding what was encoded

  /** Tag 55799 at the root is stripped: the tag around 0 comes back as 0. */
  lemma RootTagIsStripped()
    ensures Enc(Tag(SELF_DESCRIBE, Uint(0)), PERMISSIVE) == Done([0xd9, 0xd9, 0xf7, 0x00])
    ensures D.Decode([0xd9, 0xd9, 0xf7, 0x00], DEFAULT) == Ok(Uint(0), 4)
  {
    hide ParseHead;
    var src := [0xd9, 0xd9, 0xf7, 0x00];
    HeadOfThree(src, 0);
    HeadOfOne(src, 3);
    assert BE(55799, 2) == [0xd9, 0xf7];
    assert D.DecodeValue(src, 3, 0, DEFAULT, true) == Ok(Uint(0), 4);
  }

  /** Simple values 24 to 31 are written in two bytes that are refused under all options. */
  lemma SimpleIsRefused(o: DecodeOpts)
    ensures Enc(Simple(24), PERMISSIVE) == Done([0xf8, 24]) && D.Decode([0xf8, 24], o) == Err(NonShortest, 0)
  {
    hide ParseHead, D.Decode;
    HeadOfTwo([0xf8, 24], 0);
    AtRoot([0xf8, 24], Head(MAJOR_OTHER, AI_1BYTE, 24, 2), o);
  }

  /** The shortest form of 0.0 is refused by RejectNonShortest, which takes its bits for an argument. */
  lemma HalfZeroIsRefused()
    ensures Enc(Float64(0), CORE_DETERMINISTIC) == Done([0xf9, 0, 0])
    ensures D.Decode([0xf9, 0, 0], DEFAULT.(rejectNonShortest := true)) == Err(NonShortest, 0)
  {
    hide ParseHead, D.Decode, Enc;
    HeadOfThree([0xf9, 0, 0], 0);
    AtRoot([0xf9, 0, 0], Head(MAJOR_OTHER, AI_2BYTES, 0, 3), DEFAULT.(rejectNonShortest := true));
    ZeroIsHalf();
  }

  lemma ZeroIsHalf()
    ensures Enc(Float64(0), CORE_DETERMINISTIC) == Done([0xf9, 0, 0])
  {
    hide ShortestWire;
    ZeroWire();
    assert BE(0, 2) == [0, 0];
  }

  lemma ZeroWire()
    ensures ShortestWire(0) == W16(0)
  {
    hide NarrowExact, CheckHalf, Shr, Shl;
    assert IsZero64(0) && !IsNaN64(0) && !IsInf64(0) && !Neg64(0);
    assert EncodeFloat16(0) == Some(Bits16(false, 0, 0));
  }

  // ---------------------------------------------------------------- shortcuts

  /** A short string over the limit is refused, but not as an element of an array. */
  lemma ElementEscapesLimit()
    ensures var o := DEFAULT.(maxByteStringLength := 1);
            && D.Decode([0x62, 0x61, 0x62], o) == Err(MaxByteStringLength, 0)
            && D.Decode([0x81, 0x62, 0x61, 0x62], o) == Ok(Array([TextString([0x61, 0x62])]), 4)
  {
    hide ParseHead, ValidUTF8;
    var o := DEFAULT.(maxByteStringLength := 1);
    HeadOfOne([0x62, 0x61, 0x62], 0);
    var src := [0x81, 0x62, 0x61, 0x62];
    HeadOfOne(src, 0);
    assert ShortStringAt(src, 1, MAJOR_TEXT) && src[2..4] == [0x61, 0x62];
    var v := TextString([0x61, 0x62]);
    assert D.DecodeElement(src, 1, 1, o) == Ok(v, 4);
    assert [] + [v] == [v];
    assert D.DecodeItems(src, 4, 0, [v], 1, o) == Ok([v], 4);
    assert D.DecodeItems(src, 1, 1, [], 1, o) == Ok([v], 4);
    assert D.DecodeArray(src, 0, Head(MAJOR_ARRAY, 1, 1, 1), 0, o) == Ok(Array([v]), 4);
  }

  /** Invalid text is refused by the encoder, but not as an element of an array. */
  lemma ElementEscapesCheck()
    ensures Enc(TextString([0xff]), CORE_DETERMINISTIC) == Fail(EncodeError.InvalidUTF8)
    ensures Enc(Array([TextString([0xff])]), CORE_DETERMINISTIC) == Done([0x81, 0x61, 0xff])
  {
    var items := [TextString([0xff])];
    assert items[1..] == [];
    assert EncInline(items[0], CORE_DETERMINISTIC) == Done([0x61, 0xff]);
  }

  /** The encoder writes the map of one entry whose key is invalid text; its order cannot be precomputed. */
  lemma SingletonEscapesCheck()
    ensures var m := [MapEntry(TextString([0xff]), Uint(0))];
            && Precomputed(KeysOf(m), BytewiseLex, CORE_DETERMINISTIC) == Failure(EncodeError.InvalidUTF8)
            && Enc(Map(m), CORE_DETERMINISTIC) == Done([0xa1, 0x61, 0xff, 0x00])
  {
    var e := MapEntry(TextString([0xff]), Uint(0));
    OneEntry(e, CORE_DETERMINISTIC);
    OneKey(MapEntry(e.key, Invalid), CORE_DETERMINISTIC);
    assert KeysOf([e]) == [e.key] && KeyEntries([e.key]) == [MapEntry(e.key, Invalid)];
    assert EncInline(e.key, CORE_DETERMINISTIC) == Done([0x61, 0xff]);
  }

  // ---------------------------------------------------------------- strict input

  const STRICT := DEFAULT.(rejectIndefinite := true, rejectNonShortest := true, rejectDuplicateKeys := true)

  /** Under strict options additional information 31 is read as the integer 0. */
  lemma OpenEndedInteger()
    ensures D.Decode([0x1f], STRICT) == Ok(Uint(0), 1) && Enc(Uint(0), PERMISSIVE) == Done([0x00])
  {
    hide ParseHead;
    HeadOfOne([0x1f], 0);
  }

  /** Under strict options the half-precision 1.0 is accepted; written back it takes nine bytes. */
  lemma HalfIsWidened()
    ensures var v := Float64(HalfToDouble(0x3c00));
            D.Decode([0xf9, 0x3c, 0x00], STRICT) == Ok(v, 3) && Enc(v, KEEP).Ok() && |Enc(v, KEEP).out| == 9
  {
    hide ParseHead, D.Decode, D.DecodeOther, HalfToDouble, Enc;
    HeadOfThree([0xf9, 0x3c, 0x00], 0);
    AtRoot([0xf9, 0x3c, 0x00], Head(MAJOR_OTHER, AI_2BYTES, 0x3c00, 3), STRICT);
    HalfItem(0x3c00);
    DoubleTakesNine(HalfToDouble(0x3c00));
  }

  lemma HalfItem(half: U16)
    ensures D.DecodeOther(0, Head(MAJOR_OTHER, AI_2BYTES, half, 3), STRICT) == Ok(Float64(HalfToDouble(half)), 3)
  {
    hide HalfToDouble;
  }

  lemma DoubleTakesNine(bits: U64)
    ensures Enc(Float64(bits), KEEP).Ok() && |Enc(Float64(bits), KEEP).out| == 9
  {
    hide BE, ShortestWire, IsFinite64;
  }

  // ---------------------------------------------------------------- equal keys

  const ZERO_KEYS: seq<Byte> := [0xa2, 0xfb, 0, 0, 0, 0, 0, 0, 0, 0, 0xf6, 0xfb, 0x80, 0, 0, 0, 0, 0, 0, 0, 0xf7]

  lemma ZerosInBytes()
    ensures BE(0, 8) == [0, 0, 0, 0, 0, 0, 0, 0] && BE(P63, 8) == [0x80, 0, 0, 0, 0, 0, 0, 0]
  {
    assert BE(0, 1) == [0] && BE(0x80, 1) == [0x80];
    assert BE(0, 2) == [0, 0] && BE(0x8000, 2) == [0x80, 0];
    assert BE(0, 3) == [0, 0, 0] && BE(0x80_0000, 3) == [0x80, 0, 0];
    assert BE(0, 4) == [0, 0, 0, 0] && BE(0x8000_0000, 4) == [0x80, 0, 0, 0];
    assert BE(0, 5) == [0, 0, 0, 0, 0] && BE(0x80_0000_0000, 5) == [0x80, 0, 0, 0, 0];
    assert BE(0, 6) == [0, 0, 0, 0, 0, 0] && BE(0x8000_0000_0000, 6) == [0x80, 0, 0, 0, 0, 0];
    assert BE(0, 7) == [0, 0, 0, 0, 0, 0, 0] && BE(0x80_0000_0000_0000, 7) == [0x80, 0, 0, 0, 0, 0, 0];
  }

  lemma DoubleHead(src: seq<Byte>, pos: nat, bits: U64)
    requires pos + 9 <= |src| && src[pos] == FLOAT64_MARKER && src[pos + 1..pos + 9] == BE(bits, 8)
    ensures ParseHead(src[pos..]) == Head(MAJOR_OTHER, AI_8BYTES, bits, 9)
  {
    hide BE, FromBE;
    BEParts(bits);
    assert src[pos..][1..9] == src[pos + 1..pos + 9];
  }

  /** A double stands at pos as a key. */
  lemma DoubleKeyAt(src: seq<Byte>, pos: nat, bits: U64)
    requires pos + 9 <= |src| && src[pos] == FLOAT64_MARKER && src[pos + 1..pos + 9] == BE(bits, 8)
    ensures D.DecodeKey(src, pos, 1, DEFAULT) == Ok(Float64(bits), pos + 9)
  {
    hide ParseHead, BE, ValidUTF8, D.DecodeBytes, D.DecodeText, D.DecodeArray, D.DecodeMap, D.DecodeTag;
    DoubleHead(src, pos, bits);
  }

  lemma NullAt(src: seq<Byte>, pos: nat)
    requires pos < |src| && src[pos] == SIMPLE_NULL
    ensures forall depth: nat, o :: D.DecodeValue(src, pos, depth, o, false) == Ok(Null, pos + 1)
  {
    hide ParseHead, D.DecodeBytes, D.DecodeText, D.DecodeArray, D.DecodeMap, D.DecodeTag;
    HeadOfOne(src, pos);
  }

  lemma UndefinedAt(src: seq<Byte>, pos: nat)
    requires pos < |src| && src[pos] == SIMPLE_UNDEFINED
    ensures D.DecodeValue(src, pos, 1, DEFAULT, false) == Ok(Undefined, pos + 1)
  {
    hide ParseHead, D.DecodeBytes, D.DecodeText, D.DecodeArray, D.DecodeMap, D.DecodeTag;
    HeadOfOne(src, pos);
  }

  /** 0.0 to null and -0.0 to undefined: two keys of different bytes, one entry with the last value. */
  lemma ZeroKeysAreOne()
    ensures D.Decode(ZERO_KEYS, DEFAULT) == Ok(Map([MapEntry(Float64(0), Undefined)]), 21)
  {
    hide ParseHead, BE, D.Decode, D.DecodeKey, D.DecodeValue;
    var src := ZERO_KEYS;
    ZerosInBytes();
    DoubleKeyAt(src, 1, 0);
    NullAt(src, 10);
    DoubleKeyAt(src, 11, P63);
    UndefinedAt(src, 20);
    HeadOfOne(src, 0);
    ZeroPairs(src);
  }

  lemma ZeroPairs(src: seq<Byte>)
    requires |src| == 21 && ParseHead(src[0..]) == Head(MAJOR_MAP, 2, 2, 1)
    requires D.DecodeKey(src, 1, 1, DEFAULT) == Ok(Float64(0), 10)
             && D.DecodeKey(src, 11, 1, DEFAULT) == Ok(Float64(P63), 20)
    requires D.DecodeValue(src, 10, 1, DEFAULT, false) == Ok(Null, 11)
    requires D.DecodeValue(src, 20, 1, DEFAULT, false) == Ok(Undefined, 21)
    ensures D.Decode(src, DEFAULT) == Ok(Map([MapEntry(Float64(0), Undefined)]), 21)
  {
    hide ParseHead, D.Decode, D.DecodeValue, D.DecodeKey, Fnv1a;
    AtRoot(src, Head(MAJOR_MAP, 2, 2, 1), DEFAULT);
    var e, e' := MapEntry(Float64(0), Null), MapEntry(Float64(0), Undefined);
    var first, second := D.Pairs([e], [Fnv1a(src[1..10])]), D.Pairs([e'], [Fnv1a(src[1..10])]);
    assert [] + [e] == [e] && [] + [Fnv1a(src[1..10])] == [Fnv1a(src[1..10])] && [e][0 := e'] == [e'];
    assert D.MapInsert(NO_PAIRS, Float64(0), Null, Fnv1a(src[1..10]), false, false) == Some(first);
    assert ValuesEqual(Float64(0), Float64(P63));
    assert D.FindKey(first, 0, Float64(P63), Fnv1a(src[11..20]), false) == Some(0);
    assert D.MapInsert(first, Float64(P63), Undefined, Fnv1a(src[11..20]), false, false) == Some(second);
    assert D.DecodePair(src, 1, D.DecodeKey(src, 1, 1, DEFAULT), NO_PAIRS, false, 1, DEFAULT) == Ok(first, 11);
    assert D.DecodePair(src, 11, D.DecodeKey(src, 11, 1, DEFAULT), first, false, 1, DEFAULT) == Ok(second, 21);
    assert D.DecodePairs(src, 21, 0, second, false, 1, DEFAULT) == Ok(second, 21);
    assert D.DecodePairs(src, 11, 1, first, false, 1, DEFAULT) == Ok(second, 21);
    assert D.DecodePairs(src, 1, 2, NO_PAIRS, false, 1, DEFAULT) == Ok(second, 21);
  }

  // ---------------------------------------------------------------- the limit of open-ended maps

  const TWO_ENTRIES := DEFAULT.(maxArrayLength := 2)

  /** An open-ended map of three pairs, all 0 to 0. */
  const THREE_PAIRS: seq<Byte> := [0xbf, 0, 0, 0, 0, 0, 0, 0xff]

  lemma ZeroAt(src: seq<Byte>, pos: nat)
    requires pos < |src| && src[pos] == 0
    ensures D.DecodeValue(src, pos, 1, TWO_ENTRIES, false) == Ok(Uint(0), pos + 1)
    ensures Extent(src, pos, 1, Limits(TWO_ENTRIES)) == Some(pos + 1)
  {
    hide ParseHead, D.DecodeBytes, D.DecodeText, D.DecodeArray, D.DecodeMap, D.DecodeTag;
    HeadOfOne(src, pos);
  }

  /** The pair 0 to 0, and once more, is one entry. */
  lemma ZeroPair(src: seq<Byte>, pos: nat, m: D.Pairs)
    requires pos + 1 < |src| && src[pos] == 0 && src[pos + 1] == 0
    requires m.Valid() && (m == NO_PAIRS || m.entries == [MapEntry(Uint(0), Uint(0))])
    ensures var r := D.DecodePair(src, pos, D.DecodeValue(src, pos, 1, TWO_ENTRIES, false), m, false, 1, TWO_ENTRIES);
            r.Ok? && r.value.entries == [MapEntry(Uint(0), Uint(0))] && r.next == pos + 2
    ensures ExtentItems(src, pos, 2, 1, Limits(TWO_ENTRIES)) == Some(pos + 2)
  {
    hide D.DecodeValue, Extent, Fnv1a;
    ZeroAt(src, pos);
    ZeroAt(src, pos + 1);
    TwoItems(src, pos, 1, Limits(TWO_ENTRIES));
    var e := MapEntry(Uint(0), Uint(0));
    assert [] + [e] == [e] && [e][0 := e] == [e];
    if m != NO_PAIRS {
      assert D.KeyHit(m, 0, Uint(0), Fnv1a(src[pos..pos + 1]), false);
    }
  }

  /** With room for two entries three pairs of one key are accepted, as one entry; three pairs exceed the limit. */
  lemma OpenMapCountsKeys()
    ensures RejectsNothing(TWO_ENTRIES) && Payload(THREE_PAIRS, 0) == 0
    ensures D.Decode(THREE_PAIRS, TWO_ENTRIES) == Ok(Map([MapEntry(Uint(0), Uint(0))]), 8)
    ensures Extent(THREE_PAIRS, 0, 0, Limits(TWO_ENTRIES)).None? && Extent(THREE_PAIRS, 0, 0, LENIENT) == Some(8)
  {
    hide ParseHead, D.Decode, D.DecodePair, D.DecodeValue, ExtentItems;
    var src, o, g := THREE_PAIRS, TWO_ENTRIES, Limits(TWO_ENTRIES);
    HeadOfOne(src, 0);
    AtRoot(src, Head(MAJOR_MAP, AI_INDEFINITE, 0, 1), o);
    ZeroPair(src, 1, NO_PAIRS);
    var first := D.DecodePair(src, 1, D.DecodeValue(src, 1, 1, o, false), NO_PAIRS, false, 1, o).value;
    ZeroPair(src, 3, first);
    var second := D.DecodePair(src, 3, D.DecodeValue(src, 3, 1, o, false), first, false, 1, o).value;
    ZeroPair(src, 5, second);
    var third := D.DecodePair(src, 5, D.DecodeValue(src, 5, 1, o, false), second, false, 1, o).value;
    assert D.DecodePairsUntilBreak(src, 7, third, 1, o) == Ok(third, 8);
    assert D.DecodePairsUntilBreak(src, 5, second, 1, o) == Ok(third, 8);
    assert D.DecodePairsUntilBreak(src, 3, first, 1, o) == Ok(third, 8);
    assert D.DecodePairsUntilBreak(src, 1, NO_PAIRS, 1, o) == Ok(third, 8);
    AcceptedIsWellFormed(src, o);
    assert ExtentUntilBreak(src, 5, 2, true, 1, g).None?;
    assert ExtentUntilBreak(src, 3, 1, true, 1, g).None?;
    assert ExtentUntilBreak(src, 1, 0, true, 1, g).None?;
  }

  // ---------------------------------------------------------------- the index of large maps

  /** The pairs k to null up to 16 to null. */
  function Rest(k: nat): (s: seq<Byte>)
    requires k <= 17
    ensures |s| == 2 * (17 - k)
    decreases 17 - k
  {
    if k == 17 then [] else [k, SIMPLE_NULL] + Rest(k + 1)
  }

  function RestRead(k: nat): (ins: seq<Insertion>)
    requires k <= 17
    ensures |ins| == 17 - k && forall i | 0 <= i < |ins| :: ins[i] == Insertion(Uint(k + i), Null, [k + i])
    decreases 17 - k
  {
    if k == 17 then [] else [Insertion(Uint(k), Null, [k])] + RestRead(k + 1)
  }

  /** A map of 17 pairs: the key 1 in one byte, the key 1 in two bytes, and the keys 2 to 16, all to null. */
  function KeyTwice(): (s: seq<Byte>)
    ensures |s| == 36
  {
    [0xb1, 0x01, SIMPLE_NULL, 0x18, 0x01, SIMPLE_NULL] + Rest(2)
  }

  const REJECT := DEFAULT.(rejectDuplicateKeys := true)

  /** The same two keys in a map of two pairs. */
  const KEY_TWICE: seq<Byte> := [0xa2, 0x01, SIMPLE_NULL, 0x18, 0x01, SIMPLE_NULL]

  lemma SmallKey(src: seq<Byte>, pos: nat)
    requires pos < |src| && src[pos] < 24
    ensures D.DecodeKey(src, pos, 1, REJECT) == Ok(Uint(src[pos]), pos + 1)
  {
    hide ParseHead, ValidUTF8;
    HeadOfOne(src, pos);
  }

  lemma TwoByteKey(src: seq<Byte>, pos: nat)
    requires pos + 1 < |src| && src[pos] == 0x18
    ensures D.DecodeKey(src, pos, 1, REJECT) == Ok(Uint(src[pos + 1]), pos + 2)
  {
    hide ParseHead, ValidUTF8;
    HeadOfTwo(src, pos);
  }

  lemma {:induction false} RestIsRead(src: seq<Byte>, pos: nat, k: nat)
    requires k <= 17 && pos <= |src| && src[pos..] == Rest(k)
    ensures ReadPairs(src, pos, 17 - k, 1, REJECT) == Ok(RestRead(k), |src|)
    decreases 17 - k
  {
    hide D.DecodeKey, D.DecodeValue;
    if k < 17 {
      assert src[pos] == src[pos..][0] && src[pos + 1] == src[pos..][1];
      assert src[pos + 2..] == src[pos..][2..] == Rest(k + 1);
      SmallKey(src, pos);
      NullAt(src, pos + 1);
      assert src[pos..pos + 1] == [k];
      RestIsRead(src, pos + 2, k + 1);
    }
  }

  /** The pairs that are read from both maps start with the key 1 twice. */
  function ReadTwice(rest: seq<Insertion>): seq<Insertion> {
    [Insertion(Uint(1), Null, [0x01]), Insertion(Uint(1), Null, [0x18, 0x01])] + rest
  }

  lemma TwoAreRead(src: seq<Byte>, count: nat)
    requires |src| >= 6 && src[1..6] == [0x01, SIMPLE_NULL, 0x18, 0x01, SIMPLE_NULL] && count >= 2
    requires ReadPairs(src, 6, count - 2, 1, REJECT).Ok?
    ensures var rest := ReadPairs(src, 6, count - 2, 1, REJECT);
            ReadPairs(src, 1, count, 1, REJECT) == Ok(ReadTwice(rest.value), rest.next)
  {
    hide D.DecodeKey, D.DecodeValue;
    assert src[1] == src[1..6][0] && src[2] == src[1..6][1] && src[3] == src[1..6][2];
    assert src[4] == src[1..6][3] && src[5] == src[1..6][4];
    SmallKey(src, 1);
    NullAt(src, 2);
    TwoByteKey(src, 3);
    NullAt(src, 5);
    assert src[1..2] == [0x01] && src[3..5] == [0x18, 0x01];
    var rest := ReadPairs(src, 6, count - 2, 1, REJECT);
    var second := Insertion(Uint(1), Null, [0x18, 0x01]);
    assert ReadPairs(src, 3, count - 1, 1, REJECT) == Ok([second] + rest.value, rest.next);
    assert ReadTwice(rest.value) == [Insertion(Uint(1), Null, [0x01])] + ([second] + rest.value);
  }

  // ---------------------------------------------------------------- the two hashes

  /** The low bits of an exclusive or do not depend on how many more there are. */
  lemma {:induction false} XorHigh(x: nat, y: nat, k: nat, n: nat) returns (h: nat)
    requires k <= n
    ensures XorBits(x, y, n) == XorBits(x, y, k) + Pow2(k) * h
  {
    if k == 0 {
      h := XorBits(x, y, n);
    } else {
      h := XorHigh(x / 2, y / 2, k - 1, n - 1);
      assert Pow2(k) * h == 2 * (Pow2(k - 1) * h);
    }
  }

  /** Nor does it look at the higher bits of its arguments. */
  lemma {:induction false} XorPeriod(x: nat, y: nat, k: nat, h: nat)
    ensures XorBits(x + Pow2(k) * h, y, k) == XorBits(x, y, k)
  {
    if k > 0 {
      var t := Pow2(k - 1) * h;
      assert Pow2(k) * h == 2 * t;
      assert (x + 2 * t) / 2 == x / 2 + t && (x + 2 * t) % 2 == x % 2;
      XorPeriod(x / 2, y / 2, k - 1, h);
    }
  }

  lemma Mod256(a: int, k: int)
    ensures (a + 256 * k) % 256 == a % 256
  {
  }

  lemma Pow2Of8()
    ensures Pow2(8) == 256
  {
  }

  lemma XorSplit(x: nat, y: Byte, n: nat) returns (h: nat)
    requires n >= 8
    ensures XorBits(x, y, n) == XorBits(x % 256, y, 8) + 256 * h
  {
    hide XorBits, Pow2;
    Pow2Of8();
    h := XorHigh(x, y, 8, n);
    XorPeriod(x % 256, y, 8, x / 256);
    assert x == x % 256 + Pow2(8) * (x / 256);
  }

  lemma XorLowByte(x: nat, y: Byte, n: nat)
    requires n >= 8
    ensures XorBits(x, y, n) % 256 == XorByte(x % 256, y)
  {
    hide XorBits, XorByte;
    var h := XorSplit(x, y, n);
    XorByteIs(x % 256, y);
    Mod256(XorByte(x % 256, y), h);
  }

  lemma XorByteIs(x: Byte, y: Byte)
    ensures XorByte(x, y) == XorBits(x, y, 8)
  {
    hide XorBits;
  }

  lemma LowProduct(x: nat)
    ensures x * FNV_PRIME % 0x1_0000_0000_0000_0000 % 256 == (x % 256) * 0xb3 % 256
  {
    var prod, l, u := x * FNV_PRIME, x % 256, x / 256;
    var t := prod / 0x1_0000_0000_0000_0000;
    Mod256(prod, -0x100_0000_0000_0000 * t);
    Mod256(l * FNV_PRIME, u * FNV_PRIME);
    Mod256(l * 0xb3, l * (FNV_PRIME / 256));
  }

  /** The low byte of the hash after one more byte. */
  lemma HashLowByte(b: seq<Byte>, last: Byte)
    ensures Fnv1a(b + [last]) % 256 == XorByte(Fnv1a(b) % 256, last) * 0xb3 % 256
  {
    hide XorByte, XorBits;
    assert (b + [last])[..|b|] == b;
    XorLowByte(Fnv1a(b), last, 64);
    LowProduct(XorBits(Fnv1a(b), last, 64));
  }

  /** The integer 1 in one byte and in two has two hashes: their low bytes are 0x2c and 0x12. */
  lemma HashesOfOne()
    ensures Fnv1a([0x01]) != Fnv1a([0x18, 0x01])
  {
    hide Fnv1a, XorByte;
    EmptyHash();
    LowXors();
    HashLowByte([], 0x01);
    HashLowByte([], 0x18);
    HashLowByte([0x18], 0x01);
    assert [] + [0x01] == [0x01] && [] + [0x18] == [0x18] && [0x18] + [0x01] == [0x18, 0x01];
  }

  lemma LowXors()
    ensures XorByte(0x25, 0x01) == 0x24 && XorByte(0x25, 0x18) == 0x3d && XorByte(0xa7, 0x01) == 0xa6
  {
    assert XorBits(0, 0, 2) == 0 && XorBits(1, 0, 3) == 1 && XorBits(2, 1, 4) == 3 && XorBits(4, 3, 5) == 7;
    assert XorBits(9, 6, 6) == 15 && XorBits(18, 12, 7) == 30 && XorBits(0x25, 0x18, 8) == 0x3d;
    KeepsBits(18, 7);
    KeepsBits(83, 7);
  }

  lemma EmptyHash()
    ensures Fnv1a([]) % 256 == 0x25
  {
  }

  // ---------------------------------------------------------------- a key that stands twice

  /** No two of the pairs are taken for one key: the first two have different hashes, the others differ. */
  lemma TwiceIsDistinct()
    ensures Assemble(ReadTwice(RestRead(2)), Fnv1a, true, true).Some?
  {
    hide Fnv1a, Assemble;
    var ins := ReadTwice(RestRead(2));
    HashesOfOne();
    forall j, k | 0 <= j < k < |ins|
      ensures !Same(ins, Fnv1a, true, j, k)
    {
      if k >= 2 {
        assert ins[k] == RestRead(2)[k - 2];
        if j >= 2 {
          assert ins[j] == RestRead(2)[j - 2];
        }
      }
    }
    RejectingMapIsDistinct(ins, Fnv1a, true);
  }

  /**
   With the duplicate check on, a map of 17 pairs that holds the key 1 in one byte and in two bytes is
   accepted, and has the key 1 twice; a map of just these two pairs is refused.
   */
  lemma IndexMissesDuplicate()
    ensures var d := D.Decode(KeyTwice(), REJECT);
            && d.Ok? && d.next == 36 && d.value.Map? && |d.value.pairs| == 17
            && d.value.pairs[0].key == Uint(1) && d.value.pairs[1].key == Uint(1)
    ensures var d := D.Decode(KEY_TWICE, REJECT); d.Err? && d.error == DuplicateMapKey
  {
    hide ParseHead, D.Decode, D.DecodeMap, ReadPairs, Assemble, Fnv1a, Rest, RestRead, MapAssembly.Distinct, KeepsLast;
    var src := KeyTwice();
    var h := Head(MAJOR_MAP, 17, 17, 1);
    HeadOfOne(src, 0);
    AtRoot(src, h, REJECT);
    assert src[6..] == Rest(2);
    RestIsRead(src, 6, 2);
    TwoAreRead(src, 17);
    TwiceIsDistinct();
    DecodedMapIsAssembly(src, 0, h, 0, REJECT);
    DecodedMapKeepsLast(src, 0, h, 0, REJECT);
    ShortIsRefused();
  }

  lemma ShortIsRefused()
    ensures var d := D.Decode(KEY_TWICE, REJECT); d.Err? && d.error == DuplicateMapKey
  {
    hide ParseHead, D.Decode, D.DecodeMap, Assemble, Fnv1a, D.DecodeKey, D.DecodeValue;
    var src := KEY_TWICE;
    var h := Head(MAJOR_MAP, 2, 2, 1);
    HeadOfOne(src, 0);
    AtRoot(src, h, REJECT);
    assert ReadPairs(src, 6, 0, 1, REJECT) == Ok([], 6);
    TwoAreRead(src, 2);
    var ins := ReadTwice([]);
    assert Same(ins, Fnv1a, false, 0, 1);
    RejectingMapIsDistinct(ins, Fnv1a, false);
    DecodedMapIsAssembly(src, 0, h, 0, REJECT);
  }

  // ---------------------------------------------------------------- the cursor

  /** An open-ended map of one pair: after finding its key, leaving the map runs past its break. */
  lemma ExitRunsPast()
    ensures var src := [0xbf, 0x61, 0x61, 0x00, 0xff];
            && SkipItem(src, 0) == Step.At(5)
            && FindAt(src, 1, Frame(-1, true), [0x61]) == Search(3, -1, None)
            && SkipRemaining(src, 3, Frame(-1, true)) == Stuck(5, TooShort)
  {
    hide ParseHead, SkipString, SkipItems;
    var src := [0xbf, 0x61, 0x61, 0x00, 0xff];
    HeadOfOne(src, 0);
    HeadOfOne(src, 1);
    HeadOfOne(src, 3);
    HeadOfOne(src, 4);
    assert SkipItem(src, 1) == Step.At(3);
    assert SkipItem(src, 3) == Step.At(4);
    assert SkipItem(src, 4) == Step.At(5);
    TwoSkipped(src, 1);
    TwoSkipped(src, 3);
    ExitSteps(src);
  }

  lemma ExitSteps(src: seq<Byte>)
    requires src == [0xbf, 0x61, 0x61, 0x00, 0xff] && ParseHead(src[0..]) == Head(MAJOR_MAP, AI_INDEFINITE, 0, 1)
    requires ParseHead(src[1..]) == Head(MAJOR_TEXT, 1, 1, 1)
    requires SkipItems(src, 1, 2) == Step.At(4) && SkipItems(src, 3, 2) == Step.At(5)
    ensures SkipItem(src, 0) == Step.At(5)
    ensures FindAt(src, 1, Frame(-1, true), [0x61]) == Search(3, -1, None)
    ensures SkipRemaining(src, 3, Frame(-1, true)) == Stuck(5, TooShort)
  {
    hide ParseHead, SkipString, SkipItems;
    assert SkipUntilBreak(src, 4, true) == Step.At(5);
    assert SkipUntilBreak(src, 5, true) == Stuck(5, TooShort);
    assert SkipUntilBreak(src, 3, true) == SkipUntilBreak(src, 5, true);
    assert src[2..3] == [0x61];
  }

  /** The search for the empty key stops at a reserved initial byte, which no options let the decoder accept. */
  lemma EmptyKeyIsFoundEarly(o: DecodeOpts)
    ensures KeyMatches([0x7c], 0, []) && FindAt([0x7c], 0, Frame(2, true), []) == Search(1, 1, None)
    ensures D.Decode([0x7c], o) == Err(ReservedAI, 0)
  {
    hide ParseHead;
    HeadOfOne([0x7c], 0);
    assert [0x7c][1..1] == [];
  }

  // ---------------------------------------------------------------- modes

  /** The keys 100 and -1 are written in one order by the core mode, and in the other by the canonical mode. */
  lemma ModesOrderDifferently()
    ensures var m := Map([MapEntry(Uint(100), Null), MapEntry(NegInt(0), Null)]);
            && Enc(m, CORE_DETERMINISTIC) == Done([0xa2, 0x18, 0x64, 0xf6, 0x20, 0xf6])
            && Enc(m, CANONICAL) == Done([0xa2, 0x20, 0xf6, 0x18, 0x64, 0xf6])
  {
    var a, b := MapEntry(Uint(100), Null), MapEntry(NegInt(0), Null);
    ModeOrder(a, b, CORE_DETERMINISTIC, [0, 1]);
    ModeOrder(a, b, CANONICAL, [1, 0]);
  }

  lemma ModeOrder(a: MapEntry, b: MapEntry, o: EncodeOpts, order: seq<nat>)
    requires a == MapEntry(Uint(100), Null) && b == MapEntry(NegInt(0), Null) && o.deterministic
    requires order == if o.sortMode.LengthFirst? then [1, 0] else [0, 1]
    ensures Enc(Map([a, b]), o) ==
            Done([0xa2] + if o.sortMode.LengthFirst? then [0x20, 0xf6, 0x18, 0x64, 0xf6]
                 else [0x18, 0x64, 0xf6, 0x20, 0xf6])
  {
    var keys: seq<seq<Byte>> := [[0x18, 0x64], [0x20]];
    hide Enc, EncKeys, SortedOrder, EncOrdered;
    TwoKeys(a, b, o);
    TwoSorted(o.sortMode);
    Written(a, b, keys, order, o);
    SortedMap([a, b], keys, order, o);
    if o.sortMode.LengthFirst? {
      assert keys[1] + [0xf6] + keys[0] + [0xf6] == [0x20, 0xf6, 0x18, 0x64, 0xf6];
    } else {
      assert keys[0] + [0xf6] + keys[1] + [0xf6] == [0x18, 0x64, 0xf6, 0x20, 0xf6];
    }
  }

  lemma SortedMap(m: seq<MapEntry>, keys: seq<seq<Byte>>, order: seq<nat>, o: EncodeOpts)
    requires |m| == |keys| == 2 && o.deterministic && EncKeys(m, o) == EncodedKeys(keys, None)
    requires SortedOrder(o.sortMode, keys) == order && EncOrdered(m, keys, order, o).Ok()
    ensures Enc(Map(m), o) == Done([0xa2] + EncOrdered(m, keys, order, o).out)
  {
    hide EncKeys, SortedOrder, EncOrdered;
  }

  lemma TwoKeys(a: MapEntry, b: MapEntry, o: EncodeOpts)
    requires a.key == Uint(100) && b.key == NegInt(0)
    ensures EncKeys([a, b], o) == EncodedKeys([[0x18, 0x64], [0x20]], None)
  {
    assert BE(100, 1) == [100] && HeadBytes(MAJOR_UINT, 100) == [0x18, 0x64] && HeadBytes(MAJOR_NEGINT, 0) == [0x20];
    assert [a, b][1..] == [b] && [b][1..] == [];
    assert EncKey(a, o) == Enc(a.key, o) && EncKey(b, o) == Enc(b.key, o);
    assert EncKeys([b], o) == EncodedKeys([[0x20]], None);
  }

  lemma TwoSorted(mode: SortMode)
    ensures SortedOrder(mode, [[0x18, 0x64], [0x20]]) == if mode.LengthFirst? then [1, 0] else [0, 1]
  {
    var keys: seq<seq<Byte>> := [[0x18, 0x64], [0x20]];
    assert OrderUpTo(mode, keys, 0) == [] && OrderUpTo(mode, keys, 1) == [0];
    assert Leq(mode, keys[0], keys[1]) <==> mode.BytewiseLex?;
    assert [0][..0] == [] && InsertIndex(mode, keys, [], 1) == [1];
    assert InsertIndex(mode, keys, [0], 1) == if mode.LengthFirst? then [1, 0] else [0, 1];
    assert OrderUpTo(mode, keys, 2) == InsertIndex(mode, keys, [0], 1);
  }

  lemma NullValue(m: MapEntry, o: EncodeOpts)
    requires m.value == Null
    ensures EncValue(m, o) == Done([0xf6])
  {
  }

  lemma Written(a: MapEntry, b: MapEntry, keys: seq<seq<Byte>>, order: seq<nat>, o: EncodeOpts)
    requires a.value == Null && b.value == Null && |keys| == 2 && (order == [0, 1] || order == [1, 0])
    ensures EncOrdered([a, b], keys, order, o) == Done(keys[order[0]] + [0xf6] + keys[order[1]] + [0xf6])
  {
    var m := [a, b];
    assert order[1..] == [order[1]] && order[1..][1..] == [];
    NullValue(a, o);
    NullValue(b, o);
    assert {m[order[0]], m[order[1]]} == {a, b};
    assert EncOrdered(m, keys, [], o) == Done([]);
    assert EncOrdered(m, keys, order[1..], o) == Then(Done(keys[order[1]]), Then(Done([0xf6]), Done([])));
    assert keys[order[0]] + ([0xf6] + (keys[order[1]] + ([0xf6] + []))) ==
           keys[order[0]] + [0xf6] + keys[order[1]] + [0xf6];
  }

  /** The CTAP2 mode writes two NaNs differently. */
  lemma NaNsStayApart()
    ensures !Canonical.NaNsEncodeAlike(CTAP2.(allowNonFinite := true))
  {
    Canonical.NaNsAreNormalised(CTAP2.(allowNonFinite := true));
  }
}
