/**
 Strict decoding leaves no freedom to the sender: what it accepts is, byte for byte, the
 permissive encoding of the value it returns, except where the input uses one of the three
 forms that survive strictness. Those exceptions are characterised exactly.
 */
module NonMalleable {
  import opened Bytes
  import opened Wire
  import opened Floats
  import opened Values
  import opened KeyOrder
  import opened Encoding
  import opened Decoding
  import opened RoundTrip
  import opened Canonical
  import opened WellFormed
  import opened Guarantees

  /** Permissive mode with non-finite floats and invalid UTF-8 allowed: every value encodes. */
  const KEEP := PERMISSIVE.(allowNonFinite := true, allowInvalidUTF8 := true)

  predicate Strict(o: DecodeOpts) {
    o.rejectIndefinite && o.rejectNonShortest && o.rejectDuplicateKeys
  }

  /** The encoding of v is the stretch of src from off to end. */
  predicate Rewrites(v: Value, src: seq<Byte>, off: nat, end: nat) {
    off <= end <= |src| && Enc(v, KEEP) == Done(src[off..end])
  }

  lemma Stretch(src: seq<Byte>, a: nat, b: nat, c: nat)
    requires a <= b <= c <= |src|
    ensures src[a..c] == src[a..b] + src[b..c]
  {
  }

  /** A shortest head rewrites as itself. */
  lemma HeadStretch(src: seq<Byte>, off: nat)
    requires off <= |src|
    requires var h := ParseHead(src[off..]); h.n > 0 && h.ai < 28 && h.IsShortest()
    ensures var h := ParseHead(src[off..]);
            off + h.n <= |src| && src[off..off + h.n] == HeadBytes(h.major, h.arg)
  {
    hide ParseHead, HeadBytes, At;
    ShortestHeadIsWritten(src, off);
    var h := ParseHead(src[off..]);
    AtSlice(src, off, HeadBytes(h.major, h.arg));
  }

  lemma StringRewrites(src: seq<Byte>, off: nat, text: bool, s: seq<Byte>, end: nat)
    requires off <= |src| && |s| <= MAX_LENGTH
    requires var h := ParseHead(src[off..]);
             && h.n > 0 && h.ai < 28 && h.IsShortest() && h.major == (if text then MAJOR_TEXT else MAJOR_BYTES)
             && h.arg == |s| && end == off + h.n + |s| <= |src| && s == src[off + h.n..end]
    ensures Rewrites(if text then TextString(s) else ByteString(s), src, off, end)
  {
    var v := if text then TextString(s) else ByteString(s);
    assert Enc(v, KEEP) == Done(StringBytes(if text then MAJOR_TEXT else MAJOR_BYTES, s));
    hide ParseHead, HeadBytes, Enc, Len64;
    Len64Small(|s|);
    var h := ParseHead(src[off..]);
    HeadStretch(src, off);
    Stretch(src, off, off + h.n, end);
  }

  lemma Window(src: seq<Byte>, off: nat, n: nat)
    requires 0 < n && off + n <= |src|
    ensures src[off..off + n] == [src[off]] + src[off..][1..n]
    ensures src[off..][0] == src[off]
  {
  }

  lemma OneByteRewrites(src: seq<Byte>, off: nat, o: DecodeOpts)
    requires off < |src| && src[off] / 32 == MAJOR_OTHER && src[off] % 32 < 24
    ensures var r := DecodeOther(off, Head(MAJOR_OTHER, src[off] % 32, src[off] % 32, 1), o);
            r.Ok? && Rewrites(r.value, src, off, off + 1)
  {
    assert src[off..off + 1] == [src[off]];
  }

  lemma TwoByteRewrites(src: seq<Byte>, off: nat, code: Byte)
    requires off + 2 <= |src| && src[off] == SIMPLE_ONE_BYTE && src[off + 1] == code && code >= 32
    ensures Rewrites(Simple(code), src, off, off + 2)
  {
    assert src[off..off + 2] == [src[off], src[off + 1]];
  }

  lemma FloatRewrites(src: seq<Byte>, off: nat, w: FloatWire)
    requires !w.W16? && off + |FloatBytes(w)| <= |src|
    requires src[off..off + |FloatBytes(w)|] == FloatBytes(w)
    ensures Rewrites(WireValue(w), src, off, off + |FloatBytes(w)|)
  {
    hide FloatBytes;
    assert FloatWireOf(WireValue(w), KEEP) == w;
  }

  lemma FloatArgument(src: seq<Byte>, off: nat)
    requires off <= |src|
    requires var h := ParseHead(src[off..]);
             h.n > 0 && h.major == MAJOR_OTHER && (h.ai == AI_4BYTES || h.ai == AI_8BYTES)
    ensures var h := ParseHead(src[off..]);
            && h.arg <= (if h.ai == AI_4BYTES then 0xffff_ffff else 0xffff_ffff_ffff_ffff)
            && off + h.n <= |src|
            && src[off..off + h.n] == FloatBytes(if h.ai == AI_4BYTES then W32(h.arg) else W64(h.arg))
            && h.n == if h.ai == AI_4BYTES then 5 else 9
  {
    var s := src[off..];
    var h := ParseHead(s);
    Window(src, off, h.n);
    BEOfFromBE(s[1..h.n]);
  }

  lemma SimpleArgument(src: seq<Byte>, off: nat)
    requires off <= |src|
    requires var h := ParseHead(src[off..]); h.n > 0 && h.ai == AI_1BYTE
    ensures var h := ParseHead(src[off..]); off + 2 <= |src| && src[off + 1] == h.arg && h.n == 2
  {
    var s := src[off..];
    assert s[1..2] == [s[1]];
    assert FromBE([s[1]]) == s[1];
  }

  /** Single and double floats rewrite as themselves, and so do simple values. */
  lemma OtherRewrites(src: seq<Byte>, off: nat, o: DecodeOpts)
    requires off <= |src|
    requires var h := ParseHead(src[off..]);
             h.n > 0 && h.major == MAJOR_OTHER && h.ai != AI_2BYTES && DecodeOther(off, h, o).Ok?
    ensures var r := DecodeOther(off, ParseHead(src[off..]), o);
            Rewrites(r.value, src, off, r.next)
  {
    hide ParseHead, Rewrites, HalfToDouble, IsFinite32, IsFinite64, FloatBytes, Enc;
    var h := ParseHead(src[off..]);
    Window(src, off, 1);
    if h.ai < 24 {
      assert h == Head(MAJOR_OTHER, src[off] % 32, src[off] % 32, 1);
      OneByteRewrites(src, off, o);
    } else if h.ai == AI_1BYTE {
      SimpleArgument(src, off);
      TwoByteRewrites(src, off, h.arg);
    } else {
      FloatArgument(src, off);
      FloatRewrites(src, off, if h.ai == AI_4BYTES then W32(h.arg) else W64(h.arg));
    }
  }

  lemma {:induction false} StrictValue(src: seq<Byte>, off: nat, depth: nat, o: DecodeOpts, strip: bool, nesting: nat)
    requires off <= |src| && Strict(o) && DecodeValue(src, off, depth, o, strip).Ok?
    requires Extent(src, off, nesting, NO_HALF).Some?
    requires strip ==> !SelfDescribes(src, off)
    ensures var r := DecodeValue(src, off, depth, o, strip); Rewrites(r.value, src, off, r.next)
    decreases |src| - off, 0
  {
    hide ParseHead, ValidUTF8, HeadBytes;
    var h := ParseHead(src[off..]);
    if h.major == MAJOR_UINT || h.major == MAJOR_NEGINT {
      HeadStretch(src, off);
    } else if h.major == MAJOR_BYTES || h.major == MAJOR_TEXT {
      StrictString(src, off, depth, o, strip);
    } else if h.major == MAJOR_ARRAY {
      StrictArray(src, off, depth, o, strip, nesting);
    } else if h.major == MAJOR_MAP {
      StrictMap(src, off, depth, o, strip, nesting);
    } else if h.major == MAJOR_TAG {
      StrictTag(src, off, depth, o, strip, nesting);
    } else {
      DecodeValueOther(src, off, depth, o, strip);
      OtherRewrites(src, off, o);
    }
  }

  /** The item at off is the self-described tag. */
  predicate SelfDescribes(src: seq<Byte>, off: nat)
    requires off <= |src|
  {
    var h := ParseHead(src[off..]);
    h.n > 0 && h.major == MAJOR_TAG && h.arg == SELF_DESCRIBE
  }

  lemma StrictString(src: seq<Byte>, off: nat, depth: nat, o: DecodeOpts, strip: bool)
    requires off < |src| && Strict(o) && DecodeValue(src, off, depth, o, strip).Ok?
    requires ParseHead(src[off..]).major == MAJOR_BYTES || ParseHead(src[off..]).major == MAJOR_TEXT
    ensures var r := DecodeValue(src, off, depth, o, strip); Rewrites(r.value, src, off, r.next)
  {
    hide ParseHead, ValidUTF8, Rewrites;
    var h := ParseHead(src[off..]);
    var r := DecodeValue(src, off, depth, o, strip);
    assert r == if h.major == MAJOR_TEXT then DecodeText(src, off, h, o) else DecodeBytes(src, off, h, o);
    hide DecodeValue;
    var d := DecodeDefinite(src, off, h, o);
    StringRewrites(src, off, h.major == MAJOR_TEXT, d.value, d.next);
  }

  /** A container: its head, then what follows the head. */
  lemma ContainerRewrites(src: seq<Byte>, off: nat, v: Value, major: Major, arg: nat, body: Encoded, end: nat)
    requires off <= |src| && arg <= MAX_LENGTH
    requires var h := ParseHead(src[off..]);
             && h.n > 0 && h.ai < 28 && h.IsShortest() && h.major == major && h.arg == arg
             && off + h.n <= end <= |src| && body == Done(src[off + h.n..end])
    requires Enc(v, KEEP) == Then(Done(HeadBytes(major, Len64(arg))), body)
    ensures Rewrites(v, src, off, end)
  {
    hide ParseHead, HeadBytes, Enc, Len64;
    Len64Small(arg);
    var h := ParseHead(src[off..]);
    HeadStretch(src, off);
    Stretch(src, off, off + h.n, end);
  }

  lemma StrictArrayItems(src: seq<Byte>, off: nat, depth: nat, o: DecodeOpts, strip: bool, nesting: nat)
    requires off < |src| && Strict(o) && DecodeValue(src, off, depth, o, strip).Ok?
    requires Extent(src, off, nesting, NO_HALF).Some? && ParseHead(src[off..]).major == MAJOR_ARRAY
    ensures var h := ParseHead(src[off..]);
            && h.n > 0 && h.ai != AI_INDEFINITE && !Overlong(h, o) && off + h.n <= |src| && !Reserved(h)
            && h.arg <= MAX_LENGTH
            && ExtentItems(src, off + h.n, h.arg, nesting + 1, NO_HALF).Some?
            && var items := DecodeItems(src, off + h.n, h.arg, [], depth + 1, o);
            && items.Ok? && DecodeValue(src, off, depth, o, strip) == Decoded.Ok(Array(items.value), items.next)
  {
    hide ParseHead, Overlong, DecodeItems, ExtentItems, DecodeBytes, DecodeText, DecodeMap, DecodeTag, DecodeOther;
    var h := ParseHead(src[off..]);
    assert DecodeValue(src, off, depth, o, strip) == DecodeArray(src, off, h, depth, o);
  }

  lemma StrictArray(src: seq<Byte>, off: nat, depth: nat, o: DecodeOpts, strip: bool, nesting: nat)
    requires off < |src| && Strict(o) && DecodeValue(src, off, depth, o, strip).Ok?
    requires Extent(src, off, nesting, NO_HALF).Some? && ParseHead(src[off..]).major == MAJOR_ARRAY
    ensures var r := DecodeValue(src, off, depth, o, strip); Rewrites(r.value, src, off, r.next)
    decreases |src| - off, 0, 0
  {
    hide ParseHead, Rewrites, DecodeValue, Extent, DecodeItems, ExtentItems, Enc, EncItems, HeadBytes;
    var h := ParseHead(src[off..]);
    var pos := off + h.n;
    StrictArrayItems(src, off, depth, o, strip, nesting);
    StrictItems(src, pos, h.arg, [], depth + 1, o, nesting + 1);
    var r := DecodeItems(src, pos, h.arg, [], depth + 1, o);
    assert r.value[0..] == r.value;
    EncArray(r.value, KEEP);
    ContainerRewrites(src, off, Array(r.value), MAJOR_ARRAY, h.arg, EncItems(r.value, KEEP), r.next);
  }

  lemma EncArray(items: seq<Value>, e: EncodeOpts)
    ensures Enc(Array(items), e) == Then(Done(HeadBytes(MAJOR_ARRAY, Len64(|items|))), EncItems(items, e))
  {
    hide HeadBytes, EncItems, Then;
  }

  lemma EncMap(pairs: seq<MapEntry>, e: EncodeOpts)
    requires !e.deterministic
    ensures Enc(Map(pairs), e) == Then(Done(HeadBytes(MAJOR_MAP, Len64(|pairs|))), EncPairs(pairs, e))
  {
    hide HeadBytes, EncPairs, Then;
  }

  lemma EncTag(id: U64, inner: Value, e: EncodeOpts)
    requires !inner.Invalid?
    ensures Enc(Tag(id, inner), e) == Then(Done(HeadBytes(MAJOR_TAG, id)), Enc(inner, e))
  {
    hide HeadBytes, Then;
  }

  lemma StrictTag(src: seq<Byte>, off: nat, depth: nat, o: DecodeOpts, strip: bool, nesting: nat)
    requires off < |src| && Strict(o) && DecodeValue(src, off, depth, o, strip).Ok?
    requires Extent(src, off, nesting, NO_HALF).Some? && ParseHead(src[off..]).major == MAJOR_TAG
    requires strip ==> !SelfDescribes(src, off)
    ensures var r := DecodeValue(src, off, depth, o, strip); Rewrites(r.value, src, off, r.next)
    decreases |src| - off, 0, 0
  {
    hide ParseHead, HeadBytes;
    var h := ParseHead(src[off..]);
    var pos := off + h.n;
    var r := DecodeValue(src, pos, depth + 1, o, false);
    assert DecodeValue(src, off, depth, o, strip) == DecodeTag(src, off, h, depth, o, strip);
    assert Extent(src, pos, nesting + 1, NO_HALF).Some?;
    StrictValue(src, pos, depth + 1, o, false, nesting + 1);
    hide DecodeValue, Extent, Enc;
    InvalidNeverEncodes(KEEP);
    EncTag(h.arg, r.value, KEEP);
    HeadStretch(src, off);
    Stretch(src, off, pos, r.next);
  }

  /** The shortcut returns what the general path returns, if that succeeds, and rewrites too. */
  lemma StrictElement(src: seq<Byte>, pos: nat, depth: nat, o: DecodeOpts, nesting: nat)
    requires pos <= |src| && Strict(o) && Extent(src, pos, nesting, NO_HALF).Some?
    ensures var r := DecodeElement(src, pos, depth, o); r.Ok? ==> Rewrites(r.value, src, pos, r.next)
    ensures var r := DecodeKey(src, pos, depth, o); r.Ok? ==> Rewrites(r.value, src, pos, r.next)
    decreases |src| - pos, 1
  {
    hide DecodeValue, Extent, ValidUTF8, Rewrites, ParseHead;
    if ShortStringAt(src, pos, MAJOR_TEXT) {
      ShortStringRewrites(src, pos, true);
    } else if DecodeValue(src, pos, depth, o, false).Ok? {
      StrictValue(src, pos, depth, o, false, nesting);
    }
    if ShortStringAt(src, pos, MAJOR_BYTES) {
      ShortStringRewrites(src, pos, false);
    }
  }

  lemma ShortStringRewrites(src: seq<Byte>, pos: nat, text: bool)
    requires ShortStringAt(src, pos, if text then MAJOR_TEXT else MAJOR_BYTES)
    ensures var end := pos + 1 + src[pos] % 32;
            var s := src[pos + 1..end];
            Rewrites(if text then TextString(s) else ByteString(s), src, pos, end)
  {
    hide ParseHead, Rewrites;
    var end := pos + 1 + src[pos] % 32;
    WellFormed.ShortStringHead(src, pos, if text then MAJOR_TEXT else MAJOR_BYTES);
    StringRewrites(src, pos, text, src[pos + 1..end], end);
  }

  lemma EncItemsCons(v: Value, rest: seq<Value>, src: seq<Byte>, a: nat, b: nat, c: nat)
    requires Rewrites(v, src, a, b) && b <= c <= |src| && EncItems(rest, KEEP) == Done(src[b..c])
    ensures EncItems([v] + rest, KEEP) == Done(src[a..c])
  {
    var all := [v] + rest;
    assert all[0] == v && all[1..] == rest;
    assert EncItems(all, KEEP) == Then(EncInline(v, KEEP), EncItems(rest, KEEP));
    EncOkOut(v, KEEP);
    assert EncInline(v, KEEP) == Enc(v, KEEP);
    Stretch(src, a, b, c);
  }

  lemma {:induction false} StrictItems(src: seq<Byte>, pos: nat, count: nat, arr: seq<Value>, depth: nat, o: DecodeOpts,
                                       nesting: nat)
    requires pos <= |src| && Strict(o) && DecodeItems(src, pos, count, arr, depth, o).Ok?
    requires ExtentItems(src, pos, count, nesting, NO_HALF).Some?
    ensures var r := DecodeItems(src, pos, count, arr, depth, o);
            && |r.value| == |arr| + count && arr <= r.value
            && EncItems(r.value[|arr|..], KEEP) == Done(src[pos..r.next])
    decreases |src| - pos, 2
  {
    hide DecodeElement, Extent, Enc, Rewrites;
    var r := DecodeItems(src, pos, count, arr, depth, o);
    if count > 0 {
      var e := DecodeElement(src, pos, depth, o);
      var next := arr + [e.value];
      StrictElement(src, pos, depth, o, nesting);
      ElementExtent(src, pos, depth, o, nesting);
      StrictItems(src, e.next, count - 1, next, depth, o, nesting);
      assert r.value[|arr|] == e.value;
      assert r.value[|arr|..] == [e.value] + r.value[|next|..];
      EncItemsCons(e.value, r.value[|next|..], src, pos, e.next, r.next);
    } else {
      assert r.value[|arr|..] == [] && src[pos..pos] == [];
    }
  }

  /** Where both the decoder and Appendix C find an item, they agree on its end. */
  lemma ElementExtent(src: seq<Byte>, pos: nat, depth: nat, o: DecodeOpts, nesting: nat)
    requires pos <= |src| && Extent(src, pos, nesting, NO_HALF).Some?
    ensures var r := DecodeElement(src, pos, depth, o); r.Ok? ==> Extent(src, pos, nesting, NO_HALF) == Some(r.next)
    ensures var r := DecodeKey(src, pos, depth, o); r.Ok? ==> Extent(src, pos, nesting, NO_HALF) == Some(r.next)
    ensures var r := DecodeValue(src, pos, depth, o, false);
            r.Ok? ==> Extent(src, pos, nesting, NO_HALF) == Some(r.next)
  {
    hide DecodeValue, DecodeElement, DecodeKey, Extent;
    ExtentMonotone(src, pos, nesting, NO_HALF, LENIENT);
    AcceptedElement(src, pos, depth, o, nesting, LENIENT);
    if DecodeValue(src, pos, depth, o, false).Ok? {
      AcceptedValue(src, pos, depth, o, false, nesting, LENIENT);
    }
  }

  /** What an accepted map is made of under strict options. */
  lemma StrictMapParts(src: seq<Byte>, off: nat, depth: nat, o: DecodeOpts, strip: bool, nesting: nat)
    requires off < |src| && Strict(o) && DecodeValue(src, off, depth, o, strip).Ok?
    requires Extent(src, off, nesting, NO_HALF).Some? && ParseHead(src[off..]).major == MAJOR_MAP
    ensures var h := ParseHead(src[off..]);
            && h.n > 0 && h.ai < 28 && h.IsShortest() && h.arg <= MAX_LENGTH
            && ExtentItems(src, off + h.n, 2 * h.arg, nesting + 1, NO_HALF).Some?
            && var r := DecodePairs(src, off + h.n, h.arg, NO_PAIRS, h.arg > DEDUP_THRESHOLD, depth + 1, o);
               r.Ok? && DecodeValue(src, off, depth, o, strip) == Decoded.Ok(Map(r.value.entries), r.next)
  {
    hide ParseHead, DecodePairs, ExtentItems;
    var h := ParseHead(src[off..]);
    assert DecodeValue(src, off, depth, o, strip) == DecodeMap(src, off, h, depth, o);
  }

  lemma StrictMap(src: seq<Byte>, off: nat, depth: nat, o: DecodeOpts, strip: bool, nesting: nat)
    requires off < |src| && Strict(o) && DecodeValue(src, off, depth, o, strip).Ok?
    requires Extent(src, off, nesting, NO_HALF).Some? && ParseHead(src[off..]).major == MAJOR_MAP
    ensures var r := DecodeValue(src, off, depth, o, strip); Rewrites(r.value, src, off, r.next)
    decreases |src| - off, 0, 0
  {
    hide ParseHead, Rewrites, DecodeValue, DecodePairs, ExtentItems;
    var h := ParseHead(src[off..]);
    var pos := off + h.n;
    StrictMapParts(src, off, depth, o, strip, nesting);
    var dedup := h.arg > DEDUP_THRESHOLD;
    StrictPairs(src, pos, h.arg, NO_PAIRS, dedup, depth + 1, o, nesting + 1);
    var r := DecodePairs(src, pos, h.arg, NO_PAIRS, dedup, depth + 1, o);
    assert r.value.entries[0..] == r.value.entries;
    EncMap(r.value.entries, KEEP);
    ContainerRewrites(src, off, Map(r.value.entries), MAJOR_MAP, h.arg, EncPairs(r.value.entries, KEEP), r.next);
  }

  lemma EncPairsCons(m: MapEntry, rest: seq<MapEntry>, src: seq<Byte>, a: nat, b: nat, c: nat, d: nat)
    requires Rewrites(m.key, src, a, b) && Rewrites(m.value, src, b, c) && c <= d <= |src|
    requires EncPairs(rest, KEEP) == Done(src[c..d])
    ensures EncPairs([m] + rest, KEEP) == Done(src[a..d])
  {
    var all := [m] + rest;
    assert all[0] == m && all[1..] == rest;
    assert EncPairs(all, KEEP) == Then(EncEntry(m, KEEP), EncPairs(rest, KEEP));
    assert EncEntry(m, KEEP) == Then(EncInline(m.key, KEEP), EncInline(m.value, KEEP));
    assert EncInline(m.key, KEEP) == Enc(m.key, KEEP) && EncInline(m.value, KEEP) == Enc(m.value, KEEP);
    Stretch(src, a, b, c);
    Stretch(src, a, c, d);
  }

  /** With duplicates rejected an accepted pair is appended. */
  lemma StrictPair(src: seq<Byte>, keyOff: nat, key: Decoded<Value>, m: Pairs, dedup: bool, depth: nat, o: DecodeOpts,
                   nesting: nat)
    requires keyOff <= |src| && m.Valid() && Strict(o) && (key.Ok? ==> keyOff < key.next <= |src|)
    requires DecodePair(src, keyOff, key, m, dedup, depth, o).Ok?
    requires key.Ok? ==> Extent(src, key.next, nesting, NO_HALF).Some?
    ensures key.Ok?
    ensures var r := DecodePair(src, keyOff, key, m, dedup, depth, o);
            var v := DecodeValue(src, key.next, depth, o, false);
            && v.Ok? && Rewrites(v.value, src, key.next, r.next)
            && r.value.entries == m.entries + [MapEntry(key.value, v.value)]
            && Extent(src, key.next, nesting, NO_HALF) == Some(r.next)
    decreases |src| - keyOff, 2
  {
    hide DecodeValue, DecodeElement, DecodeKey, Extent, Fnv1a, FindKey, Rewrites;
    StrictValue(src, key.next, depth, o, false, nesting);
    ElementExtent(src, key.next, depth, o, nesting);
  }

  lemma ExtentPair(src: seq<Byte>, pos: nat, count: nat, depth: nat, g: Rules)
    requires pos <= |src| && count > 0 && ExtentItems(src, pos, 2 * count, depth, g).Some?
    ensures var k := Extent(src, pos, depth, g);
            k.Some? && var v := Extent(src, k.value, depth, g);
            v.Some? && ExtentItems(src, v.value, 2 * (count - 1), depth, g).Some?
  {
    hide Extent;
    TwoMoreItems(src, pos, count, depth, g);
    TwoItems(src, pos, depth, g);
  }

  lemma {:induction false} StrictPairs(src: seq<Byte>, pos: nat, count: nat, m: Pairs, dedup: bool, depth: nat,
                                       o: DecodeOpts, nesting: nat)
    requires pos <= |src| && m.Valid() && Strict(o) && DecodePairs(src, pos, count, m, dedup, depth, o).Ok?
    requires ExtentItems(src, pos, 2 * count, nesting, NO_HALF).Some?
    ensures var r := DecodePairs(src, pos, count, m, dedup, depth, o);
            && |r.value.entries| == |m.entries| + count && m.entries <= r.value.entries
            && EncPairs(r.value.entries[|m.entries|..], KEEP) == Done(src[pos..r.next])
    decreases |src| - pos, 3
  {
    hide DecodeKey, DecodePair, Extent, ExtentItems, Enc, Rewrites, MapInsert;
    var r := DecodePairs(src, pos, count, m, dedup, depth, o);
    if count > 0 {
      var k := DecodeKey(src, pos, depth, o);
      var p := DecodePair(src, pos, k, m, dedup, depth, o);
      ExtentPair(src, pos, count, nesting, NO_HALF);
      StrictElement(src, pos, depth, o, nesting);
      ElementExtent(src, pos, depth, o, nesting);
      StrictPair(src, pos, k, m, dedup, depth, o, nesting);
      StrictPairs(src, p.next, count - 1, p.value, dedup, depth, o, nesting);
      var e := p.value.entries[|m.entries|];
      assert r.value.entries[|m.entries|] == e;
      assert r.value.entries[|m.entries|..] == [e] + r.value.entries[|p.value.entries|..];
      EncPairsCons(e, r.value.entries[|p.value.entries|..], src, pos, k.next, p.next, r.next);
    } else {
      assert r.value.entries[|m.entries|..] == [] && src[pos..pos] == [];
    }
  }

  // ---------------------------------------------------------------- encodings have none of the exceptions

  lemma StringOutExtent(src: seq<Byte>, off: nat, text: bool, s: seq<Byte>, depth: nat)
    requires |s| <= MAX_LENGTH && At(src, off, StringBytes(if text then MAJOR_TEXT else MAJOR_BYTES, s))
    ensures Extent(src, off, depth, NO_HALF) == Some(off + |StringBytes(if text then MAJOR_TEXT else MAJOR_BYTES, s)|)
  {
    hide At, ParseHead, StringBytes;
    StringHead(src, off, if text then MAJOR_TEXT else MAJOR_BYTES, s);
  }

  lemma SimpleOutExtent(v: Value, src: seq<Byte>, off: nat, depth: nat)
    requires (v.Bool? || v.Null? || v.Undefined? || v.Simple?) && (v.Simple? ==> v.code < 20 || v.code >= 32)
    requires At(src, off, Out(v, KEEP))
    ensures Extent(src, off, depth, NO_HALF) == Some(off + |Out(v, KEEP)|)
  {
    hide At, ParseHead;
    if v.Simple? && v.code >= 24 {
      TwoByteHead(src, off, SIMPLE_ONE_BYTE, v.code);
    } else {
      OneByteHead(src, off, Out(v, KEEP)[0]);
    }
  }

  lemma FloatOutExtent(v: Value, src: seq<Byte>, off: nat, depth: nat)
    requires IsFloat(v) && At(src, off, Out(v, KEEP))
    ensures Extent(src, off, depth, NO_HALF) == Some(off + |Out(v, KEEP)|)
  {
    hide At, ParseHead, FloatBytes;
    var w := FloatWireOf(v, KEEP);
    assert Out(v, KEEP) == FloatBytes(w) && !w.W16?;
    FloatHead(src, off, w);
  }

  /** Every encoding that decoding can produce is well-formed, without half-precision floats. */
  lemma {:induction false} OutExtent(v: Value, o: DecodeOpts, nesting: nat, src: seq<Byte>, off: nat, depth: nat)
    requires Guaranteed(v, o, nesting) && Encodes(v, KEEP) && Sized(v)
    requires At(src, off, Out(v, KEEP))
    ensures Extent(src, off, depth, NO_HALF) == Some(off + |Out(v, KEEP)|)
    decreases v, 1
  {
    hide At, ParseHead, HeadBytes, PairsOut, WrittenOrder;
    match v
    case ByteString(s) => StringOutExtent(src, off, false, s, depth);
    case TextString(s) => StringOutExtent(src, off, true, s, depth);
    case Uint(n) => ParseWrittenHead(src, off, MAJOR_UINT, n);
    case NegInt(n) => ParseWrittenHead(src, off, MAJOR_NEGINT, n);
    case Float32(_) => FloatOutExtent(v, src, off, depth);
    case Float64(_) => FloatOutExtent(v, src, off, depth);
    case Array(items) =>
      ArrayOut(v, KEEP);
      ArrayOutExtent(items, o, nesting, src, off, depth);
    case Map(pairs) =>
      MapOut(v, KEEP);
      MapOutExtent(pairs, o, nesting, src, off, depth);
    case Tag(id, inner) =>
      TagOut(v, KEEP);
      AtSplit(src, off, HeadBytes(MAJOR_TAG, id), Out(inner, KEEP));
      ParseWrittenHead(src, off, MAJOR_TAG, id);
      OutExtent(inner, o, nesting + 1, src, off + |HeadBytes(MAJOR_TAG, id)|, depth + 1);
    case _ => SimpleOutExtent(v, src, off, depth);
  }

  lemma ArrayOutExtent(items: seq<Value>, o: DecodeOpts, nesting: nat, src: seq<Byte>, off: nat, depth: nat)
    requires |items| <= MAX_LENGTH && EncItems(items, KEEP).Ok()
    requires forall i | 0 <= i < |items| :: Sized(items[i]) && Guaranteed(items[i], o, nesting + 1)
    requires At(src, off, HeadBytes(MAJOR_ARRAY, |items|) + EncItems(items, KEEP).out)
    ensures Extent(src, off, depth, NO_HALF) ==
            Some(off + |HeadBytes(MAJOR_ARRAY, |items|)| + |EncItems(items, KEEP).out|)
    decreases items, 2
  {
    hide At, ParseHead, HeadBytes, EncItems, Guaranteed, Sized;
    AtSplit(src, off, HeadBytes(MAJOR_ARRAY, |items|), EncItems(items, KEEP).out);
    ParseWrittenHead(src, off, MAJOR_ARRAY, |items|);
    ItemsOutExtent(items, o, nesting + 1, src, off + |HeadBytes(MAJOR_ARRAY, |items|)|, depth + 1);
  }

  lemma {:induction false} ItemsOutExtent(items: seq<Value>, o: DecodeOpts, nesting: nat, src: seq<Byte>, pos: nat,
                                          depth: nat)
    requires EncItems(items, KEEP).Ok()
    requires forall i | 0 <= i < |items| :: Sized(items[i]) && Guaranteed(items[i], o, nesting)
    requires At(src, pos, EncItems(items, KEEP).out)
    ensures ExtentItems(src, pos, |items|, depth, NO_HALF) == Some(pos + |EncItems(items, KEEP).out|)
    decreases items, 0
  {
    hide At, Extent, Out, Enc, Encodes, Guaranteed, Sized;
    if items != [] {
      ItemsStep(items, KEEP);
      AtSplit(src, pos, Out(items[0], KEEP), EncItems(items[1..], KEEP).out);
      OutExtent(items[0], o, nesting, src, pos, depth);
      ItemsOutExtent(items[1..], o, nesting, src, pos + |Out(items[0], KEEP)|, depth);
    }
  }

  lemma EntryOutExtent(m: MapEntry, o: DecodeOpts, nesting: nat, src: seq<Byte>, pos: nat, depth: nat)
    requires EntryEncodes(m, KEEP) && SizedEntry(m) && GuaranteedEntry(m, o, nesting)
    requires At(src, pos, Out(m.key, KEEP)) && At(src, pos + |Out(m.key, KEEP)|, Out(m.value, KEEP))
    ensures ExtentItems(src, pos, 2, depth, NO_HALF) == Some(pos + |Out(m.key, KEEP)| + |Out(m.value, KEEP)|)
    decreases m, 2
  {
    hide At, Extent, Out, Enc;
    OutExtent(m.key, o, nesting, src, pos, depth);
    OutExtent(m.value, o, nesting, src, pos + |Out(m.key, KEEP)|, depth);
    TwoItems(src, pos, depth, NO_HALF);
  }

  lemma {:induction false} PairsOutExtent(pairs: seq<MapEntry>, order: seq<nat>, o: DecodeOpts, nesting: nat,
                                          src: seq<Byte>, pos: nat, depth: nat)
    requires Below(order, |pairs|)
    requires forall i | 0 <= i < |pairs| ::
               EntryEncodes(pairs[i], KEEP) && SizedEntry(pairs[i]) && GuaranteedEntry(pairs[i], o, nesting)
    requires At(src, pos, PairsOut(pairs, order, KEEP))
    ensures ExtentItems(src, pos, 2 * |order|, depth, NO_HALF) == Some(pos + |PairsOut(pairs, order, KEEP)|)
    decreases pairs, 1, |order|
  {
    hide At, Extent, Out, PairsOut, EntryEncodes, SizedEntry, GuaranteedEntry, ExtentItems;
    if order == [] {
      NoPairsExtent(pairs, order, src, pos, depth);
    } else {
      var m := pairs[order[0]];
      PairsOutSplit(pairs, order, KEEP, src, pos);
      EntryOutExtent(m, o, nesting, src, pos, depth);
      TwoMoreItems(src, pos, |order|, depth, NO_HALF);
      PairsOutExtent(pairs, order[1..], o, nesting, src, pos + |Out(m.key, KEEP)| + |Out(m.value, KEEP)|, depth);
    }
  }

  lemma NoPairsExtent(pairs: seq<MapEntry>, order: seq<nat>, src: seq<Byte>, pos: nat, depth: nat)
    requires order == [] && pos <= |src|
    ensures ExtentItems(src, pos, 2 * |order|, depth, NO_HALF) == Some(pos + |PairsOut(pairs, order, KEEP)|)
  {
  }

  lemma MapOutExtent(pairs: seq<MapEntry>, o: DecodeOpts, nesting: nat, src: seq<Byte>, off: nat, depth: nat)
    requires |pairs| <= MAX_LENGTH
    requires forall i | 0 <= i < |pairs| ::
               EntryEncodes(pairs[i], KEEP) && SizedEntry(pairs[i]) && GuaranteedEntry(pairs[i], o, nesting + 1)
    requires At(src, off, HeadBytes(MAJOR_MAP, |pairs|) + PairsOut(pairs, WrittenOrder(pairs, KEEP), KEEP))
    ensures Extent(src, off, depth, NO_HALF) ==
            Some(off + |HeadBytes(MAJOR_MAP, |pairs|)| + |PairsOut(pairs, WrittenOrder(pairs, KEEP), KEEP)|)
    decreases pairs, 2
  {
    hide At, ParseHead, HeadBytes, PairsOut, EntryEncodes, SizedEntry, GuaranteedEntry, WrittenOrder;
    var order := WrittenOrder(pairs, KEEP);
    AtSplit(src, off, HeadBytes(MAJOR_MAP, |pairs|), PairsOut(pairs, order, KEEP));
    ParseWrittenHead(src, off, MAJOR_MAP, |pairs|);
    PairsOutExtent(pairs, order, o, nesting + 1, src, off + |HeadBytes(MAJOR_MAP, |pairs|)|, depth + 1);
  }

  lemma OtherOutMajor(v: Value, src: seq<Byte>)
    requires v.Bool? || v.Null? || v.Undefined? || v.Simple?
    requires At(src, 0, Out(v, KEEP))
    ensures src != [] && src[0] / 32 == MAJOR_OTHER
  {
    assert src[0] == Out(v, KEEP)[0];
  }

  /** An encoding that starts with the self-described tag is the encoding of that tag. */
  lemma TagOutHead(v: Value, src: seq<Byte>)
    requires Encodes(v, KEEP) && At(src, 0, Out(v, KEEP)) && SelfDescribes(src, 0) && Sized(v)
    ensures v.Tag? && v.id == SELF_DESCRIBE
  {
    hide At, ParseHead, HeadBytes, FloatBytes, PairsOut, WrittenOrder, EncItems, StringBytes;
    match v
    case ByteString(s) => StringHead(src, 0, MAJOR_BYTES, s);
    case TextString(s) => StringHead(src, 0, MAJOR_TEXT, s);
    case Uint(n) => ParseWrittenHead(src, 0, MAJOR_UINT, n);
    case NegInt(n) => ParseWrittenHead(src, 0, MAJOR_NEGINT, n);
    case Float32(_) => FloatHead(src, 0, FloatWireOf(v, KEEP));
    case Float64(_) => FloatHead(src, 0, FloatWireOf(v, KEEP));
    case Array(items) =>
      ArrayOut(v, KEEP);
      AtSplit(src, 0, HeadBytes(MAJOR_ARRAY, |items|), EncItems(items, KEEP).out);
      ParseWrittenHead(src, 0, MAJOR_ARRAY, |items|);
    case Map(pairs) =>
      MapOut(v, KEEP);
      AtSplit(src, 0, HeadBytes(MAJOR_MAP, |pairs|), PairsOut(pairs, WrittenOrder(pairs, KEEP), KEEP));
      ParseWrittenHead(src, 0, MAJOR_MAP, |pairs|);
    case Tag(id, inner) =>
      TagOut(v, KEEP);
      AtSplit(src, 0, HeadBytes(MAJOR_TAG, id), Out(inner, KEEP));
      ParseWrittenHead(src, 0, MAJOR_TAG, id);
    case _ => OtherOutMajor(v, src);
  }

  // ---------------------------------------------------------------- the theorem

  lemma {:induction false} GuaranteedIsSized(v: Value, o: DecodeOpts, depth: nat)
    requires Guaranteed(v, o, depth)
    ensures Sized(v)
    decreases v, 0
  {
    match v
    case Array(items) =>
      forall i | 0 <= i < |items|
        ensures Sized(items[i])
      {
        GuaranteedIsSized(items[i], o, depth + 1);
      }
    case Map(pairs) =>
      forall i | 0 <= i < |pairs|
        ensures SizedEntry(pairs[i])
      {
        GuaranteedEntryIsSized(pairs[i], o, depth + 1);
      }
    case Tag(_, inner) => GuaranteedIsSized(inner, o, depth + 1);
    case _ =>
  }

  lemma GuaranteedEntryIsSized(m: MapEntry, o: DecodeOpts, depth: nat)
    requires GuaranteedEntry(m, o, depth)
    ensures SizedEntry(m)
    decreases m, 1
  {
    GuaranteedIsSized(m.key, o, depth);
    GuaranteedIsSized(m.value, o, depth);
  }

  /**
   Under strict options an accepted input is the permissive encoding of the value it decodes
   to, exactly when it is well-formed by Appendix C, has no half-precision floats and does
   not begin with the self-described tag.
   */
  lemma StrictInputIsItsEncoding(src: seq<Byte>, o: DecodeOpts)
    requires Strict(o) && Decode(src, o).Ok?
    ensures var r := Decode(src, o);
            Enc(r.value, KEEP) == Done(src[..r.next]) <==> Extent(src, 0, 0, NO_HALF).Some? && !SelfDescribes(src, 0)
  {
    hide DecodeValue, Enc, Extent, Guaranteed, ParseHead;
    var r := Decode(src, o);
    assert src[0..r.next] == src[..r.next];
    if Extent(src, 0, 0, NO_HALF).Some? && !SelfDescribes(src, 0) {
      StrictValue(src, 0, 0, o, true, 0);
    }
    if Enc(r.value, KEEP) == Done(src[..r.next]) {
      EncOkOut(r.value, KEEP);
      assert At(src, 0, Out(r.value, KEEP));
      DecodedIsGuaranteed(src, o);
      GuaranteedIsSized(r.value, o, 0);
      OutExtent(r.value, o, 0, src, 0, 0);
      StripNeverReturnsTag(src, 0, 0, o);
      if SelfDescribes(src, 0) {
        TagOutHead(r.value, src);
      }
    }
  }

  /** So no two such inputs, each taken whole, decode to the same value. */
  lemma StrictInputsAreUnique(a: seq<Byte>, b: seq<Byte>, o: DecodeOpts)
    requires Strict(o) && Decode(a, o).Ok? && Decode(b, o).Ok?
    requires Decode(a, o).next == |a| && Decode(b, o).next == |b|
    requires Extent(a, 0, 0, NO_HALF).Some? && !SelfDescribes(a, 0)
    requires Extent(b, 0, 0, NO_HALF).Some? && !SelfDescribes(b, 0)
    requires Decode(a, o).value == Decode(b, o).value
    ensures a == b
  {
    hide DecodeValue, Enc, Extent, ParseHead;
    StrictInputIsItsEncoding(a, o);
    StrictInputIsItsEncoding(b, o);
    assert a[..|a|] == a && b[..|b|] == b;
  }
}
