/**
 What every decoded value satisfies: the limits, and the rejections the options ask for.
 */
module Guarantees {
  import opened Bytes
  import opened Wire
  import opened Floats
  import opened Values
  import opened Decoding
  import opened MapAssembly

  /** The length limit of strings; the shortcuts let strings of up to 23 bytes pass. */
  function StringLimit(o: DecodeOpts): nat {
    if o.MaxBytes() < 23 then 23 else o.MaxBytes()
  }

  /**
   The value keeps every limit, and nothing that the options reject is in it. Above the threshold the
   duplicate check goes by the bytes of the keys, which the value does not show.
   */
  predicate Guaranteed(v: Value, o: DecodeOpts, depth: nat)
    decreases v, 0
  {
    match v
    case Invalid => false
    case ByteString(b) => |b| <= StringLimit(o)
    case TextString(s) => |s| <= StringLimit(o) && (o.rejectInvalidUTF8 ==> ValidUTF8(s))
    case Array(items) =>
      && |items| <= o.MaxArray() && depth + 1 <= o.MaxNesting()
      && forall i | 0 <= i < |items| :: Guaranteed(items[i], o, depth + 1)
    case Map(pairs) =>
      && |pairs| <= o.MaxArray() && depth + 1 <= o.MaxNesting()
      && (o.rejectDuplicateKeys && |pairs| <= DEDUP_THRESHOLD ==> KeysApart(pairs))
      && forall i | 0 <= i < |pairs| :: GuaranteedEntry(pairs[i], o, depth + 1)
    case Tag(id, inner) =>
      && depth + 1 <= o.MaxNesting() && (o.rejectUnknownTags ==> id == SELF_DESCRIBE) && Guaranteed(inner, o, depth + 1)
    case Simple(code) => code < 20 || code >= 32
    case Float32(b) => o.rejectNonFinite ==> IsFinite32(b)
    case Float64(b) => o.rejectNonFinite ==> IsFinite64(b)
    case _ => true
  }

  predicate GuaranteedEntry(m: MapEntry, o: DecodeOpts, depth: nat)
    decreases m, 1
  {
    Guaranteed(m.key, o, depth) && Guaranteed(m.value, o, depth) && (o.rejectNullKeys ==> !m.key.Null?)
  }

  predicate GuaranteedItems(items: seq<Value>, o: DecodeOpts, depth: nat) {
    forall i | 0 <= i < |items| :: Guaranteed(items[i], o, depth)
  }

  predicate GuaranteedPairs(pairs: seq<MapEntry>, o: DecodeOpts, depth: nat) {
    forall i | 0 <= i < |pairs| :: GuaranteedEntry(pairs[i], o, depth)
  }

  lemma GuaranteedSnoc(items: seq<Value>, v: Value, o: DecodeOpts, depth: nat)
    requires GuaranteedItems(items, o, depth) && Guaranteed(v, o, depth)
    ensures GuaranteedItems(items + [v], o, depth)
  {
    hide Guaranteed;
  }

  lemma {:induction false} ChunksGuaranteed(src: seq<Byte>, pos: nat, major: Major, buf: seq<Byte>, o: DecodeOpts)
    requires pos <= |src| && |buf| <= o.MaxBytes() && DecodeChunks(src, pos, major, buf, o).Ok?
    ensures |DecodeChunks(src, pos, major, buf, o).value| <= o.MaxBytes()
    decreases |src| - pos
  {
    hide ParseHead;
    if src[pos] != BREAK_CODE {
      var h := ParseHead(src[pos..]);
      var end := pos + h.n + h.arg;
      ChunksGuaranteed(src, end, major, buf + src[pos + h.n..end], o);
    }
  }

  lemma {:induction false} ValueGuaranteed(src: seq<Byte>, off: nat, depth: nat, o: DecodeOpts, strip: bool)
    requires off <= |src| && DecodeValue(src, off, depth, o, strip).Ok?
    ensures Guaranteed(DecodeValue(src, off, depth, o, strip).value, o, depth)
    decreases |src| - off, 0
  {
    hide ParseHead, HalfToDouble, ValidUTF8, DecodeArray, DecodeMap, KeysApart, DecodeChunks;
    var h := ParseHead(src[off..]);
    var pos := off + h.n;
    if h.major == MAJOR_BYTES || h.major == MAJOR_TEXT {
      if h.ai == AI_INDEFINITE {
        ChunksGuaranteed(src, pos, h.major, [], o);
      }
    } else if h.major == MAJOR_ARRAY {
      ArrayGuaranteed(src, off, h, depth, o);
    } else if h.major == MAJOR_MAP {
      MapGuaranteed(src, off, h, depth, o);
    } else if h.major == MAJOR_TAG {
      if h.arg == SELF_DESCRIBE && strip {
        ValueGuaranteed(src, pos, depth, o, true);
      } else {
        ValueGuaranteed(src, pos, depth + 1, o, false);
      }
    }
  }

  lemma ArrayGuaranteed(src: seq<Byte>, off: nat, h: Head, depth: nat, o: DecodeOpts)
    requires off + h.n <= |src| && h.n > 0 && DecodeArray(src, off, h, depth, o).Ok?
    ensures Guaranteed(DecodeArray(src, off, h, depth, o).value, o, depth)
    decreases |src| - off - h.n, 5
  {
    if h.ai == AI_INDEFINITE {
      UntilBreakGuaranteed(src, off + h.n, [], depth + 1, o);
    } else {
      ItemsGuaranteed(src, off + h.n, h.arg, [], depth + 1, o);
    }
  }

  lemma MapGuaranteed(src: seq<Byte>, off: nat, h: Head, depth: nat, o: DecodeOpts)
    requires off + h.n <= |src| && h.n > 0 && DecodeMap(src, off, h, depth, o).Ok?
    ensures Guaranteed(DecodeMap(src, off, h, depth, o).value, o, depth)
    decreases |src| - off - h.n, 5
  {
    hide KeysApart, DecodePairs, DecodePairsUntilBreak, GuaranteedEntry;
    MapKeysApart(src, off, h, depth, o);
    if h.ai == AI_INDEFINITE {
      PairsUntilBreakGuaranteed(src, off + h.n, NO_PAIRS, depth + 1, o);
    } else {
      PairsGuaranteed(src, off + h.n, h.arg, NO_PAIRS, h.arg > DEDUP_THRESHOLD, depth + 1, o);
    }
  }

  /** A map of few entries that was checked for duplicates was checked by the scan. */
  lemma MapKeysApart(src: seq<Byte>, off: nat, h: Head, depth: nat, o: DecodeOpts)
    requires off + h.n <= |src| && h.n > 0 && DecodeMap(src, off, h, depth, o).Ok?
    ensures DecodeMap(src, off, h, depth, o).value.Map?
    ensures var pairs := DecodeMap(src, off, h, depth, o).value.pairs;
            o.rejectDuplicateKeys && |pairs| <= DEDUP_THRESHOLD ==> KeysApart(pairs)
  {
    hide DecodeMap, KeysApart, KeepsLast, Distinct, ReadPairs, ReadPairsUntilBreak;
    DecodedMapKeepsLast(src, off, h, depth, o);
  }

  lemma ElementGuaranteed(src: seq<Byte>, pos: nat, depth: nat, o: DecodeOpts)
    requires pos <= |src|
    ensures DecodeElement(src, pos, depth, o).Ok? ==> Guaranteed(DecodeElement(src, pos, depth, o).value, o, depth)
    ensures DecodeKey(src, pos, depth, o).Ok? ==> Guaranteed(DecodeKey(src, pos, depth, o).value, o, depth)
    decreases |src| - pos, 1
  {
    hide DecodeValue, ValidUTF8;
    if DecodeValue(src, pos, depth, o, false).Ok? {
      ValueGuaranteed(src, pos, depth, o, false);
    }
  }

  lemma {:induction false} ItemsGuaranteed(src: seq<Byte>, pos: nat, count: nat, arr: seq<Value>, depth: nat,
                                           o: DecodeOpts)
    requires pos <= |src| && GuaranteedItems(arr, o, depth) && DecodeItems(src, pos, count, arr, depth, o).Ok?
    ensures var vs := DecodeItems(src, pos, count, arr, depth, o).value;
            |vs| == |arr| + count && GuaranteedItems(vs, o, depth)
    decreases |src| - pos, 2
  {
    hide DecodeElement, Guaranteed;
    if count > 0 {
      ElementGuaranteed(src, pos, depth, o);
      var e := DecodeElement(src, pos, depth, o);
      GuaranteedSnoc(arr, e.value, o, depth);
      ItemsGuaranteed(src, e.next, count - 1, arr + [e.value], depth, o);
    }
  }

  lemma {:induction false} UntilBreakGuaranteed(src: seq<Byte>, pos: nat, arr: seq<Value>, depth: nat, o: DecodeOpts)
    requires pos <= |src| && GuaranteedItems(arr, o, depth) && |arr| <= o.MaxArray()
    requires DecodeUntilBreak(src, pos, arr, depth, o).Ok?
    ensures var vs := DecodeUntilBreak(src, pos, arr, depth, o).value;
            |vs| <= o.MaxArray() && GuaranteedItems(vs, o, depth)
    decreases |src| - pos, 2
  {
    hide DecodeValue, Guaranteed;
    if src[pos] != BREAK_CODE {
      ValueGuaranteed(src, pos, depth, o, false);
      var e := DecodeValue(src, pos, depth, o, false);
      GuaranteedSnoc(arr, e.value, o, depth);
      UntilBreakGuaranteed(src, e.next, arr + [e.value], depth, o);
    }
  }

  lemma InsertGuaranteed(m: Pairs, k: Value, v: Value, h: U64, dedup: bool, reject: bool, o: DecodeOpts, depth: nat)
    requires m.Valid() && GuaranteedPairs(m.entries, o, depth)
    requires Guaranteed(k, o, depth) && Guaranteed(v, o, depth) && (o.rejectNullKeys ==> !k.Null?)
    ensures var r := MapInsert(m, k, v, h, dedup, reject);
            r.Some? ==> GuaranteedPairs(r.value.entries, o, depth) && |r.value.entries| <= |m.entries| + 1
  {
    hide Guaranteed, FindKey;
    var found := FindKey(m, 0, k, h, dedup);
    if found.Some? {
      assert GuaranteedEntry(m.entries[found.value], o, depth);
    }
  }

  lemma PairGuaranteed(src: seq<Byte>, keyOff: nat, key: Decoded<Value>, m: Pairs, dedup: bool, depth: nat,
                       o: DecodeOpts)
    requires keyOff <= |src| && m.Valid() && (key.Ok? ==> keyOff < key.next <= |src|)
    requires GuaranteedPairs(m.entries, o, depth) && (key.Ok? ==> Guaranteed(key.value, o, depth))
    requires DecodePair(src, keyOff, key, m, dedup, depth, o).Ok?
    ensures var r := DecodePair(src, keyOff, key, m, dedup, depth, o).value;
            GuaranteedPairs(r.entries, o, depth) && |r.entries| <= |m.entries| + 1
    decreases |src| - keyOff, 2
  {
    hide DecodeValue, MapInsert, Fnv1a, Guaranteed, GuaranteedPairs;
    ValueGuaranteed(src, key.next, depth, o, false);
    var v := DecodeValue(src, key.next, depth, o, false);
    InsertGuaranteed(m, key.value, v.value, Fnv1a(src[keyOff..key.next]), dedup, o.rejectDuplicateKeys, o, depth);
  }

  lemma {:induction false} PairsGuaranteed(src: seq<Byte>, pos: nat, count: nat, m: Pairs, dedup: bool, depth: nat,
                                           o: DecodeOpts)
    requires pos <= |src| && m.Valid() && GuaranteedPairs(m.entries, o, depth)
    requires DecodePairs(src, pos, count, m, dedup, depth, o).Ok?
    ensures var r := DecodePairs(src, pos, count, m, dedup, depth, o).value;
            GuaranteedPairs(r.entries, o, depth) && |r.entries| <= |m.entries| + count
    decreases |src| - pos, 3
  {
    hide DecodeKey, DecodePair, GuaranteedPairs;
    if count > 0 {
      ElementGuaranteed(src, pos, depth, o);
      var k := DecodeKey(src, pos, depth, o);
      PairGuaranteed(src, pos, k, m, dedup, depth, o);
      var r := DecodePair(src, pos, k, m, dedup, depth, o);
      PairsGuaranteed(src, r.next, count - 1, r.value, dedup, depth, o);
    }
  }

  lemma {:induction false} PairsUntilBreakGuaranteed(src: seq<Byte>, pos: nat, m: Pairs, depth: nat, o: DecodeOpts)
    requires pos <= |src| && m.Valid() && GuaranteedPairs(m.entries, o, depth) && |m.entries| <= o.MaxArray()
    requires DecodePairsUntilBreak(src, pos, m, depth, o).Ok?
    ensures var r := DecodePairsUntilBreak(src, pos, m, depth, o).value;
            GuaranteedPairs(r.entries, o, depth) && |r.entries| <= o.MaxArray()
    decreases |src| - pos, 3
  {
    hide DecodeValue, DecodePair, GuaranteedPairs;
    if src[pos] != BREAK_CODE {
      var k := DecodeValue(src, pos, depth, o, false);
      if k.Ok? {
        ValueGuaranteed(src, pos, depth, o, false);
      }
      PairGuaranteed(src, pos, k, m, false, depth, o);
      var r := DecodePair(src, pos, k, m, false, depth, o);
      PairsUntilBreakGuaranteed(src, r.next, r.value, depth, o);
    }
  }

  /** Every decoded value keeps the limits and contains nothing that the options reject. */
  lemma DecodedIsGuaranteed(src: seq<Byte>, o: DecodeOpts)
    requires Decode(src, o).Ok?
    ensures Guaranteed(Decode(src, o).value, o, 0)
  {
    hide DecodeValue, Guaranteed;
    ValueGuaranteed(src, 0, 0, o, true);
  }
}
