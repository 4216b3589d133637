/**
 A successful decode depends only on the bytes it consumes: the same bytes in any other
 source, at any other offset, decode to the same value.
 */
module Locality {
  import opened Bytes
  import opened Wire
  import opened Floats
  import opened Values
  import D = Decoding
  import opened Decoding

  /** n bytes of src from off on stand in dst from at on. */
  predicate Copied(src: seq<Byte>, off: nat, dst: seq<Byte>, at: nat, n: nat) {
    off + n <= |src| && at + n <= |dst| && src[off..off + n] == dst[at..at + n]
  }

  /** The result in src, seen from the copy. */
  predicate Moved<T(==)>(r: Decoded<T>, off: nat, r': Decoded<T>, at: nat) {
    r.Ok? && r.next >= off && r' == D.Decoded.Ok(r.value, at + (r.next - off))
  }

  lemma CopiedByte(src: seq<Byte>, off: nat, dst: seq<Byte>, at: nat, n: nat, i: nat)
    requires Copied(src, off, dst, at, n) && i < n
    ensures src[off + i] == dst[at + i]
  {
    assert src[off..off + n][i] == src[off + i] && dst[at..at + n][i] == dst[at + i];
  }

  lemma CopiedPart(src: seq<Byte>, off: nat, dst: seq<Byte>, at: nat, n: nat, i: nat, k: nat)
    requires Copied(src, off, dst, at, n) && i + k <= n
    ensures Copied(src, off + i, dst, at + i, k) && src[off + i..off + i + k] == dst[at + i..at + i + k]
  {
    SliceOfSlice(src, off, n, i, k);
    SliceOfSlice(dst, at, n, i, k);
  }

  lemma SliceOfSlice(s: seq<Byte>, off: nat, n: nat, i: nat, k: nat)
    requires off + n <= |s| && i + k <= n
    ensures s[off..off + n][i..i + k] == s[off + i..off + i + k]
  {
    var a, b := s[off..off + n][i..i + k], s[off + i..off + i + k];
    assert |a| == |b|;
    forall j | 0 <= j < k
      ensures a[j] == b[j]
    {
    }
  }

  lemma LocalHead(src: seq<Byte>, off: nat, dst: seq<Byte>, at: nat, n: nat)
    requires Copied(src, off, dst, at, n) && 0 < ParseHead(src[off..]).n <= n
    ensures ParseHead(dst[at..]) == ParseHead(src[off..])
  {
    var h := ParseHead(src[off..]);
    CopiedByte(src, off, dst, at, n, 0);
    if h.n > 1 {
      CopiedPart(src, off, dst, at, n, 1, h.n - 1);
      assert src[off..][1..h.n] == src[off + 1..off + 1 + (h.n - 1)];
      assert dst[at..][1..h.n] == dst[at + 1..at + 1 + (h.n - 1)];
    }
  }

  // ---------------------------------------------------------------- strings

  /** A chunk with this head is taken after `size` bytes. */
  predicate ChunkTaken(h: Head, major: Major, size: nat, o: DecodeOpts) {
    && h.n > 0 && h.major == major && h.ai != AI_INDEFINITE && !Reserved(h) && !Overlong(h, o)
    && h.arg <= o.MaxBytes() && size + h.arg <= o.MaxBytes()
  }

  /** What a successful decode does at pos: it ends at a break or takes one chunk. */
  lemma ChunkStep(src: seq<Byte>, pos: nat, major: Major, buf: seq<Byte>, o: DecodeOpts)
    requires pos <= |src|
    ensures var r := DecodeChunks(src, pos, major, buf, o);
            if pos < |src| && src[pos] == BREAK_CODE then r == D.Decoded.Ok(buf, pos + 1)
            else
              var h := ParseHead(src[pos..]);
              if pos < |src| && ChunkTaken(h, major, |buf|, o) && pos + h.n + h.arg <= |src|
              then r == DecodeChunks(src, pos + h.n + h.arg, major, buf + src[pos + h.n..pos + h.n + h.arg], o)
              else r.Err?
  {
    hide ParseHead;
  }

  lemma {:induction false} LocalChunks(src: seq<Byte>, pos: nat, dst: seq<Byte>, at: nat, major: Major,
                                       buf: seq<Byte>, o: DecodeOpts)
    requires pos <= |src| && DecodeChunks(src, pos, major, buf, o).Ok?
    requires Copied(src, pos, dst, at, DecodeChunks(src, pos, major, buf, o).next - pos)
    ensures at < |dst| && Moved(DecodeChunks(src, pos, major, buf, o), pos, DecodeChunks(dst, at, major, buf, o), at)
    decreases |src| - pos
  {
    hide ParseHead, Copied, DecodeChunks, ChunkTaken;
    var n := DecodeChunks(src, pos, major, buf, o).next - pos;
    CopiedBounds(src, pos, dst, at, n);
    ChunkStep(src, pos, major, buf, o);
    ChunkStep(dst, at, major, buf, o);
    CopiedByte(src, pos, dst, at, n, 0);
    if src[pos] != BREAK_CODE {
      var h := ParseHead(src[pos..]);
      var size := h.n + h.arg;
      ChunkHasHead(h, major, |buf|, o);
      LocalHead(src, pos, dst, at, n);
      CopiedPart(src, pos, dst, at, n, h.n, h.arg);
      CopiedPart(src, pos, dst, at, n, size, n - size);
      LocalChunks(src, pos + size, dst, at + size, major, buf + src[pos + h.n..pos + size], o);
    }
  }

  lemma ChunkHasHead(h: Head, major: Major, size: nat, o: DecodeOpts)
    requires ChunkTaken(h, major, size, o)
    ensures h.n > 0
  {
  }

  lemma CopiedBounds(src: seq<Byte>, off: nat, dst: seq<Byte>, at: nat, n: nat)
    requires Copied(src, off, dst, at, n)
    ensures off + n <= |src| && at + n <= |dst|
  {
  }

  lemma LocalDefinite(src: seq<Byte>, off: nat, dst: seq<Byte>, at: nat, h: Head, o: DecodeOpts)
    requires off + h.n <= |src| && h.n > 0 && DecodeDefinite(src, off, h, o).Ok?
    requires Copied(src, off, dst, at, DecodeDefinite(src, off, h, o).next - off)
    ensures at + h.n <= |dst| && Moved(DecodeDefinite(src, off, h, o), off, DecodeDefinite(dst, at, h, o), at)
  {
    hide Copied;
    var n := h.n + h.arg;
    CopiedBounds(src, off, dst, at, n);
    CopiedPart(src, off, dst, at, n, h.n, h.arg);
  }

  lemma LocalBytes(src: seq<Byte>, off: nat, dst: seq<Byte>, at: nat, h: Head, o: DecodeOpts)
    requires off + h.n <= |src| && h.n > 0 && DecodeBytes(src, off, h, o).Ok?
    requires Copied(src, off, dst, at, DecodeBytes(src, off, h, o).next - off)
    ensures at + h.n <= |dst| && Moved(DecodeBytes(src, off, h, o), off, DecodeBytes(dst, at, h, o), at)
  {
    hide Copied, DecodeDefinite, DecodeChunks;
    var n := DecodeBytes(src, off, h, o).next - off;
    if h.ai == AI_INDEFINITE {
      CopiedBounds(src, off, dst, at, n);
      CopiedPart(src, off, dst, at, n, h.n, n - h.n);
      LocalChunks(src, off + h.n, dst, at + h.n, MAJOR_BYTES, [], o);
    } else {
      LocalDefinite(src, off, dst, at, h, o);
    }
  }

  lemma LocalText(src: seq<Byte>, off: nat, dst: seq<Byte>, at: nat, h: Head, o: DecodeOpts)
    requires off + h.n <= |src| && h.n > 0 && DecodeText(src, off, h, o).Ok?
    requires Copied(src, off, dst, at, DecodeText(src, off, h, o).next - off)
    ensures at + h.n <= |dst| && Moved(DecodeText(src, off, h, o), off, DecodeText(dst, at, h, o), at)
  {
    hide Copied, DecodeDefinite, DecodeChunks, ValidUTF8;
    var n := DecodeText(src, off, h, o).next - off;
    if h.ai == AI_INDEFINITE {
      CopiedBounds(src, off, dst, at, n);
      CopiedPart(src, off, dst, at, n, h.n, n - h.n);
      LocalChunks(src, off + h.n, dst, at + h.n, MAJOR_TEXT, [], o);
    } else {
      LocalDefinite(src, off, dst, at, h, o);
    }
  }

  // ---------------------------------------------------------------- items

  lemma {:induction false} LocalValue(src: seq<Byte>, off: nat, dst: seq<Byte>, at: nat, depth: nat, o: DecodeOpts,
                                      strip: bool)
    requires off <= |src| && DecodeValue(src, off, depth, o, strip).Ok?
    requires Copied(src, off, dst, at, DecodeValue(src, off, depth, o, strip).next - off)
    ensures at < |dst| && Moved(DecodeValue(src, off, depth, o, strip), off, DecodeValue(dst, at, depth, o, strip), at)
    decreases |src| - off, 0
  {
    hide ParseHead, Copied, DecodeBytes, DecodeText, DecodeArray, DecodeMap, DecodeTag, DecodeOther;
    var n := DecodeValue(src, off, depth, o, strip).next - off;
    var h := ParseHead(src[off..]);
    HeadFits(src, off, depth, o, strip);
    CopiedBounds(src, off, dst, at, n);
    LocalHead(src, off, dst, at, n);
    if h.major == MAJOR_BYTES {
      LocalBytes(src, off, dst, at, h, o);
    } else if h.major == MAJOR_TEXT {
      LocalText(src, off, dst, at, h, o);
    } else if h.major == MAJOR_ARRAY {
      LocalArray(src, off, dst, at, h, depth, o);
    } else if h.major == MAJOR_MAP {
      LocalMap(src, off, dst, at, h, depth, o);
    } else if h.major == MAJOR_TAG {
      LocalTag(src, off, dst, at, h, depth, o, strip);
    } else if h.major == MAJOR_OTHER {
      LocalOther(off, at, h, o);
    }
  }

  /** The consumed bytes include the head. */
  lemma HeadFits(src: seq<Byte>, off: nat, depth: nat, o: DecodeOpts, strip: bool)
    requires off <= |src| && DecodeValue(src, off, depth, o, strip).Ok?
    ensures var h := ParseHead(src[off..]);
            0 < h.n && off + h.n <= DecodeValue(src, off, depth, o, strip).next
  {
    hide ParseHead, ValidUTF8, DecodeItems, DecodePairs, DecodeUntilBreak, DecodePairsUntilBreak, DecodeChunks;
  }

  lemma LocalOther(off: nat, at: nat, h: Head, o: DecodeOpts)
    requires h.n > 0 && DecodeOther(off, h, o).Ok?
    ensures Moved(DecodeOther(off, h, o), off, DecodeOther(at, h, o), at)
  {
    hide HalfToDouble, IsFinite32, IsFinite64;
  }

  lemma LocalTag(src: seq<Byte>, off: nat, dst: seq<Byte>, at: nat, h: Head, depth: nat, o: DecodeOpts, strip: bool)
    requires off + h.n <= |src| && h.n > 0 && at + h.n <= |dst| && DecodeTag(src, off, h, depth, o, strip).Ok?
    requires Copied(src, off, dst, at, DecodeTag(src, off, h, depth, o, strip).next - off)
    ensures Moved(DecodeTag(src, off, h, depth, o, strip), off, DecodeTag(dst, at, h, depth, o, strip), at)
    decreases |src| - off - h.n, 1
  {
    hide Copied, DecodeValue;
    var n := DecodeTag(src, off, h, depth, o, strip).next - off;
    CopiedPart(src, off, dst, at, n, h.n, n - h.n);
    if h.arg == SELF_DESCRIBE && strip {
      LocalValue(src, off + h.n, dst, at + h.n, depth, o, true);
    } else {
      LocalValue(src, off + h.n, dst, at + h.n, depth + 1, o, false);
    }
  }

  lemma LocalElement(src: seq<Byte>, pos: nat, dst: seq<Byte>, at: nat, depth: nat, o: DecodeOpts)
    requires pos <= |src| && DecodeElement(src, pos, depth, o).Ok?
    requires Copied(src, pos, dst, at, DecodeElement(src, pos, depth, o).next - pos)
    ensures at < |dst| && Moved(DecodeElement(src, pos, depth, o), pos, DecodeElement(dst, at, depth, o), at)
    decreases |src| - pos, 1
  {
    hide Copied, DecodeValue, ValidUTF8;
    var n := DecodeElement(src, pos, depth, o).next - pos;
    CopiedBounds(src, pos, dst, at, n);
    CopiedByte(src, pos, dst, at, n, 0);
    if ShortStringAt(src, pos, MAJOR_TEXT) || ShortStringAt(src, pos, MAJOR_BYTES) {
      CopiedPart(src, pos, dst, at, n, 1, n - 1);
    } else {
      LocalValue(src, pos, dst, at, depth, o, false);
      ShortNeedsValue(src, pos, depth, o);
    }
  }

  /** Where the general path succeeds on a short string, the string is whole. */
  lemma ShortNeedsValue(src: seq<Byte>, pos: nat, depth: nat, o: DecodeOpts)
    requires pos < |src| && DecodeValue(src, pos, depth, o, false).Ok?
    ensures (src[pos] / 32 == MAJOR_TEXT || src[pos] / 32 == MAJOR_BYTES) && src[pos] % 32 < 24 ==>
              pos + 1 + src[pos] % 32 <= |src|
  {
    hide ValidUTF8;
    if (src[pos] / 32 == MAJOR_TEXT || src[pos] / 32 == MAJOR_BYTES) && src[pos] % 32 < 24 {
      assert ParseHead(src[pos..]) == Head(src[pos] / 32, src[pos] % 32, src[pos] % 32, 1);
    }
  }

  lemma LocalKey(src: seq<Byte>, pos: nat, dst: seq<Byte>, at: nat, depth: nat, o: DecodeOpts)
    requires pos <= |src| && DecodeKey(src, pos, depth, o).Ok?
    requires Copied(src, pos, dst, at, DecodeKey(src, pos, depth, o).next - pos)
    ensures at < |dst| && Moved(DecodeKey(src, pos, depth, o), pos, DecodeKey(dst, at, depth, o), at)
    decreases |src| - pos, 1
  {
    hide Copied, DecodeValue, ValidUTF8;
    var n := DecodeKey(src, pos, depth, o).next - pos;
    CopiedBounds(src, pos, dst, at, n);
    CopiedByte(src, pos, dst, at, n, 0);
    if ShortStringAt(src, pos, MAJOR_TEXT) {
      CopiedPart(src, pos, dst, at, n, 1, n - 1);
    } else {
      LocalValue(src, pos, dst, at, depth, o, false);
      ShortNeedsValue(src, pos, depth, o);
    }
  }

  lemma LocalArray(src: seq<Byte>, off: nat, dst: seq<Byte>, at: nat, h: Head, depth: nat, o: DecodeOpts)
    requires off + h.n <= |src| && h.n > 0 && at + h.n <= |dst| && DecodeArray(src, off, h, depth, o).Ok?
    requires Copied(src, off, dst, at, DecodeArray(src, off, h, depth, o).next - off)
    ensures Moved(DecodeArray(src, off, h, depth, o), off, DecodeArray(dst, at, h, depth, o), at)
    decreases |src| - off - h.n, 3
  {
    hide Copied, DecodeItems, DecodeUntilBreak;
    var n := DecodeArray(src, off, h, depth, o).next - off;
    CopiedPart(src, off, dst, at, n, h.n, n - h.n);
    if h.ai == AI_INDEFINITE {
      LocalUntilBreak(src, off + h.n, dst, at + h.n, [], depth + 1, o);
    } else {
      LocalItems(src, off + h.n, dst, at + h.n, h.arg, [], depth + 1, o);
    }
  }

  lemma {:induction false} LocalItems(src: seq<Byte>, pos: nat, dst: seq<Byte>, at: nat, count: nat, arr: seq<Value>,
                                      depth: nat, o: DecodeOpts)
    requires pos <= |src| && DecodeItems(src, pos, count, arr, depth, o).Ok?
    requires Copied(src, pos, dst, at, DecodeItems(src, pos, count, arr, depth, o).next - pos)
    ensures at <= |dst| && Moved(DecodeItems(src, pos, count, arr, depth, o), pos,
                                 DecodeItems(dst, at, count, arr, depth, o), at)
    decreases |src| - pos, 2
  {
    hide Copied, DecodeElement;
    var n := DecodeItems(src, pos, count, arr, depth, o).next - pos;
    CopiedBounds(src, pos, dst, at, n);
    if count > 0 {
      var v := DecodeElement(src, pos, depth, o);
      var k := v.next - pos;
      CopiedPart(src, pos, dst, at, n, 0, k);
      CopiedPart(src, pos, dst, at, n, k, n - k);
      LocalElement(src, pos, dst, at, depth, o);
      LocalItems(src, pos + k, dst, at + k, count - 1, arr + [v.value], depth, o);
    }
  }

  lemma {:induction false} LocalUntilBreak(src: seq<Byte>, pos: nat, dst: seq<Byte>, at: nat, arr: seq<Value>,
                                           depth: nat, o: DecodeOpts)
    requires pos <= |src| && DecodeUntilBreak(src, pos, arr, depth, o).Ok?
    requires Copied(src, pos, dst, at, DecodeUntilBreak(src, pos, arr, depth, o).next - pos)
    ensures at <= |dst| && Moved(DecodeUntilBreak(src, pos, arr, depth, o), pos,
                                 DecodeUntilBreak(dst, at, arr, depth, o), at)
    decreases |src| - pos, 2
  {
    hide Copied, DecodeValue;
    var n := DecodeUntilBreak(src, pos, arr, depth, o).next - pos;
    CopiedBounds(src, pos, dst, at, n);
    CopiedByte(src, pos, dst, at, n, 0);
    if src[pos] != BREAK_CODE {
      var v := DecodeValue(src, pos, depth, o, false);
      var k := v.next - pos;
      CopiedPart(src, pos, dst, at, n, 0, k);
      CopiedPart(src, pos, dst, at, n, k, n - k);
      LocalValue(src, pos, dst, at, depth, o, false);
      LocalUntilBreak(src, pos + k, dst, at + k, arr + [v.value], depth, o);
    }
  }

  lemma LocalMap(src: seq<Byte>, off: nat, dst: seq<Byte>, at: nat, h: Head, depth: nat, o: DecodeOpts)
    requires off + h.n <= |src| && h.n > 0 && at + h.n <= |dst| && DecodeMap(src, off, h, depth, o).Ok?
    requires Copied(src, off, dst, at, DecodeMap(src, off, h, depth, o).next - off)
    ensures Moved(DecodeMap(src, off, h, depth, o), off, DecodeMap(dst, at, h, depth, o), at)
    decreases |src| - off - h.n, 5
  {
    hide Copied, DecodePairs, DecodePairsUntilBreak;
    var n := DecodeMap(src, off, h, depth, o).next - off;
    CopiedPart(src, off, dst, at, n, h.n, n - h.n);
    if h.ai == AI_INDEFINITE {
      LocalPairsUntilBreak(src, off + h.n, dst, at + h.n, NO_PAIRS, depth + 1, o);
    } else {
      LocalPairs(src, off + h.n, dst, at + h.n, h.arg, NO_PAIRS, h.arg > DEDUP_THRESHOLD, depth + 1, o);
    }
  }

  /** A pair whose key is already known to move. */
  lemma LocalPair(src: seq<Byte>, pos: nat, dst: seq<Byte>, at: nat, key: Decoded<Value>, key': Decoded<Value>,
                  m: Pairs, dedup: bool, depth: nat, o: DecodeOpts)
    requires pos <= |src| && m.Valid() && key.Ok? && pos < key.next <= |src|
    requires DecodePair(src, pos, key, m, dedup, depth, o).Ok?
    requires Copied(src, pos, dst, at, DecodePair(src, pos, key, m, dedup, depth, o).next - pos)
    requires Moved(key, pos, key', at)
    ensures at < key'.next <= |dst|
    ensures Moved(DecodePair(src, pos, key, m, dedup, depth, o), pos, DecodePair(dst, at, key', m, dedup, depth, o), at)
    decreases |src| - pos, 3
  {
    hide Copied, DecodeValue, MapInsert, Fnv1a;
    var n := DecodePair(src, pos, key, m, dedup, depth, o).next - pos;
    var k := key.next - pos;
    CopiedBounds(src, pos, dst, at, n);
    CopiedPart(src, pos, dst, at, n, 0, k);
    CopiedPart(src, pos, dst, at, n, k, n - k);
    LocalValue(src, key.next, dst, key'.next, depth, o, false);
  }

  lemma {:induction false} LocalPairs(src: seq<Byte>, pos: nat, dst: seq<Byte>, at: nat, count: nat, m: Pairs,
                                      dedup: bool, depth: nat, o: DecodeOpts)
    requires pos <= |src| && m.Valid() && DecodePairs(src, pos, count, m, dedup, depth, o).Ok?
    requires Copied(src, pos, dst, at, DecodePairs(src, pos, count, m, dedup, depth, o).next - pos)
    ensures at <= |dst| && Moved(DecodePairs(src, pos, count, m, dedup, depth, o), pos,
                                 DecodePairs(dst, at, count, m, dedup, depth, o), at)
    decreases |src| - pos, 4
  {
    hide Copied, DecodeKey, DecodePair;
    var n := DecodePairs(src, pos, count, m, dedup, depth, o).next - pos;
    CopiedBounds(src, pos, dst, at, n);
    if count > 0 {
      var key := DecodeKey(src, pos, depth, o);
      var pair := DecodePair(src, pos, key, m, dedup, depth, o);
      PairNeedsKey(src, pos, key, m, dedup, depth, o);
      var k, j := pair.next - pos, key.next - pos;
      CopiedPart(src, pos, dst, at, n, 0, k);
      CopiedPart(src, pos, dst, at, n, 0, j);
      CopiedPart(src, pos, dst, at, n, k, n - k);
      LocalKey(src, pos, dst, at, depth, o);
      LocalPair(src, pos, dst, at, key, DecodeKey(dst, at, depth, o), m, dedup, depth, o);
      LocalPairs(src, pos + k, dst, at + k, count - 1, pair.value, dedup, depth, o);
    }
  }

  lemma PairNeedsKey(src: seq<Byte>, pos: nat, key: Decoded<Value>, m: Pairs, dedup: bool, depth: nat, o: DecodeOpts)
    requires pos <= |src| && m.Valid() && (key.Ok? ==> pos < key.next <= |src|)
    requires DecodePair(src, pos, key, m, dedup, depth, o).Ok?
    ensures key.Ok? && key.next <= DecodePair(src, pos, key, m, dedup, depth, o).next
  {
    hide DecodeValue, MapInsert, Fnv1a;
  }

  lemma {:induction false} LocalPairsUntilBreak(src: seq<Byte>, pos: nat, dst: seq<Byte>, at: nat, m: Pairs,
                                                depth: nat, o: DecodeOpts)
    requires pos <= |src| && m.Valid() && DecodePairsUntilBreak(src, pos, m, depth, o).Ok?
    requires Copied(src, pos, dst, at, DecodePairsUntilBreak(src, pos, m, depth, o).next - pos)
    ensures at <= |dst| && Moved(DecodePairsUntilBreak(src, pos, m, depth, o), pos,
                                 DecodePairsUntilBreak(dst, at, m, depth, o), at)
    decreases |src| - pos, 4
  {
    hide Copied, DecodeValue, DecodePair;
    var n := DecodePairsUntilBreak(src, pos, m, depth, o).next - pos;
    CopiedBounds(src, pos, dst, at, n);
    CopiedByte(src, pos, dst, at, n, 0);
    if src[pos] != BREAK_CODE {
      var key := DecodeValue(src, pos, depth, o, false);
      var pair := DecodePair(src, pos, key, m, false, depth, o);
      PairNeedsKey(src, pos, key, m, false, depth, o);
      var k, j := pair.next - pos, key.next - pos;
      CopiedPart(src, pos, dst, at, n, 0, k);
      CopiedPart(src, pos, dst, at, n, 0, j);
      CopiedPart(src, pos, dst, at, n, k, n - k);
      LocalValue(src, pos, dst, at, depth, o, false);
      LocalPair(src, pos, dst, at, key, DecodeValue(dst, at, depth, o, false), m, false, depth, o);
      LocalPairsUntilBreak(src, pos + k, dst, at + k, pair.value, depth, o);
    }
  }

  /** Decode sees no further than the item it returns. */
  lemma DecodeIsLocal(src: seq<Byte>, dst: seq<Byte>, o: DecodeOpts)
    requires Decode(src, o).Ok? && src[..Decode(src, o).next] <= dst
    ensures Decode(dst, o) == Decode(src, o)
  {
    hide DecodeValue;
    var n := Decode(src, o).next;
    assert dst[..n] == src[..n];
    assert src[0..n] == src[..n] && dst[0..n] == dst[..n];
    LocalValue(src, 0, dst, 0, 0, o, true);
  }
}
