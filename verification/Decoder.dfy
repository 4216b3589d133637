/**
 The decoder as it runs (rfc8949/decode.go): loops over the source, the hand-inlined paths
 for array elements and map keys, and the hash index of large maps. Every method is proved
 to return exactly what the function of the same name in `Decoding` says, error kind and
 offset included.
 */
module Decoder {
  import opened Bytes
  import opened Wire
  import opened Floats
  import opened Values
  import D = Decoding
  import opened Decoding

  // ---------------------------------------------------------------- the key index

  /** The positions that hold h, in increasing order. */
  function PositionsOf(hashes: seq<U64>, h: U64): (r: seq<nat>)
    ensures forall k | 0 <= k < |r| :: r[k] < |hashes| && hashes[r[k]] == h
  {
    if hashes == [] then []
    else
      var front := PositionsOf(hashes[..|hashes| - 1], h);
      if hashes[|hashes| - 1] == h then front + [|hashes| - 1] else front
  }

  lemma {:induction false} PositionsComplete(hashes: seq<U64>, h: U64, i: nat)
    requires i < |hashes| && hashes[i] == h
    ensures i in PositionsOf(hashes, h)
  {
    if i < |hashes| - 1 {
      PositionsComplete(hashes[..|hashes| - 1], h, i);
    }
  }

  lemma {:induction false} PositionsIncrease(hashes: seq<U64>, h: U64)
    ensures forall j, k | 0 <= j < k < |PositionsOf(hashes, h)| :: PositionsOf(hashes, h)[j] < PositionsOf(hashes, h)[k]
  {
    if hashes != [] {
      PositionsIncrease(hashes[..|hashes| - 1], h);
    }
  }

  /** keyDedup: for every hash, the entries that were added under it. */
  class KeyDedup {
    var seen: map<U64, seq<nat>>

    constructor ()
      ensures seen == map[]
    {
      seen := map[];
    }

    function Seen(h: U64): seq<nat>
      reads this
    {
      if h in seen then seen[h] else []
    }

    ghost predicate Indexes(hashes: seq<U64>)
      reads this
    {
      forall h: U64 :: Seen(h) == PositionsOf(hashes, h)
    }

    method Add(h: U64, i: nat, ghost hashes: seq<U64>)
      requires Indexes(hashes) && i == |hashes|
      modifies this
      ensures Indexes(hashes + [h])
    {
      assert (hashes + [h])[..i] == hashes;
      seen := seen[h := Seen(h) + [i]];
    }
  }

  /** The first of the listed positions whose key equals this one. */
  lemma FindAmongPositions(st: Pairs, key: Value, h: U64, k: nat)
    requires st.Valid() && k <= |PositionsOf(st.hashes, h)|
    requires forall j | 0 <= j < k :: !ValuesEqual(st.entries[PositionsOf(st.hashes, h)[j]].key, key)
    ensures var p := PositionsOf(st.hashes, h);
            if k == |p| then FindKey(st, 0, key, h, true) == None
            else ValuesEqual(st.entries[p[k]].key, key) ==> FindKey(st, 0, key, h, true) == Some(p[k])
  {
    var p := PositionsOf(st.hashes, h);
    PositionsIncrease(st.hashes, h);
    var r := FindKey(st, 0, key, h, true);
    if r.Some? {
      PositionsComplete(st.hashes, h, r.value);
    }
    if k < |p| && ValuesEqual(st.entries[p[k]].key, key) {
      assert KeyHit(st, p[k], key, h, true);
    }
  }

  /** fnv1a. */
  method HashKey(b: seq<Byte>) returns (h: U64)
    ensures h == Fnv1a(b)
  {
    hide XorBits;
    h := FNV_OFFSET;
    var i := 0;
    while i < |b|
      invariant i <= |b| && h == Fnv1a(b[..i])
    {
      assert b[..i + 1][..i] == b[..i];
      h := XorBits(h, b[i], 64) * FNV_PRIME % 0x1_0000_0000_0000_0000;
      i := i + 1;
    }
    assert b[..i] == b;
  }

  /** Entry i is the entry of this key; where there is an index, of this hash also. */
  predicate Holds(m: seq<MapEntry>, hashes: seq<U64>, i: nat, key: Value, h: U64, indexed: bool)
    requires |m| == |hashes| && i < |m|
  {
    SameKey(m[i].key, key) && (indexed ==> hashes[i] == h)
  }

  /** None of the first n entries is the entry of this key. */
  predicate NoneHolds(m: seq<MapEntry>, hashes: seq<U64>, n: nat, key: Value, h: U64, indexed: bool)
    requires |m| == |hashes| && n <= |m|
  {
    forall i | 0 <= i < n :: !Holds(m, hashes, i, key, h, indexed)
  }

  /** The first entry of the key gets the value, and a key that has no entry gets one. */
  lemma InsertIsUpdate(m: seq<MapEntry>, hashes: seq<U64>, key: Value, val: Value, h: U64, indexed: bool, reject: bool)
    requires |m| == |hashes|
    ensures var r := D.MapInsert(Pairs(m, hashes), key, val, h, indexed, reject);
            && (NoneHolds(m, hashes, |m|, key, h, indexed) ==>
                  r.Some? && r.value.entries == m + [MapEntry(key, val)])
            && forall i | 0 <= i < |m| ::
                 Holds(m, hashes, i, key, h, indexed) && NoneHolds(m, hashes, i, key, h, indexed)
                 ==> if reject then r.None? else r.Some? && r.value.entries == m[i := MapEntry(m[i].key, val)]
  {
    hide ValuesEqual, SameKey;
    var st := Pairs(m, hashes);
    forall i | 0 <= i < |m|
      ensures KeyHit(st, i, key, h, indexed) <==> Holds(m, hashes, i, key, h, indexed)
    {
      ValuesEqualIsSameKey(m[i].key, key);
    }
  }

  /** mapInsert; `dedup` is null below the threshold. */
  method MapInsert(m: seq<MapEntry>, key: Value, val: Value, encodedKey: seq<Byte>, dedup: KeyDedup?, o: DecodeOpts,
                   ghost hashes: seq<U64>)
    returns (r: Option<seq<MapEntry>>, ghost hashes': seq<U64>)
    requires |m| == |hashes| && (dedup != null ==> dedup.Indexes(hashes))
    modifies dedup
    ensures |hashes'| == if r.Some? then |r.value| else |hashes|
    ensures D.MapInsert(Pairs(m, hashes), key, val, Fnv1a(encodedKey), dedup != null, o.rejectDuplicateKeys)
            == if r.Some? then Some(Pairs(r.value, hashes')) else None
    ensures NoneHolds(m, hashes, |m|, key, Fnv1a(encodedKey), dedup != null) ==> r == Some(m + [MapEntry(key, val)])
    ensures forall i | 0 <= i < |m| && Holds(m, hashes, i, key, Fnv1a(encodedKey), dedup != null)
                       && NoneHolds(m, hashes, i, key, Fnv1a(encodedKey), dedup != null) ::
              r == if o.rejectDuplicateKeys then None else Some(m[i := MapEntry(m[i].key, val)])
    ensures dedup != null && r.Some? ==> dedup.Indexes(hashes')
  {
    hide Fnv1a, ValuesEqual, Holds, NoneHolds;
    InsertIsUpdate(m, hashes, key, val, Fnv1a(encodedKey), dedup != null, o.rejectDuplicateKeys);
    ghost var st := Pairs(m, hashes);
    hashes' := hashes;
    if dedup != null {
      var h := HashKey(encodedKey);
      var positions := dedup.Seen(h);
      var k := 0;
      while k < |positions|
        invariant k <= |positions| && positions == PositionsOf(hashes, h)
        invariant forall j | 0 <= j < k :: !ValuesEqual(m[positions[j]].key, key)
      {
        if ValuesEqual(m[positions[k]].key, key) {
          FindAmongPositions(st, key, h, k);
          if o.rejectDuplicateKeys {
            return None, hashes;
          }
          return Some(m[positions[k] := MapEntry(m[positions[k]].key, val)]), hashes;
        }
        k := k + 1;
      }
      FindAmongPositions(st, key, h, k);
      dedup.Add(h, |m|, hashes);
    } else {
      var i := 0;
      while i < |m|
        invariant i <= |m|
        invariant forall j | 0 <= j < i :: !ValuesEqual(m[j].key, key)
      {
        if ValuesEqual(m[i].key, key) {
          assert KeyHit(st, i, key, Fnv1a(encodedKey), false);
          if o.rejectDuplicateKeys {
            return None, hashes;
          }
          return Some(m[i := MapEntry(m[i].key, val)]), hashes;
        }
        i := i + 1;
      }
    }
    hashes' := hashes + [Fnv1a(encodedKey)];
    return Some(m + [MapEntry(key, val)]), hashes';
  }

  // ---------------------------------------------------------------- strings

  /** What the next chunk makes of the ones before it. */
  lemma NextChunk(src: seq<Byte>, pos: nat, major: Major, buf: seq<Byte>, o: DecodeOpts)
    requires pos <= |src|
    ensures D.DecodeChunks(src, pos, major, buf, o) ==
            if pos >= |src| then Err(Truncated, pos)
            else if src[pos] == BREAK_CODE then Decoded.Ok(buf, pos + 1)
            else
              var h := ParseHead(src[pos..]);
              if h.n == 0 || h.major != major || h.ai == AI_INDEFINITE then Err(Truncated, pos)
              else if Reserved(h) then Err(ReservedAI, pos)
              else if Overlong(h, o) then Err(NonShortest, pos)
              else if h.arg > o.MaxBytes() || |buf| + h.arg > o.MaxBytes() then Err(MaxByteStringLength, pos)
              else if pos + h.n + h.arg > |src| then Err(Truncated, pos)
              else D.DecodeChunks(src, pos + h.n + h.arg, major,
                                  buf + src[pos + h.n..pos + h.n + h.arg], o)
  {
    hide ParseHead, Overlong;
  }

  /** decodeIndefiniteBytes and decodeIndefiniteText up to the break. */
  method DecodeChunks(src: seq<Byte>, off: nat, major: Major, o: DecodeOpts) returns (r: Decoded<seq<Byte>>)
    requires off <= |src|
    ensures r == D.DecodeChunks(src, off, major, [], o)
  {
    hide ParseHead, Overlong, D.DecodeChunks;
    var buf: seq<Byte> := [];
    var pos := off;
    while true
      invariant pos <= |src|
      invariant D.DecodeChunks(src, off, major, [], o) == D.DecodeChunks(src, pos, major, buf, o)
      decreases |src| - pos
    {
      NextChunk(src, pos, major, buf, o);
      if pos >= |src| {
        return Err(Truncated, pos);
      }
      if src[pos] == BREAK_CODE {
        return Decoded.Ok(buf, pos + 1);
      }
      var h := ParseHead(src[pos..]);
      if h.n == 0 {
        return Err(Truncated, pos);
      }
      if h.major != major || h.ai == AI_INDEFINITE {
        return Err(Truncated, pos);
      }
      if Reserved(h) {
        return Err(ReservedAI, pos);
      }
      if Overlong(h, o) {
        return Err(NonShortest, pos);
      }
      if h.arg > o.MaxBytes() || |buf| + h.arg > o.MaxBytes() {
        return Err(MaxByteStringLength, pos);
      }
      var start := pos + h.n;
      var end := start + h.arg;
      if end > |src| {
        return Err(Truncated, pos);
      }
      buf := buf + src[start..end];
      pos := end;
    }
  }

  method DecodeBytes(src: seq<Byte>, off: nat, h: Head, o: DecodeOpts) returns (r: Decoded<Value>)
    requires off + h.n <= |src| && h.n > 0
    ensures r == D.DecodeBytes(src, off, h, o)
  {
    if h.ai == AI_INDEFINITE {
      if o.rejectIndefinite {
        return Err(IndefiniteLength, off);
      }
      var c := DecodeChunks(src, off + h.n, MAJOR_BYTES, o);
      if c.Err? {
        return Err(c.error, c.at);
      }
      return Decoded.Ok(ByteString(c.value), c.next);
    }
    if h.arg > o.MaxBytes() {
      return Err(MaxByteStringLength, off);
    }
    var start := off + h.n;
    var end := start + h.arg;
    if end > |src| {
      return Err(Truncated, off);
    }
    return Decoded.Ok(ByteString(src[start..end]), end);
  }

  method DecodeText(src: seq<Byte>, off: nat, h: Head, o: DecodeOpts) returns (r: Decoded<Value>)
    requires off + h.n <= |src| && h.n > 0
    ensures r == D.DecodeText(src, off, h, o)
  {
    hide ValidUTF8;
    if h.ai == AI_INDEFINITE {
      if o.rejectIndefinite {
        return Err(IndefiniteLength, off);
      }
      var c := DecodeChunks(src, off + h.n, MAJOR_TEXT, o);
      if c.Err? {
        return Err(c.error, c.at);
      }
      if o.rejectInvalidUTF8 && !ValidUTF8(c.value) {
        return Err(InvalidUTF8, c.next - 1);
      }
      return Decoded.Ok(TextString(c.value), c.next);
    }
    if h.arg > o.MaxBytes() {
      return Err(MaxByteStringLength, off);
    }
    var start := off + h.n;
    var end := start + h.arg;
    if end > |src| {
      return Err(Truncated, off);
    }
    if o.rejectInvalidUTF8 && !ValidUTF8(src[start..end]) {
      return Err(InvalidUTF8, off);
    }
    return Decoded.Ok(TextString(src[start..end]), end);
  }

  // ---------------------------------------------------------------- the inlined element path

  lemma FromBEStep(s: seq<Byte>, n: nat)
    requires n < |s|
    ensures FromBE(s[..n + 1]) == FromBE(s[..n]) * 256 + s[n]
  {
    assert s[..n + 1][..n] == s[..n];
  }

  /** a<<8 | b */
  function Word16(a: int, b: int): int { a * 0x100 + b }

  /** a<<24 | b<<16 | c<<8 | d */
  function Word32(a: int, b: int, c: int, d: int): int { a * 0x100_0000 + b * 0x1_0000 + c * 0x100 + d }

  /** a<<56 | b<<48 | ... | h */
  function Word64(a: int, b: int, c: int, d: int, e: int, f: int, g: int, h: int): int {
    a * 0x100_0000_0000_0000 + b * 0x1_0000_0000_0000 + c * 0x100_0000_0000 + d * 0x1_0000_0000
    + e * 0x100_0000 + f * 0x1_0000 + g * 0x100 + h
  }

  lemma Bytes1(s: seq<Byte>)
    requires |s| == 1
    ensures FromBE(s) == s[0]
  {
  }

  lemma Bytes2(s: seq<Byte>)
    requires |s| == 2
    ensures FromBE(s) == Word16(s[0], s[1])
  {
    assert s[..|s|] == s;
    Bytes1(s[..1]);
    FromBEStep(s, 1);
  }

  lemma Bytes4(s: seq<Byte>)
    requires |s| == 4
    ensures FromBE(s) == Word32(s[0], s[1], s[2], s[3])
  {
    hide FromBE;
    assert s[..|s|] == s;
    Bytes2(s[..2]);
    FromBEStep(s, 2);
    FromBEStep(s, 3);
  }

  lemma Bytes8(s: seq<Byte>)
    requires |s| == 8
    ensures FromBE(s) == Word64(s[0], s[1], s[2], s[3], s[4], s[5], s[6], s[7])
  {
    hide FromBE;
    assert s[..|s|] == s;
    Bytes4(s[..4]);
    FromBEStep(s, 4);
    FromBEStep(s, 5);
    FromBEStep(s, 6);
    FromBEStep(s, 7);
  }

  /** A big-endian argument, byte by byte. */
  lemma ArgumentBytes(s: seq<Byte>)
    ensures |s| == 1 ==> FromBE(s) == s[0]
    ensures |s| == 2 ==> FromBE(s) == Word16(s[0], s[1])
    ensures |s| == 4 ==> FromBE(s) == Word32(s[0], s[1], s[2], s[3])
    ensures |s| == 8 ==> FromBE(s) == Word64(s[0], s[1], s[2], s[3], s[4], s[5], s[6], s[7])
  {
    hide *;
    if |s| == 1 { Bytes1(s); }
    if |s| == 2 { Bytes2(s); }
    if |s| == 4 { Bytes4(s); }
    if |s| == 8 { Bytes8(s); }
  }

  /** What the head parser finds at a position, in terms of the bytes there. */
  lemma HeadAt(src: seq<Byte>, pos: nat)
    requires pos < |src|
    ensures var h, ai := ParseHead(src[pos..]), src[pos] % 32;
            if pos + ArgSize(ai) >= |src| then h.n == 0
            else h.n == 1 + ArgSize(ai) && h.major == src[pos] / 32 && h.ai == ai
                 && h.arg == if ai < 24 then ai else FromBE(src[pos + 1..pos + 1 + ArgSize(ai)])
  {
    var s := src[pos..];
    var k := ArgSize(src[pos] % 32);
    if pos + k < |src| {
      assert s[1..1 + k] == src[pos + 1..pos + 1 + k];
    }
  }

  /** The result for an integer whose argument was assembled inline. */
  lemma InlineInteger(src: seq<Byte>, pos: nat, depth: nat, o: DecodeOpts, arg: nat)
    requires pos < |src| && src[pos] < 0x40 && src[pos] % 32 < 28
    requires pos + ArgSize(src[pos] % 32) < |src|
    requires arg == if src[pos] % 32 < 24 then src[pos] % 32 else FromBE(src[pos + 1..pos + 1 + ArgSize(src[pos] % 32)])
    ensures D.DecodeElement(src, pos, depth, o) ==
            if o.rejectNonShortest && ((src[pos] % 32 == 24 && arg < 24) || (src[pos] % 32 == 25 && arg <= 0xff)
                                       || (src[pos] % 32 == 26 && arg <= 0xffff)
                                       || (src[pos] % 32 == 27 && arg <= 0xffff_ffff))
            then Err(NonShortest, pos)
            else Decoded.Ok(if src[pos] < 0x20 then Uint(arg % 0x1_0000_0000_0000_0000)
                            else NegInt(arg % 0x1_0000_0000_0000_0000), pos + 1 + ArgSize(src[pos] % 32))
  {
    hide ParseHead, FromBE;
    HeadAt(src, pos);
  }

  lemma TruncatedInteger(src: seq<Byte>, pos: nat, depth: nat, o: DecodeOpts)
    requires pos < |src| && src[pos] < 0x40 && pos + ArgSize(src[pos] % 32) >= |src|
    ensures D.DecodeElement(src, pos, depth, o) == Err(Truncated, pos)
  {
    hide ParseHead, FromBE;
    HeadAt(src, pos);
  }

  /** The argument at pos, assembled byte by byte; n is 0 when the input ends too early. */
  method InlineArgument(src: seq<Byte>, pos: nat) returns (arg: nat, n: nat)
    requires pos < |src| && src[pos] % 32 < 28
    ensures pos + ArgSize(src[pos] % 32) >= |src| ==> n == 0
    ensures pos + ArgSize(src[pos] % 32) < |src| ==>
              && n == 1 + ArgSize(src[pos] % 32)
              && arg == if src[pos] % 32 < 24 then src[pos] % 32 else FromBE(src[pos + 1..pos + n])
  {
    hide FromBE, Word64, Word32, Word16;
    var ai := src[pos] % 32;
    if ai < 24 {
      return ai, 1;
    }
    arg, n := 0, 0;
    if pos + ArgSize(ai) < |src| {
      n := 1 + ArgSize(ai);
      ArgumentBytes(src[pos + 1..pos + n]);
      match ai
      case 24 => arg := src[pos + 1];
      case 25 => arg := Word16(src[pos + 1], src[pos + 2]);
      case 26 => arg := Word32(src[pos + 1], src[pos + 2], src[pos + 3], src[pos + 4]);
      case _ =>
        arg := Word64(src[pos + 1], src[pos + 2], src[pos + 3], src[pos + 4],
                      src[pos + 5], src[pos + 6], src[pos + 7], src[pos + 8]);
    }
  }

  /** An integer element: the head is taken apart on the spot. */
  method DecodeInlineInteger(src: seq<Byte>, pos: nat, depth: nat, o: DecodeOpts) returns (r: Decoded<Value>)
    requires pos < |src| && src[pos] < 0x40 && src[pos] % 32 < 28
    ensures r == D.DecodeElement(src, pos, depth, o)
  {
    hide ParseHead, FromBE, D.DecodeElement;
    var ai := src[pos] % 32;
    var arg, n := InlineArgument(src, pos);
    if n == 0 {
      TruncatedInteger(src, pos, depth, o);
      return Err(Truncated, pos);
    }
    InlineInteger(src, pos, depth, o, arg);
    FromBEBound(src[pos + 1..pos + n]);
    if o.rejectNonShortest {
      if (ai == 24 && arg < 24) || (ai == 25 && arg <= 0xff) || (ai == 26 && arg <= 0xffff)
         || (ai == 27 && arg <= 0xffff_ffff)
      {
        return Err(NonShortest, pos);
      }
    }
    return Decoded.Ok(if src[pos] < 0x20 then Uint(arg) else NegInt(arg), pos + n);
  }

  // ---------------------------------------------------------------- data items

  method Decode(src: seq<Byte>, o: DecodeOpts) returns (r: Decoded<Value>)
    ensures r == D.Decode(src, o)
  {
    r := DecodeValue(src, 0, 0, o, true);
  }

  method DecodeValue(src: seq<Byte>, off: nat, depth: nat, o: DecodeOpts, strip: bool) returns (r: Decoded<Value>)
    requires off <= |src|
    ensures r == D.DecodeValue(src, off, depth, o, strip)
    decreases |src| - off, 0
  {
    hide ParseHead, D.DecodeBytes, D.DecodeText, D.DecodeArray, D.DecodeMap, D.DecodeTag, D.DecodeOther;
    if off >= |src| {
      return Err(Truncated, off);
    }
    var h := ParseHead(src[off..]);
    if h.n == 0 {
      return Err(Truncated, off);
    }
    if Reserved(h) {
      return Err(ReservedAI, off);
    }
    if Overlong(h, o) {
      return Err(NonShortest, off);
    }
    match h.major
    case 0 => return Decoded.Ok(Uint(h.arg), off + h.n);
    case 1 => return Decoded.Ok(NegInt(h.arg), off + h.n);
    case 2 => r := DecodeBytes(src, off, h, o);
    case 3 => r := DecodeText(src, off, h, o);
    case 4 => r := DecodeArray(src, off, h, depth, o);
    case 5 => r := DecodeMap(src, off, h, depth, o);
    case 6 => r := DecodeTag(src, off, h, depth, o, strip);
    case _ => r := D.DecodeOther(off, h, o);
  }

  method DecodeTag(src: seq<Byte>, off: nat, h: Head, depth: nat, o: DecodeOpts, strip: bool)
    returns (r: Decoded<Value>)
    requires off + h.n <= |src| && h.n > 0
    ensures r == D.DecodeTag(src, off, h, depth, o, strip)
    decreases |src| - off - h.n, 1
  {
    hide D.DecodeValue;
    var pos := off + h.n;
    if o.rejectUnknownTags && h.arg != SELF_DESCRIBE {
      return Err(UnknownTag, off);
    }
    if h.arg == SELF_DESCRIBE && strip {
      r := DecodeValue(src, pos, depth, o, true);
      return;
    }
    if depth + 1 > o.MaxNesting() {
      return Err(MaxNestingDepth, off);
    }
    var inner := DecodeValue(src, pos, depth + 1, o, false);
    if inner.Err? {
      return Err(inner.error, inner.at);
    }
    return Decoded.Ok(Tag(h.arg, inner.value), inner.next);
  }

  // ---------------------------------------------------------------- arrays

  /** Where no shortcut applies an element is decoded like any item. */
  lemma OrdinaryElement(src: seq<Byte>, pos: nat, depth: nat, o: DecodeOpts)
    requires pos <= |src| && !ShortStringAt(src, pos, MAJOR_TEXT) && !ShortStringAt(src, pos, MAJOR_BYTES)
    ensures D.DecodeElement(src, pos, depth, o) == D.DecodeValue(src, pos, depth, o, false)
  {
    hide D.DecodeValue;
  }

  lemma SimpleElement(src: seq<Byte>, pos: nat, depth: nat, o: DecodeOpts)
    requires pos < |src| && SIMPLE_FALSE <= src[pos] <= SIMPLE_UNDEFINED
    ensures D.DecodeElement(src, pos, depth, o) ==
            Decoded.Ok(if src[pos] == SIMPLE_TRUE then Bool(true) else if src[pos] == SIMPLE_FALSE then Bool(false)
                       else if src[pos] == SIMPLE_NULL then Null else Undefined, pos + 1)
  {
    hide ParseHead, D.DecodeElement;
    OrdinaryElement(src, pos, depth, o);
    HeadAt(src, pos);
  }

  /** One element of a definite array, with its inlined paths. */
  method DecodeElement(src: seq<Byte>, pos: nat, depth: nat, o: DecodeOpts) returns (r: Decoded<Value>)
    requires pos <= |src|
    ensures r == D.DecodeElement(src, pos, depth, o)
    decreases |src| - pos, 1
  {
    hide D.DecodeValue, ValidUTF8;
    if pos >= |src| {
      PastTheEnd(src, pos, depth, o);
      return Err(Truncated, pos);
    }
    var ib := src[pos];
    if ib < 0x40 && ib % 32 < 28 {
      r := DecodeInlineInteger(src, pos, depth, o);
      return;
    }
    if ib / 32 == MAJOR_TEXT && ib % 32 < 24 {
      var end := pos + 1 + ib % 32;
      if end <= |src| {
        if o.rejectInvalidUTF8 && !ValidUTF8(src[pos + 1..end]) {
          return Err(InvalidUTF8, pos);
        }
        return Decoded.Ok(TextString(src[pos + 1..end]), end);
      }
    }
    if ib / 32 == MAJOR_BYTES && ib % 32 < 24 {
      var end := pos + 1 + ib % 32;
      if end <= |src| {
        return Decoded.Ok(ByteString(src[pos + 1..end]), end);
      }
    }
    if SIMPLE_FALSE <= ib <= SIMPLE_UNDEFINED {
      SimpleElement(src, pos, depth, o);
      if ib == SIMPLE_TRUE {
        return Decoded.Ok(Bool(true), pos + 1);
      }
      if ib == SIMPLE_FALSE {
        return Decoded.Ok(Bool(false), pos + 1);
      }
      return Decoded.Ok(if ib == SIMPLE_NULL then Null else Undefined, pos + 1);
    }
    OrdinaryElement(src, pos, depth, o);
    r := DecodeValue(src, pos, depth, o, false);
  }

  lemma PastTheEnd(src: seq<Byte>, pos: nat, depth: nat, o: DecodeOpts)
    requires pos == |src|
    ensures D.DecodeElement(src, pos, depth, o) == Err(Truncated, pos)
  {
  }

  method DecodeArray(src: seq<Byte>, off: nat, h: Head, depth: nat, o: DecodeOpts) returns (r: Decoded<Value>)
    requires off + h.n <= |src| && h.n > 0
    ensures r == D.DecodeArray(src, off, h, depth, o)
    decreases |src| - off - h.n, 3
  {
    hide D.DecodeElement, D.DecodeValue, D.DecodeUntilBreak;
    var pos := off + h.n;
    if h.ai == AI_INDEFINITE {
      if o.rejectIndefinite {
        return Err(IndefiniteLength, off);
      }
      if depth + 1 > o.MaxNesting() {
        return Err(MaxNestingDepth, pos);
      }
      var items := DecodeIndefiniteArray(src, pos, depth + 1, o);
      if items.Err? {
        return Err(items.error, items.at);
      }
      return Decoded.Ok(Array(items.value), items.next);
    }
    var count := h.arg;
    if count > o.MaxArray() {
      return Err(MaxArrayLength, off);
    }
    if depth + 1 > o.MaxNesting() {
      return Err(MaxNestingDepth, pos);
    }
    var arr := new Value[count];
    ghost var all := D.DecodeItems(src, pos, count, [], depth + 1, o);
    var i := 0;
    while i < count
      invariant i <= count && off + h.n <= pos <= |src|
      invariant all == D.DecodeItems(src, pos, count - i, arr[..i], depth + 1, o)
    {
      var element := DecodeElement(src, pos, depth + 1, o);
      if element.Err? {
        return Err(element.error, element.at);
      }
      arr[i] := element.value;
      assert arr[..i + 1] == arr[..i] + [element.value];
      pos := element.next;
      i := i + 1;
    }
    assert arr[..count] == arr[..];
    return Decoded.Ok(Array(arr[..]), pos);
  }

  method DecodeIndefiniteArray(src: seq<Byte>, off: nat, depth: nat, o: DecodeOpts) returns (r: Decoded<seq<Value>>)
    requires off <= |src|
    ensures r == D.DecodeUntilBreak(src, off, [], depth, o)
    decreases |src| - off, 2
  {
    hide D.DecodeValue;
    var arr: seq<Value> := [];
    var pos := off;
    while true
      invariant off <= pos <= |src|
      invariant D.DecodeUntilBreak(src, off, [], depth, o) == D.DecodeUntilBreak(src, pos, arr, depth, o)
      decreases |src| - pos
    {
      if pos >= |src| {
        return Err(Truncated, pos);
      }
      if src[pos] == BREAK_CODE {
        return Decoded.Ok(arr, pos + 1);
      }
      if |arr| >= o.MaxArray() {
        return Err(MaxArrayLength, pos);
      }
      var v := DecodeValue(src, pos, depth, o, false);
      if v.Err? {
        return Err(v.error, v.at);
      }
      arr := arr + [v.value];
      pos := v.next;
    }
  }

  // ---------------------------------------------------------------- maps

  method DecodeMap(src: seq<Byte>, off: nat, h: Head, depth: nat, o: DecodeOpts) returns (r: Decoded<Value>)
    requires off + h.n <= |src| && h.n > 0
    ensures r == D.DecodeMap(src, off, h, depth, o)
    decreases |src| - off - h.n, 4
  {
    hide D.DecodeValue, D.DecodePairs, D.DecodePairsUntilBreak;
    var pos := off + h.n;
    if h.ai == AI_INDEFINITE {
      if o.rejectIndefinite {
        return Err(IndefiniteLength, off);
      }
      if depth + 1 > o.MaxNesting() {
        return Err(MaxNestingDepth, pos);
      }
      var m := DecodeIndefiniteMap(src, pos, depth + 1, o);
      if m.Err? {
        return Err(m.error, m.at);
      }
      return Decoded.Ok(Map(m.value), m.next);
    }
    var count := h.arg;
    if count > o.MaxArray() {
      return Err(MaxArrayLength, off);
    }
    if depth + 1 > o.MaxNesting() {
      return Err(MaxNestingDepth, off);
    }
    var m := DecodeDefiniteMap(src, pos, count, depth + 1, o);
    if m.Err? {
      return Err(m.error, m.at);
    }
    return Decoded.Ok(Map(m.value), m.next);
  }

  /** The entries of a decoded pair list. */
  function Entries(d: Decoded<Pairs>): Decoded<seq<MapEntry>> {
    match d
    case Ok(m, next) => Decoded.Ok(m.entries, next)
    case Err(e, at) => Err(e, at)
  }

  /** One key of a definite map, with its inlined path. */
  method DecodeKey(src: seq<Byte>, pos: nat, depth: nat, o: DecodeOpts) returns (r: Decoded<Value>)
    requires pos <= |src|
    ensures r == D.DecodeKey(src, pos, depth, o)
    decreases |src| - pos, 1
  {
    hide D.DecodeValue, ValidUTF8;
    if pos < |src| && src[pos] / 32 == MAJOR_TEXT && src[pos] % 32 < 24 {
      var end := pos + 1 + src[pos] % 32;
      if end <= |src| {
        if o.rejectInvalidUTF8 && !ValidUTF8(src[pos + 1..end]) {
          return Err(InvalidUTF8, pos);
        }
        return Decoded.Ok(TextString(src[pos + 1..end]), end);
      }
    }
    r := DecodeValue(src, pos, depth, o, false);
  }

  /** What follows a decoded key: the null check, the value and the insertion. */
  method DecodePair(src: seq<Byte>, keyOff: nat, key: Decoded<Value>, m: seq<MapEntry>, dedup: KeyDedup?, depth: nat,
                    o: DecodeOpts, ghost hashes: seq<U64>)
    returns (r: Decoded<seq<MapEntry>>, ghost hashes': seq<U64>)
    requires keyOff <= |src| && |m| == |hashes| && (key.Ok? ==> keyOff < key.next <= |src|)
    requires dedup != null ==> dedup.Indexes(hashes)
    modifies dedup
    ensures r.Ok? ==> |hashes'| == |r.value| && (dedup != null ==> dedup.Indexes(hashes'))
    ensures D.DecodePair(src, keyOff, key, Pairs(m, hashes), dedup != null, depth, o)
            == match r case Ok(m', next) => Decoded.Ok(Pairs(m', hashes'), next) case Err(e, at) => Err(e, at)
    decreases |src| - keyOff, 2
  {
    hide D.DecodeValue, D.MapInsert, Fnv1a;
    hashes' := hashes;
    if key.Err? {
      return Err(key.error, key.at), hashes;
    }
    var k, pos := key.value, key.next;
    if o.rejectNullKeys && k.Null? {
      return Err(NullMapKey, keyOff), hashes;
    }
    var v := DecodeValue(src, pos, depth, o, false);
    if v.Err? {
      return Err(v.error, v.at), hashes;
    }
    var m', hs := MapInsert(m, k, v.value, src[keyOff..pos], dedup, o, hashes);
    hashes' := hs;
    if m'.None? {
      return Err(DuplicateMapKey, keyOff), hashes;
    }
    return Decoded.Ok(m'.value, v.next), hs;
  }

  method DecodeDefiniteMap(src: seq<Byte>, off: nat, count: nat, depth: nat, o: DecodeOpts)
    returns (r: Decoded<seq<MapEntry>>)
    requires off <= |src|
    ensures r == Entries(D.DecodePairs(src, off, count, NO_PAIRS, count > DEDUP_THRESHOLD, depth, o))
    decreases |src| - off, 3
  {
    hide D.DecodeValue, D.DecodePair, D.DecodeKey;
    var dedup: KeyDedup? := null;
    if count > DEDUP_THRESHOLD {
      dedup := new KeyDedup();
    }
    ghost var all := D.DecodePairs(src, off, count, NO_PAIRS, dedup != null, depth, o);
    ghost var hashes: seq<U64> := [];
    var m: seq<MapEntry> := [];
    var pos := off;
    var i := 0;
    while i < count
      invariant i <= count && off <= pos <= |src| && |m| == |hashes|
      invariant dedup != null ==> fresh(dedup) && dedup.Indexes(hashes)
      invariant all == D.DecodePairs(src, pos, count - i, Pairs(m, hashes), dedup != null, depth, o)
    {
      var key := DecodeKey(src, pos, depth, o);
      var pair, hashes' := DecodePair(src, pos, key, m, dedup, depth, o, hashes);
      if pair.Err? {
        return Err(pair.error, pair.at);
      }
      m, hashes, pos := pair.value, hashes', pair.next;
      i := i + 1;
    }
    return Decoded.Ok(m, pos);
  }

  method DecodeIndefiniteMap(src: seq<Byte>, off: nat, depth: nat, o: DecodeOpts) returns (r: Decoded<seq<MapEntry>>)
    requires off <= |src|
    ensures r == Entries(D.DecodePairsUntilBreak(src, off, NO_PAIRS, depth, o))
    decreases |src| - off, 3
  {
    hide D.DecodeValue, D.DecodePair;
    ghost var all := D.DecodePairsUntilBreak(src, off, NO_PAIRS, depth, o);
    ghost var hashes: seq<U64> := [];
    var m: seq<MapEntry> := [];
    var pos := off;
    while true
      invariant off <= pos <= |src| && |m| == |hashes|
      invariant all == D.DecodePairsUntilBreak(src, pos, Pairs(m, hashes), depth, o)
      decreases |src| - pos
    {
      if pos >= |src| {
        return Err(Truncated, pos);
      }
      if src[pos] == BREAK_CODE {
        return Decoded.Ok(m, pos + 1);
      }
      if |m| >= o.MaxArray() {
        return Err(MaxArrayLength, pos);
      }
      var key := DecodeValue(src, pos, depth, o, false);
      var pair, hashes' := DecodePair(src, pos, key, m, null, depth, o, hashes);
      if pair.Err? {
        return Err(pair.error, pair.at);
      }
      m, hashes, pos := pair.value, hashes', pair.next;
    }
  }
}
