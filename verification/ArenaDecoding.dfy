/**
 Decoding into an arena (rfc8949/decode.go:315-320 and 527-532): definite arrays and maps are
 filled in place in slices of the slabs, and hold slices of each other. Whatever the arena contained,
 the decoded value is the one decoding without an arena returns, and older values stay intact.
 */
module ArenaDecoding {
  import opened Bytes
  import opened Wire
  import opened Values
  import D = Decoding
  import opened Decoding
  import MA = MapAssembly
  import opened Arenas = Arena
  import opened ArenaMemory
  import Decoder

  /** Decode with an arena. */
  method DecodeIn(a: Arena, src: seq<Byte>, o: DecodeOpts) returns (r: Decoded<Cell>)
    requires a.Valid()
    modifies a.Repr()
    ensures a.Valid() && (forall x <- a.Repr() :: x in old(a.Repr()) || fresh(x))
    ensures Decodes(D.Decode(src, o), old(a.Mem()), r, a.Mem())
  {
    hide Decodes;
    r := DecodeValueIn(a, src, 0, 0, o, true);
  }

  method DecodeValueIn(a: Arena, src: seq<Byte>, off: nat, depth: nat, o: DecodeOpts, strip: bool)
    returns (r: Decoded<Cell>)
    requires off <= |src| && a.Valid()
    modifies a.Repr()
    ensures a.Valid() && (forall x <- a.Repr() :: x in old(a.Repr()) || fresh(x))
    ensures Decodes(D.DecodeValue(src, off, depth, o, strip), old(a.Mem()), r, a.Mem())
    decreases |src| - off, 0
  {
    hide ParseHead, Decodes, D.DecodeBytes, D.DecodeText, D.DecodeArray, D.DecodeMap, D.DecodeTag, D.DecodeOther;
    hide Arenas.Arena.Mem, Arenas.Arena.Valid, Arenas.Arena.Repr;
    if off < |src| {
      var h := ParseHead(src[off..]);
      if h.n > 0 && !Reserved(h) && !Overlong(h, o) {
        if h.major == MAJOR_ARRAY {
          r := DecodeArrayIn(a, src, off, h, depth, o);
          return;
        } else if h.major == MAJOR_MAP {
          r := DecodeMapIn(a, src, off, h, depth, o);
          return;
        } else if h.major == MAJOR_TAG {
          r := DecodeTagIn(a, src, off, h, depth, o, strip);
          return;
        }
      }
    }
    PlainDecodes(D.DecodeValue(src, off, depth, o, strip), a.Mem());
    return PlainResult(D.DecodeValue(src, off, depth, o, strip));
  }

  method DecodeTagIn(a: Arena, src: seq<Byte>, off: nat, h: Head, depth: nat, o: DecodeOpts, strip: bool)
    returns (r: Decoded<Cell>)
    requires off + h.n <= |src| && h.n > 0 && a.Valid()
    modifies a.Repr()
    ensures a.Valid() && (forall x <- a.Repr() :: x in old(a.Repr()) || fresh(x))
    ensures Decodes(D.DecodeTag(src, off, h, depth, o, strip), old(a.Mem()), r, a.Mem())
    decreases |src| - off - h.n, 1
  {
    hide Decodes, D.DecodeValue, Arenas.Arena.Mem, Arenas.Arena.Valid, Arenas.Arena.Repr;
    ghost var m := a.Mem();
    var pos := off + h.n;
    if o.rejectUnknownTags && h.arg != SELF_DESCRIBE {
      FailureDecodes(m, UnknownTag, off);
      return Err(UnknownTag, off);
    }
    if h.arg == SELF_DESCRIBE && strip {
      r := DecodeValueIn(a, src, pos, depth, o, true);
      return;
    }
    if depth + 1 > o.MaxNesting() {
      FailureDecodes(m, MaxNestingDepth, off);
      return Err(MaxNestingDepth, off);
    }
    r := DecodeValueIn(a, src, pos, depth + 1, o, false);
    TagDecodes(D.DecodeValue(src, pos, depth + 1, o, false), m, r, a.Mem(), h.arg);
    if r.Ok? {
      r := D.Decoded.Ok(Tagged(h.arg, r.value), r.next);
    }
  }

  // ---------------------------------------------------------------- arrays

  method DecodeElementIn(a: Arena, src: seq<Byte>, pos: nat, depth: nat, o: DecodeOpts) returns (r: Decoded<Cell>)
    requires pos <= |src| && a.Valid()
    modifies a.Repr()
    ensures a.Valid() && (forall x <- a.Repr() :: x in old(a.Repr()) || fresh(x))
    ensures Decodes(D.DecodeElement(src, pos, depth, o), old(a.Mem()), r, a.Mem())
    decreases |src| - pos, 1
  {
    hide Decodes, D.DecodeValue, D.DecodeElement, Arenas.Arena.Mem, Arenas.Arena.Valid, Arenas.Arena.Repr;
    if ShortStringAt(src, pos, MAJOR_TEXT) || ShortStringAt(src, pos, MAJOR_BYTES) {
      PlainDecodes(D.DecodeElement(src, pos, depth, o), a.Mem());
      return PlainResult(D.DecodeElement(src, pos, depth, o));
    }
    Decoder.OrdinaryElement(src, pos, depth, o);
    r := DecodeValueIn(a, src, pos, depth, o, false);
  }

  method DecodeArrayIn(a: Arena, src: seq<Byte>, off: nat, h: Head, depth: nat, o: DecodeOpts)
    returns (r: Decoded<Cell>)
    requires off + h.n <= |src| && h.n > 0 && a.Valid()
    modifies a.Repr()
    ensures a.Valid() && (forall x <- a.Repr() :: x in old(a.Repr()) || fresh(x))
    ensures Decodes(D.DecodeArray(src, off, h, depth, o), old(a.Mem()), r, a.Mem())
    decreases |src| - off - h.n, 3
  {
    hide Decodes, D.DecodeItems, D.DecodeUntilBreak, Extends, Arenas.Arena.Mem, Arenas.Arena.Valid, Arenas.Arena.Repr;
    ghost var m := a.Mem();
    var pos := off + h.n;
    if h.ai == AI_INDEFINITE {
      if o.rejectIndefinite {
        FailureDecodes(m, IndefiniteLength, off);
        return Err(IndefiniteLength, off);
      }
      if depth + 1 > o.MaxNesting() {
        FailureDecodes(m, MaxNestingDepth, pos);
        return Err(MaxNestingDepth, pos);
      }
      r := DecodeUntilBreakIn(a, src, pos, depth + 1, o);
      return;
    }
    if h.arg > o.MaxArray() {
      FailureDecodes(m, MaxArrayLength, off);
      return Err(MaxArrayLength, off);
    }
    var s := a.AllocValues(h.arg);
    Allocated(m, a.Mem());
    if depth + 1 > o.MaxNesting() {
      LaterFailureDecodes(m, a.Mem(), MaxNestingDepth, pos);
      return Err(MaxNestingDepth, pos);
    }
    r := DecodeItemsIn(a, m, |m.values|, s, src, pos, h.arg, depth + 1, o);
  }

  /** The loop that fills the slice s, which was handed out last. */
  method DecodeItemsIn(a: Arena, ghost m: Memory, ghost k: nat, s: Slice<Cell>, src: seq<Byte>, off: nat, count: nat,
                       depth: nat, o: DecodeOpts)
    returns (r: Decoded<Cell>)
    requires off <= |src| && a.Valid() && k == |m.values| && count == s.hi - s.lo
    requires Extends(m, a.Mem()) && |a.Mem().values| == k + 1 && a.Mem().valueSlices[k] == s
    requires |a.Mem().values[k]| == count
    modifies a.Repr()
    ensures a.Valid() && (forall x <- a.Repr() :: x in old(a.Repr()) || fresh(x))
    ensures Decodes(AsArray(D.DecodeItems(src, off, count, [], depth, o)), m, r, a.Mem())
    decreases |src| - off, 2
  {
    hide Decodes, D.DecodeElement, Filled, Extends, Sound, Denote, Arenas.Arena.Mem, Arenas.Arena.Valid,
         Arenas.Arena.Repr;
    ghost var mp := |m.pairs|;
    ghost var vs: seq<Value> := [];
    ghost var all := D.DecodeItems(src, off, count, [], depth, o);
    NothingFilled(m, a.Mem(), k, mp);
    var pos := off;
    var i := 0;
    while i < count
      invariant i <= count && |vs| == i && off <= pos <= |src|
      invariant a.Valid() && (forall x <- a.Repr() :: x in old(a.Repr()) || fresh(x)) && Extends(m, a.Mem())
      invariant k < |a.Mem().values| && a.Mem().valueSlices[k] == s && |a.Mem().values[k]| == count
      invariant Filled(a.Mem(), k, mp, vs)
      invariant all == D.DecodeItems(src, pos, count - i, vs, depth, o)
    {
      ghost var cur := a.Mem();
      ghost var element := D.DecodeElement(src, pos, depth, o);
      var c := DecodeElementIn(a, src, pos, depth, o);
      ghost var next := a.Mem();
      DecodesParts(element, cur, c, next);
      if c.Err? {
        ExtendsTransitive(m, cur, next);
        LaterFailureDecodes(m, next, c.error, c.at);
        return Err(c.error, c.at);
      }
      FillNext(cur, next, k, mp, vs, c.value);
      StoreExtends(m, cur, next, k, i, c.value);
      a.StoreValue(k, s, i, c.value);
      vs := vs + [element.value];
      pos := c.next;
      i := i + 1;
    }
    FilledArray(a.Mem(), k, s, mp, vs);
    ItemsDecode(m, a.Mem(), k, s, vs, pos);
    return D.Decoded.Ok(Items(k, s), pos);
  }

  /** An open-ended array grows in a list of its own; its containers are in the arena. */
  method DecodeUntilBreakIn(a: Arena, src: seq<Byte>, off: nat, depth: nat, o: DecodeOpts) returns (r: Decoded<Cell>)
    requires off <= |src| && a.Valid()
    modifies a.Repr()
    ensures a.Valid() && (forall x <- a.Repr() :: x in old(a.Repr()) || fresh(x))
    ensures Decodes(AsArray(D.DecodeUntilBreak(src, off, [], depth, o)), old(a.Mem()), r, a.Mem())
    decreases |src| - off, 2
  {
    hide Decodes, D.DecodeValue, Listed, Extends, Sound, Denote, Arenas.Arena.Mem, Arenas.Arena.Valid,
         Arenas.Arena.Repr;
    ghost var m := a.Mem();
    ghost var vs: seq<Value> := [];
    ghost var all := D.DecodeUntilBreak(src, off, [], depth, o);
    var items: seq<Cell> := [];
    var pos := off;
    NothingListed(m);
    while true
      invariant off <= pos <= |src| && |vs| == |items|
      invariant a.Valid() && (forall x <- a.Repr() :: x in old(a.Repr()) || fresh(x)) && Listed(m, a.Mem(), items, vs)
      invariant all == D.DecodeUntilBreak(src, pos, vs, depth, o)
      decreases |src| - pos
    {
      ghost var cur := a.Mem();
      ListedExtends(m, cur, items, vs);
      if pos >= |src| {
        LaterFailureDecodes(m, cur, Truncated, pos);
        return Err(Truncated, pos);
      }
      if src[pos] == BREAK_CODE {
        ListDecodes(m, cur, items, vs, pos + 1);
        return D.Decoded.Ok(ItemList(items), pos + 1);
      }
      if |items| >= o.MaxArray() {
        LaterFailureDecodes(m, cur, MaxArrayLength, pos);
        return Err(MaxArrayLength, pos);
      }
      ghost var element := D.DecodeValue(src, pos, depth, o, false);
      var c := DecodeValueIn(a, src, pos, depth, o, false);
      DecodesParts(element, cur, c, a.Mem());
      if c.Err? {
        ExtendsTransitive(m, cur, a.Mem());
        LaterFailureDecodes(m, a.Mem(), c.error, c.at);
        return Err(c.error, c.at);
      }
      ListNext(m, cur, a.Mem(), items, vs, c.value);
      items, pos := items + [c.value], c.next;
      vs := vs + [element.value];
    }
  }

  // ---------------------------------------------------------------- pairs

  method DecodeKeyIn(a: Arena, src: seq<Byte>, pos: nat, depth: nat, o: DecodeOpts) returns (r: Decoded<Cell>)
    requires pos <= |src| && a.Valid()
    modifies a.Repr()
    ensures a.Valid() && (forall x <- a.Repr() :: x in old(a.Repr()) || fresh(x))
    ensures Decodes(D.DecodeKey(src, pos, depth, o), old(a.Mem()), r, a.Mem())
    decreases |src| - pos, 1
  {
    hide Decodes, D.DecodeValue, ValidUTF8, Arenas.Arena.Mem, Arenas.Arena.Valid, Arenas.Arena.Repr;
    if ShortStringAt(src, pos, MAJOR_TEXT) {
      PlainDecodes(D.DecodeKey(src, pos, depth, o), a.Mem());
      return PlainResult(D.DecodeKey(src, pos, depth, o));
    }
    r := DecodeValueIn(a, src, pos, depth, o, false);
  }

  /** A decoded pair, and the hash of the bytes of its key. */
  datatype CellPair = CellPair(key: Cell, value: Cell, hash: U64)

  /** The pair read from m on, leaving m', denotes what `spec` says; older buffers are intact. */
  ghost predicate PairReads(spec: Decoded<MA.Insertion>, m: Memory, r: Decoded<CellPair>, m': Memory) {
    && Extends(m, m')
    && match spec
       case Err(e, at) => r == Err(e, at)
       case Ok(x, next) =>
         && r.Ok? && r.next == next && r.value.hash == Fnv1a(x.wire)
         && Sound(m', r.value.key, |m.values|, |m.pairs|) && Denote(m', r.value.key, |m.values|, |m.pairs|) == x.key
         && Sound(m', r.value.value, |m.values|, |m.pairs|)
            && Denote(m', r.value.value, |m.values|, |m.pairs|) == x.value
  }

  lemma PairFailure(a: Memory, b: Memory, c: Memory, e: DecodeError, at: nat)
    requires Extends(a, b) && Extends(b, c)
    ensures PairReads(Err(e, at), a, Err(e, at), c)
  {
  }

  lemma PairSuccess(m: Memory, m1: Memory, m2: Memory, x: MA.Insertion, pair: CellPair, next: nat)
    requires Extends(m, m1) && Extends(m1, m2)
    requires Sound(m1, pair.key, |m.values|, |m.pairs|) && Denote(m1, pair.key, |m.values|, |m.pairs|) == x.key
    requires Sound(m2, pair.value, |m1.values|, |m1.pairs|)
             && Denote(m2, pair.value, |m1.values|, |m1.pairs|) == x.value
    requires pair.hash == Fnv1a(x.wire)
    ensures PairReads(D.Decoded.Ok(x, next), m, D.Decoded.Ok(pair, next), m2)
  {
    hide Sound, Denote, Keeps, Fnv1a;
    ExtendsTransitive(m, m1, m2);
    ExtendsKeeps(m1, m2, |m.values|, |m.pairs|);
    CellKeeps(m1, m2, pair.key, |m.values|, |m.pairs|, |m.values|, |m.pairs|);
    ExtendsKeeps(m2, m2, |m1.values|, |m1.pairs|);
    CellKeeps(m2, m2, pair.value, |m1.values|, |m1.pairs|, |m.values|, |m.pairs|);
  }

  /** What follows a key that was decoded from m on: its value. */
  method DecodePairIn(a: Arena, ghost m: Memory, src: seq<Byte>, keyOff: nat, key: Decoded<Cell>,
                      ghost keySpec: Decoded<Value>, depth: nat, o: DecodeOpts)
    returns (r: Decoded<CellPair>)
    requires keyOff <= |src| && a.Valid() && (keySpec.Ok? ==> keyOff < keySpec.next <= |src|)
    requires Decodes(keySpec, m, key, a.Mem())
    modifies a.Repr()
    ensures a.Valid() && (forall x <- a.Repr() :: x in old(a.Repr()) || fresh(x))
    ensures PairReads(MA.ReadPair(src, keyOff, keySpec, depth, o), m, r, a.Mem())
    decreases |src| - keyOff, 1
  {
    hide Decodes, D.DecodeValue, Fnv1a, Extends, Sound, Denote, PairReads, Arenas.Arena.Mem, Arenas.Arena.Valid,
         Arenas.Arena.Repr;
    ghost var m1 := a.Mem();
    DecodesParts(keySpec, m, key, m1);
    SameMemory(m1);
    if key.Err? {
      PairFailure(m, m1, m1, key.error, key.at);
      return Err(key.error, key.at);
    }
    var pos := key.next;
    NullKey(m1, key.value, |m.values|, |m.pairs|);
    if o.rejectNullKeys && key.value.Plain? && key.value.v.Null? {
      PairFailure(m, m1, m1, NullMapKey, keyOff);
      return Err(NullMapKey, keyOff);
    }
    ghost var valueSpec := D.DecodeValue(src, pos, depth, o, false);
    var v := DecodeValueIn(a, src, pos, depth, o, false);
    DecodesParts(valueSpec, m1, v, a.Mem());
    if v.Err? {
      PairFailure(m, m1, a.Mem(), v.error, v.at);
      return Err(v.error, v.at);
    }
    var pair := CellPair(key.value, v.value, Fnv1a(src[keyOff..pos]));
    PairSuccess(m, m1, a.Mem(), MA.Insertion(keySpec.value, valueSpec.value, src[keyOff..pos]), pair, v.next);
    return D.Decoded.Ok(pair, v.next);
  }

  /** A whole pair of a definite map. */
  method DecodeKeyAndValueIn(a: Arena, src: seq<Byte>, pos: nat, depth: nat, o: DecodeOpts)
    returns (r: Decoded<CellPair>)
    requires pos <= |src| && a.Valid()
    modifies a.Repr()
    ensures a.Valid() && (forall x <- a.Repr() :: x in old(a.Repr()) || fresh(x))
    ensures PairReads(MA.ReadPair(src, pos, D.DecodeKey(src, pos, depth, o), depth, o), old(a.Mem()), r, a.Mem())
    decreases |src| - pos, 2
  {
    hide Decodes, D.DecodeKey, MA.ReadPair, PairReads, Arenas.Arena.Mem, Arenas.Arena.Valid, Arenas.Arena.Repr;
    ghost var m := a.Mem();
    var key := DecodeKeyIn(a, src, pos, depth, o);
    r := DecodePairIn(a, m, src, pos, key, D.DecodeKey(src, pos, depth, o), depth, o);
  }

  lemma ReadParts(spec: Decoded<MA.Insertion>, m: Memory, r: Decoded<CellPair>, m': Memory)
    requires PairReads(spec, m, r, m')
    ensures Extends(m, m') && |m.values| <= |m'.values| && |m.pairs| <= |m'.pairs|
    ensures match spec
            case Err(e, at) => r == Err(e, at)
            case Ok(x, next) =>
              && r.Ok? && r.next == next && r.value.hash == Fnv1a(x.wire)
              && Sound(m', r.value.key, |m.values|, |m.pairs|)
              && Denote(m', r.value.key, |m.values|, |m.pairs|) == x.key
              && Sound(m', r.value.value, |m.values|, |m.pairs|)
              && Denote(m', r.value.value, |m.values|, |m.pairs|) == x.value
  {
    hide Sound, Denote, Fnv1a;
  }

  // ---------------------------------------------------------------- maps

  method DecodeMapIn(a: Arena, src: seq<Byte>, off: nat, h: Head, depth: nat, o: DecodeOpts)
    returns (r: Decoded<Cell>)
    requires off + h.n <= |src| && h.n > 0 && a.Valid()
    modifies a.Repr()
    ensures a.Valid() && (forall x <- a.Repr() :: x in old(a.Repr()) || fresh(x))
    ensures Decodes(D.DecodeMap(src, off, h, depth, o), old(a.Mem()), r, a.Mem())
    decreases |src| - off - h.n, 4
  {
    hide Decodes, D.DecodePairs, D.DecodePairsUntilBreak, Extends, Arenas.Arena.Mem, Arenas.Arena.Valid,
         Arenas.Arena.Repr;
    ghost var m := a.Mem();
    var pos := off + h.n;
    if h.ai == AI_INDEFINITE {
      if o.rejectIndefinite {
        FailureDecodes(m, IndefiniteLength, off);
        return Err(IndefiniteLength, off);
      }
      if depth + 1 > o.MaxNesting() {
        FailureDecodes(m, MaxNestingDepth, pos);
        return Err(MaxNestingDepth, pos);
      }
      r := DecodePairsUntilBreakIn(a, src, pos, depth + 1, o);
      return;
    }
    if h.arg > o.MaxArray() {
      FailureDecodes(m, MaxArrayLength, off);
      return Err(MaxArrayLength, off);
    }
    if depth + 1 > o.MaxNesting() {
      FailureDecodes(m, MaxNestingDepth, off);
      return Err(MaxNestingDepth, off);
    }
    var t := a.AllocPairs(h.arg);
    Allocated(m, a.Mem());
    r := DecodePairsIn(a, m, |m.pairs|, t, src, pos, h.arg, depth + 1, o);
  }

  /**
   mapInsert on the first n entries of a slice: the value of an equal key is replaced in place, and an
   append goes to slot n of the same slice.
   */
  method InsertIn(a: Arena, ghost k: nat, t: Slice<PairCell>, n: nat, hashes: seq<U64>, pair: CellPair, dedup: bool,
                  reject: bool)
    returns (r: Option<CellCount>)
    requires a.Valid() && k < |a.Mem().pairs| && a.Mem().pairSlices[k] == t && n == |hashes| < |a.Mem().pairs[k]|
    modifies a.Repr()
    ensures a.Valid() && a.Repr() == old(a.Repr())
    ensures var st := CellPairs(old(a.Mem()).pairs[k][..n], hashes);
            match InsertPair(st, pair.key, pair.value, pair.hash, dedup, reject)
            case None => r.None? && a.Mem() == old(a.Mem())
            case Some(st') =>
              r == Some(CellCount(|st'.entries|, st'.hashes)) && |st'.entries| <= |old(a.Mem()).pairs[k]|
              && a.Mem() == StoredFront(old(a.Mem()), k, st'.entries)
  {
    hide D.FindKey, Arenas.Arena.Mem, Arenas.Arena.Valid, Arenas.Arena.Repr;
    ghost var m := a.Mem();
    var front := a.LoadPairs(k, t, n);
    var found := D.FindKey(D.Pairs(KeysOnly(front), hashes), 0, KeyOf(pair.key), pair.hash, dedup);
    if found.Some? {
      if reject {
        return None;
      }
      FrontUpdated(m, k, n, found.value, PairCell(front[found.value].key, pair.value));
      a.StorePair(k, t, found.value, PairCell(front[found.value].key, pair.value));
      return Some(CellCount(n, hashes));
    }
    FrontAppended(m, k, n, PairCell(pair.key, pair.value));
    a.StorePair(k, t, n, PairCell(pair.key, pair.value));
    return Some(CellCount(n + 1, hashes + [pair.hash]));
  }

  /** The length of a map slice, and the hashes of its keys. */
  datatype CellCount = CellCount(n: nat, hashes: seq<U64>)

  lemma FrontUpdated(m: Memory, k: nat, n: nat, i: nat, e: PairCell)
    requires k < |m.pairs| && i < n <= |m.pairs[k]|
    ensures StoredPair(m, k, i, e) == StoredFront(m, k, m.pairs[k][..n][i := e])
  {
    assert m.pairs[k][i := e] == m.pairs[k][..n][i := e] + m.pairs[k][n..];
  }

  lemma FrontAppended(m: Memory, k: nat, n: nat, e: PairCell)
    requires k < |m.pairs| && n < |m.pairs[k]|
    ensures StoredPair(m, k, n, e) == StoredFront(m, k, m.pairs[k][..n] + [e])
  {
    assert m.pairs[k][n := e] == m.pairs[k][..n] + [e] + m.pairs[k][n + 1..];
  }

  /** The loop over the pairs of a definite map, in the slice t, which was handed out last. */
  method DecodePairsIn(a: Arena, ghost m: Memory, ghost k: nat, t: Slice<PairCell>, src: seq<Byte>, off: nat,
                       count: nat, depth: nat, o: DecodeOpts)
    returns (r: Decoded<Cell>)
    requires off <= |src| && a.Valid() && k == |m.pairs|
    requires Extends(m, a.Mem()) && |a.Mem().pairs| == k + 1 && a.Mem().pairSlices[k] == t
    requires a.Mem().values == m.values && |a.Mem().pairs[k]| == count
    modifies a.Repr()
    ensures a.Valid() && (forall x <- a.Repr() :: x in old(a.Repr()) || fresh(x))
    ensures Decodes(AsMap(D.DecodePairs(src, off, count, NO_PAIRS, count > DEDUP_THRESHOLD, depth, o)), m, r, a.Mem())
    decreases |src| - off, 3
  {
    hide Decodes, D.DecodeKey, D.DecodePair, MA.ReadPair, Fronts, Extends, PairsListed, PairReads, InsertPair,
         D.MapInsert;
    hide Sound, Denote, Fnv1a, Arenas.Arena.Mem, Arenas.Arena.Valid, Arenas.Arena.Repr;
    var dedup := count > DEDUP_THRESHOLD;
    ghost var all := D.DecodePairs(src, off, count, NO_PAIRS, dedup, depth, o);
    ghost var st := NO_PAIRS;
    ghost var cs := CellPairs([], []);
    StartsEmpty(m, a.Mem(), k, count);
    var n, hashes := 0, [];
    var pos := off;
    var i := 0;
    while i < count
      invariant i <= count && off <= pos <= |src| && n <= i && st.Valid() && n == |cs.entries| && hashes == cs.hashes
      invariant a.Valid() && (forall x <- a.Repr() :: x in old(a.Repr()) || fresh(x))
      invariant Fronts(m, a.Mem(), k, count, cs, st) && k < |a.Mem().pairs| && a.Mem().pairSlices[k] == t
      invariant all == D.DecodePairs(src, pos, count - i, st, dedup, depth, o)
    {
      ghost var cur := a.Mem();
      FrontBounds(m, cur, k, count, cs, st);
      ghost var keySpec := D.DecodeKey(src, pos, depth, o);
      var pair := DecodeKeyAndValueIn(a, src, pos, depth, o);
      ghost var next := a.Mem();
      ghost var spec := MA.ReadPair(src, pos, keySpec, depth, o);
      ReadParts(spec, cur, pair, next);
      MA.PairIsInsertion(src, pos, keySpec, st, dedup, depth, o);
      ExtendsTransitive(m, cur, next);
      if pair.Err? {
        LaterFailureDecodes(m, next, pair.error, pair.at);
        return Err(pair.error, pair.at);
      }
      ListedBounds(cur, |m.values|, k + 1, cs, st);
      InsertLater(cur, next, |m.values|, k + 1, cs, st, pair.value.key, pair.value.value, pair.value.hash, dedup,
                  o.rejectDuplicateKeys);
      KeptFront(cur, next, k, n, cs);
      var inserted := InsertIn(a, k, t, n, hashes, pair.value, dedup, o.rejectDuplicateKeys);
      ghost var cs' := InsertPair(cs, pair.value.key, pair.value.value, pair.value.hash, dedup, o.rejectDuplicateKeys);
      if inserted.None? {
        LaterFailureDecodes(m, next, DuplicateMapKey, pos);
        return Err(DuplicateMapKey, pos);
      }
      ghost var st' := D.MapInsert(st, spec.value.key, spec.value.value, pair.value.hash, dedup, o.rejectDuplicateKeys);
      FrontNext(m, cur, next, k, count, cs, st, cs'.value, st'.value);
      FrontStored(next, k, cs'.value.entries);
      cs, st := cs'.value, st'.value;
      n, hashes, pos := inserted.value.n, inserted.value.hashes, pair.next;
      i := i + 1;
    }
    FrontDecodes(m, a.Mem(), k, t, count, cs, st, pos);
    return D.Decoded.Ok(Entries(k, t, n), pos);
  }

  /** What was decoded since left the slice of the map alone. */
  lemma KeptFront(cur: Memory, next: Memory, k: nat, n: nat, cs: CellPairs)
    requires Extends(cur, next) && k < |cur.pairs| && n == |cs.entries| <= |cur.pairs[k]|
    requires cur.pairs[k][..n] == cs.entries
    ensures k < |next.pairs| && next.pairSlices[k] == cur.pairSlices[k] && next.pairs[k] == cur.pairs[k]
    ensures n <= |next.pairs[k]| && CellPairs(next.pairs[k][..n], cs.hashes) == cs
  {
  }

  lemma FrontStored(m: Memory, k: nat, front: seq<PairCell>)
    requires m.Valid() && k < |m.pairs| && |front| <= |m.pairs[k]|
    ensures k < |StoredFront(m, k, front).pairs| && StoredFront(m, k, front).pairSlices == m.pairSlices
  {
  }

  /** An open-ended map grows in a list of its own; its containers are in the arena. */
  method DecodePairsUntilBreakIn(a: Arena, src: seq<Byte>, off: nat, depth: nat, o: DecodeOpts)
    returns (r: Decoded<Cell>)
    requires off <= |src| && a.Valid()
    modifies a.Repr()
    ensures a.Valid() && (forall x <- a.Repr() :: x in old(a.Repr()) || fresh(x))
    ensures Decodes(AsMap(D.DecodePairsUntilBreak(src, off, NO_PAIRS, depth, o)), old(a.Mem()), r, a.Mem())
    decreases |src| - off, 3
  {
    hide Decodes, D.DecodeValue, D.DecodePair, MA.ReadPair, Extends, PairsListed, PairReads, InsertPair, D.MapInsert;
    hide Sound, Denote, Fnv1a, Arenas.Arena.Mem, Arenas.Arena.Valid, Arenas.Arena.Repr;
    ghost var m := a.Mem();
    ghost var mv, mp := |m.values|, |m.pairs|;
    ghost var all := D.DecodePairsUntilBreak(src, off, NO_PAIRS, depth, o);
    ghost var st := NO_PAIRS;
    var cs := CellPairs([], []);
    var pos := off;
    NoPairsListed(m);
    while true
      invariant off <= pos <= |src| && st.Valid() && cs.Valid() && |cs.entries| == |st.entries|
      invariant a.Valid() && (forall x <- a.Repr() :: x in old(a.Repr()) || fresh(x))
      invariant Extends(m, a.Mem()) && PairsListed(a.Mem(), mv, mp, cs, st)
      invariant all == D.DecodePairsUntilBreak(src, pos, st, depth, o)
      decreases |src| - pos
    {
      ghost var cur := a.Mem();
      if pos >= |src| {
        LaterFailureDecodes(m, cur, Truncated, pos);
        return Err(Truncated, pos);
      }
      if src[pos] == BREAK_CODE {
        PairsDecode(m, cur, cs, st, pos + 1);
        return D.Decoded.Ok(EntryList(cs.entries), pos + 1);
      }
      if |cs.entries| >= o.MaxArray() {
        LaterFailureDecodes(m, cur, MaxArrayLength, pos);
        return Err(MaxArrayLength, pos);
      }
      ghost var keySpec := D.DecodeValue(src, pos, depth, o, false);
      var key := DecodeValueIn(a, src, pos, depth, o, false);
      var pair := DecodePairIn(a, cur, src, pos, key, keySpec, depth, o);
      ghost var next := a.Mem();
      ghost var spec := MA.ReadPair(src, pos, keySpec, depth, o);
      ReadParts(spec, cur, pair, next);
      MA.PairIsInsertion(src, pos, keySpec, st, false, depth, o);
      ExtendsTransitive(m, cur, next);
      if pair.Err? {
        LaterFailureDecodes(m, next, pair.error, pair.at);
        return Err(pair.error, pair.at);
      }
      ListedBounds(cur, mv, mp, cs, st);
      InsertLater(cur, next, mv, mp, cs, st, pair.value.key, pair.value.value, pair.value.hash, false,
                  o.rejectDuplicateKeys);
      var cs' := InsertPair(cs, pair.value.key, pair.value.value, pair.value.hash, false, o.rejectDuplicateKeys);
      if cs'.None? {
        LaterFailureDecodes(m, next, DuplicateMapKey, pos);
        return Err(DuplicateMapKey, pos);
      }
      st := D.MapInsert(st, spec.value.key, spec.value.value, pair.value.hash, false, o.rejectDuplicateKeys).value;
      ListedBounds(next, mv, mp, cs'.value, st);
      cs, pos := cs'.value, pair.next;
    }
  }

  // ---------------------------------------------------------------- reading the value back

  /** Following the slices from a cell, in the slabs as they are, reaches the value it denotes. */
  function Read(a: Arena, c: Cell, ghost mv: nat, ghost mp: nat): (v: Value)
    requires a.Valid() && mv <= |a.Mem().values| && mp <= |a.Mem().pairs| && Sound(a.Mem(), c, mv, mp)
    reads a.values, a.pairs, a.Repr()
    ensures v == Denote(a.Mem(), c, mv, mp)
    decreases a.Mem().Room(mv, mp), c, 1
  {
    match c
    case Plain(x) => x
    case Items(_, _) => ReadArray(a, c, mv, mp)
    case ItemList(items) => Array(ReadItems(a, items, mv, mp))
    case Entries(_, _, _) => ReadMap(a, c, mv, mp)
    case EntryList(entries) => Map(ReadPairs(a, entries, mv, mp))
    case Tagged(id, inner) => Tag(id, Read(a, inner, mv, mp))
  }

  lemma LessRoom(m: Memory, mv: nat, mp: nat, mv': nat, mp': nat)
    requires mv <= mv' <= |m.values| && mp <= mp' <= |m.pairs| && mv + mp < mv' + mp'
    ensures m.Room(mv', mp') < m.Room(mv, mp)
  {
  }

  function ReadArray(a: Arena, c: Cell, ghost mv: nat, ghost mp: nat): (v: Value)
    requires a.Valid() && mv <= |a.Mem().values| && mp <= |a.Mem().pairs| && c.Items? && Sound(a.Mem(), c, mv, mp)
    reads a.values, a.pairs, a.Repr()
    ensures v == Denote(a.Mem(), c, mv, mp)
    decreases a.Mem().Room(mv, mp), c, 0
  {
    hide *;
    ArrayParts(a.Mem(), c, mv, mp);
    LessRoom(a.Mem(), mv, mp, c.k + 1, mp);
    Array(ReadItems(a, a.LoadValues(c.k, c.s), c.k + 1, mp))
  }

  function ReadMap(a: Arena, c: Cell, ghost mv: nat, ghost mp: nat): (v: Value)
    requires a.Valid() && mv <= |a.Mem().values| && mp <= |a.Mem().pairs| && c.Entries? && Sound(a.Mem(), c, mv, mp)
    reads a.values, a.pairs, a.Repr()
    ensures v == Denote(a.Mem(), c, mv, mp)
    decreases a.Mem().Room(mv, mp), c, 0
  {
    hide *;
    MapParts(a.Mem(), c, mv, mp);
    LessRoom(a.Mem(), mv, mp, mv, c.k + 1);
    Map(ReadPairs(a, a.LoadPairs(c.k, c.t, c.n), mv, c.k + 1))
  }

  function ReadItems(a: Arena, items: seq<Cell>, ghost mv: nat, ghost mp: nat): (vs: seq<Value>)
    requires a.Valid() && mv <= |a.Mem().values| && mp <= |a.Mem().pairs|
    requires forall i | 0 <= i < |items| :: Sound(a.Mem(), items[i], mv, mp)
    reads a.values, a.pairs, a.Repr()
    ensures vs == DenoteItems(a.Mem(), items, mv, mp)
    decreases a.Mem().Room(mv, mp), items, 0
  {
    if items == [] then [] else [Read(a, items[0], mv, mp)] + ReadItems(a, items[1..], mv, mp)
  }

  function ReadPair(a: Arena, e: PairCell, ghost mv: nat, ghost mp: nat): (m: MapEntry)
    requires a.Valid() && mv <= |a.Mem().values| && mp <= |a.Mem().pairs| && SoundPair(a.Mem(), e, mv, mp)
    reads a.values, a.pairs, a.Repr()
    ensures m == DenotePair(a.Mem(), e, mv, mp)
    decreases a.Mem().Room(mv, mp), e
  {
    MapEntry(Read(a, e.key, mv, mp), Read(a, e.value, mv, mp))
  }

  function ReadPairs(a: Arena, entries: seq<PairCell>, ghost mv: nat, ghost mp: nat): (es: seq<MapEntry>)
    requires a.Valid() && mv <= |a.Mem().values| && mp <= |a.Mem().pairs|
    requires forall i | 0 <= i < |entries| :: SoundPair(a.Mem(), entries[i], mv, mp)
    reads a.values, a.pairs, a.Repr()
    ensures es == DenotePairs(a.Mem(), entries, mv, mp)
    decreases a.Mem().Room(mv, mp), entries, 0
  {
    if entries == [] then [] else [ReadPair(a, entries[0], mv, mp)] + ReadPairs(a, entries[1..], mv, mp)
  }
}
