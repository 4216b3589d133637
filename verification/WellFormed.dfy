/**
 Well-formedness of a data item (Appendix C of RFC 8949) as the extent of the item, and how
 the decoder relates to it: it accepts every well-formed item within its limits, and what it
 accepts is well-formed but for one leniency, additional information 31 on the major types
 0, 1 and 6, which it takes for the argument 0.
 */
module WellFormed {
  import opened Bytes
  import opened Wire
  import opened Floats
  import opened Values
  import opened Decoding

  /**
   Which items count: `ai31` admits the leniency, `half` admits half-precision floats, and if
   `bounded` then nesting, counts and string lengths must not exceed the limits.
   */
  datatype Rules = Rules(ai31: bool, half: bool, bounded: bool, maxNesting: nat, maxCount: nat, maxBytes: nat) {
    predicate Nests(depth: nat) { bounded ==> depth <= maxNesting }
    predicate Counts(n: nat) { bounded ==> n <= maxCount }
    predicate Holds(n: nat) { bounded ==> n <= maxBytes }
  }

  /** Appendix C itself. */
  const APPENDIX_C := Rules(false, true, false, 0, 0, 0)
  /** Appendix C and the leniency of the decoder. */
  const LENIENT := Rules(true, true, false, 0, 0, 0)
  /** Appendix C without half-precision floats. */
  const NO_HALF := Rules(false, false, false, 0, 0, 0)

  /** The offset after the well-formed item that stands at off. */
  function Extent(src: seq<Byte>, off: nat, depth: nat, g: Rules): (r: Option<nat>)
    requires off <= |src|
    ensures r.Some? ==> off < r.value <= |src|
    decreases |src| - off, 0
  {
    if off >= |src| then None
    else
      var h := ParseHead(src[off..]);
      if h.n == 0 || Reserved(h) then None
      else ExtentAfterHead(src, off, h, depth, g)
  }

  function ExtentAfterHead(src: seq<Byte>, off: nat, h: Head, depth: nat, g: Rules): (r: Option<nat>)
    requires off + h.n <= |src| && h.n > 0
    ensures r.Some? ==> off < r.value <= |src|
    decreases |src| - off - h.n, 5
  {
    var pos := off + h.n;
    if h.major == MAJOR_UINT || h.major == MAJOR_NEGINT then
      if h.ai == AI_INDEFINITE && !g.ai31 then None else Some(pos)
    else if h.major == MAJOR_BYTES || h.major == MAJOR_TEXT then
      if h.ai == AI_INDEFINITE then ExtentChunks(src, pos, h.major, 0, g)
      else if !g.Holds(h.arg) || pos + h.arg > |src| then None
      else Some(pos + h.arg)
    else if h.major == MAJOR_ARRAY then
      if !g.Nests(depth + 1) then None
      else if h.ai == AI_INDEFINITE then ExtentUntilBreak(src, pos, 0, false, depth + 1, g)
      else if !g.Counts(h.arg) then None
      else ExtentItems(src, pos, h.arg, depth + 1, g)
    else if h.major == MAJOR_MAP then
      if !g.Nests(depth + 1) then None
      else if h.ai == AI_INDEFINITE then ExtentUntilBreak(src, pos, 0, true, depth + 1, g)
      else if !g.Counts(h.arg) then None
      else ExtentItems(src, pos, 2 * h.arg, depth + 1, g)
    else if h.major == MAJOR_TAG then
      if (h.ai == AI_INDEFINITE && !g.ai31) || !g.Nests(depth + 1) then None
      else Extent(src, pos, depth + 1, g)
    else
      if h.ai == AI_INDEFINITE || (h.ai == AI_1BYTE && h.arg < 32) || (h.ai == AI_2BYTES && !g.half) then None
      else Some(pos)
  }

  /** The chunks of an indefinite-length string up to its break; total bytes came before. */
  function ExtentChunks(src: seq<Byte>, pos: nat, major: Major, total: nat, g: Rules): (r: Option<nat>)
    requires pos <= |src|
    ensures r.Some? ==> pos < r.value <= |src|
    decreases |src| - pos
  {
    if pos >= |src| then None
    else if src[pos] == BREAK_CODE then Some(pos + 1)
    else
      var h := ParseHead(src[pos..]);
      if h.n == 0 || h.major != major || h.ai >= 28 then None
      else if !g.Holds(total + h.arg) || pos + h.n + h.arg > |src| then None
      else ExtentChunks(src, pos + h.n + h.arg, major, total + h.arg, g)
  }

  function ExtentItems(src: seq<Byte>, pos: nat, count: nat, depth: nat, g: Rules): (r: Option<nat>)
    requires pos <= |src|
    ensures r.Some? ==> pos <= r.value <= |src| && (count > 0 ==> pos < r.value)
    decreases |src| - pos, 2
  {
    if count == 0 then Some(pos)
    else
      match Extent(src, pos, depth, g)
      case None => None
      case Some(next) => ExtentItems(src, next, count - 1, depth, g)
  }

  /** Items, or pairs of items, up to a break; n of them came before. */
  function ExtentUntilBreak(src: seq<Byte>, pos: nat, n: nat, paired: bool, depth: nat, g: Rules): (r: Option<nat>)
    requires pos <= |src|
    ensures r.Some? ==> pos < r.value <= |src|
    decreases |src| - pos, 3
  {
    if pos >= |src| then None
    else if src[pos] == BREAK_CODE then Some(pos + 1)
    else if !g.Counts(n + 1) then None
    else
      match ExtentItems(src, pos, if paired then 2 else 1, depth, g)
      case None => None
      case Some(next) => ExtentUntilBreak(src, next, n + 1, paired, depth, g)
  }

  // ---------------------------------------------------------------- accepted items are well-formed

  /** Well-formed but for the leniency, and within the limits of the options. */
  function Limits(o: DecodeOpts): Rules {
    Rules(true, true, true, o.MaxNesting(), o.MaxArray(), o.MaxBytes())
  }

  const OPEN_MAP: Byte := 0xbf

  /**
   The number of pairs of an open-ended map is not what the limit is about: the input is too short for
   that many, or has no such map.
   */
  predicate PairsUncounted(src: seq<Byte>, o: DecodeOpts) { |src| <= 2 * o.MaxArray() || OPEN_MAP !in src }

  /** The rules admit what the options accept. If they are bounded, they are the limits of the options. */
  predicate Covers(g: Rules, src: seq<Byte>, o: DecodeOpts) {
    && g.ai31 && g.half
    && (g.bounded ==> g == Limits(o) && o.MaxBytes() >= 23 && PairsUncounted(src, o))
  }

  lemma ShortStringHead(src: seq<Byte>, pos: nat, major: Major)
    requires ShortStringAt(src, pos, major)
    ensures ParseHead(src[pos..]) == Head(major, src[pos] % 32, src[pos] % 32, 1)
  {
  }

  /** A short string taken by a shortcut extends as far as the general rule says. */
  lemma ShortStringExtent(src: seq<Byte>, pos: nat, depth: nat, major: Major, g: Rules)
    requires ShortStringAt(src, pos, major) && (major == MAJOR_BYTES || major == MAJOR_TEXT)
    requires g.bounded ==> g.maxBytes >= 23
    ensures Extent(src, pos, depth, g) == Some(pos + 1 + src[pos] % 32)
  {
    hide ParseHead;
    ShortStringHead(src, pos, major);
  }

  lemma {:induction false} AcceptedChunks(src: seq<Byte>, pos: nat, major: Major, buf: seq<Byte>, o: DecodeOpts,
                                          total: nat, g: Rules)
    requires pos <= |src| && DecodeChunks(src, pos, major, buf, o).Ok? && Covers(g, src, o)
    requires g.bounded ==> total == |buf|
    ensures ExtentChunks(src, pos, major, total, g) == Some(DecodeChunks(src, pos, major, buf, o).next)
    decreases |src| - pos
  {
    hide ParseHead;
    if src[pos] != BREAK_CODE {
      var h := ParseHead(src[pos..]);
      var end := pos + h.n + h.arg;
      AcceptedChunks(src, end, major, buf + src[pos + h.n..end], o, total + h.arg, g);
    }
  }

  lemma OpenMapHead(src: seq<Byte>, off: nat)
    requires off < |src| && ParseHead(src[off..]).n > 0
    requires ParseHead(src[off..]).major == MAJOR_MAP && ParseHead(src[off..]).ai == AI_INDEFINITE
    ensures src[off] == OPEN_MAP
  {
  }

  lemma AcceptedString(src: seq<Byte>, off: nat, h: Head, o: DecodeOpts, nesting: nat, g: Rules)
    requires off + h.n <= |src| && h.n > 0 && (h.major == MAJOR_BYTES || h.major == MAJOR_TEXT) && Covers(g, src, o)
    requires if h.major == MAJOR_BYTES then DecodeBytes(src, off, h, o).Ok? else DecodeText(src, off, h, o).Ok?
    ensures ExtentAfterHead(src, off, h, nesting, g) ==
            Some(if h.major == MAJOR_BYTES then DecodeBytes(src, off, h, o).next else DecodeText(src, off, h, o).next)
  {
    hide ParseHead, ValidUTF8;
    if h.ai == AI_INDEFINITE {
      AcceptedChunks(src, off + h.n, h.major, [], o, 0, g);
    }
  }

  lemma {:induction false} AcceptedValue(src: seq<Byte>, off: nat, depth: nat, o: DecodeOpts, strip: bool, nesting: nat,
                                         g: Rules)
    requires off <= |src| && DecodeValue(src, off, depth, o, strip).Ok? && Covers(g, src, o)
    requires g.bounded ==> nesting == depth && !strip
    ensures Extent(src, off, nesting, g) == Some(DecodeValue(src, off, depth, o, strip).next)
    decreases |src| - off, 0
  {
    hide ParseHead, HalfToDouble, DecodeBytes, DecodeText, DecodeArray, DecodeMap, DecodeChunks, ExtentChunks,
         ExtentItems, ExtentUntilBreak;
    var h := ParseHead(src[off..]);
    var pos := off + h.n;
    if h.major == MAJOR_BYTES || h.major == MAJOR_TEXT {
      AcceptedString(src, off, h, o, nesting, g);
    } else if h.major == MAJOR_ARRAY {
      AcceptedArray(src, off, h, depth, o, nesting, g);
    } else if h.major == MAJOR_MAP {
      if h.ai == AI_INDEFINITE {
        OpenMapHead(src, off);
      }
      AcceptedMap(src, off, h, depth, o, nesting, g);
    } else if h.major == MAJOR_TAG {
      if h.arg == SELF_DESCRIBE && strip {
        AcceptedValue(src, pos, depth, o, true, nesting + 1, g);
      } else {
        AcceptedValue(src, pos, depth + 1, o, false, nesting + 1, g);
      }
    }
  }

  lemma AcceptedArray(src: seq<Byte>, off: nat, h: Head, depth: nat, o: DecodeOpts, nesting: nat, g: Rules)
    requires off + h.n <= |src| && h.n > 0 && h.major == MAJOR_ARRAY
    requires DecodeArray(src, off, h, depth, o).Ok? && Covers(g, src, o) && (g.bounded ==> nesting == depth)
    ensures ExtentAfterHead(src, off, h, nesting, g) == Some(DecodeArray(src, off, h, depth, o).next)
    decreases |src| - off - h.n, 5
  {
    hide DecodeItems, DecodeUntilBreak, Extent, ExtentItems, ExtentUntilBreak;
    if h.ai == AI_INDEFINITE {
      AcceptedUntilBreak(src, off + h.n, [], depth + 1, o, nesting + 1, 0, g);
    } else {
      AcceptedItems(src, off + h.n, h.arg, [], depth + 1, o, nesting + 1, g);
    }
  }

  lemma AcceptedMap(src: seq<Byte>, off: nat, h: Head, depth: nat, o: DecodeOpts, nesting: nat, g: Rules)
    requires off + h.n <= |src| && h.n > 0 && h.major == MAJOR_MAP
    requires DecodeMap(src, off, h, depth, o).Ok? && Covers(g, src, o) && (g.bounded ==> nesting == depth)
    requires g.bounded && h.ai == AI_INDEFINITE ==> |src| <= 2 * g.maxCount
    ensures ExtentAfterHead(src, off, h, nesting, g) == Some(DecodeMap(src, off, h, depth, o).next)
    decreases |src| - off - h.n, 5
  {
    hide DecodePairs, DecodePairsUntilBreak, Extent, ExtentItems, ExtentUntilBreak;
    if h.ai == AI_INDEFINITE {
      AcceptedPairsUntilBreak(src, off + h.n, NO_PAIRS, depth + 1, o, nesting + 1, 0, g);
    } else {
      AcceptedPairs(src, off + h.n, h.arg, NO_PAIRS, h.arg > DEDUP_THRESHOLD, depth + 1, o, nesting + 1, g);
    }
  }

  lemma AcceptedElement(src: seq<Byte>, pos: nat, depth: nat, o: DecodeOpts, nesting: nat, g: Rules)
    requires pos <= |src| && Covers(g, src, o) && (g.bounded ==> nesting == depth)
    ensures DecodeElement(src, pos, depth, o).Ok? ==>
              Extent(src, pos, nesting, g) == Some(DecodeElement(src, pos, depth, o).next)
    ensures DecodeKey(src, pos, depth, o).Ok? ==>
              Extent(src, pos, nesting, g) == Some(DecodeKey(src, pos, depth, o).next)
    decreases |src| - pos, 1
  {
    hide DecodeValue, Extent, ValidUTF8;
    if ShortStringAt(src, pos, MAJOR_TEXT) {
      ShortStringExtent(src, pos, nesting, MAJOR_TEXT, g);
    } else if DecodeValue(src, pos, depth, o, false).Ok? {
      AcceptedValue(src, pos, depth, o, false, nesting, g);
    }
    if ShortStringAt(src, pos, MAJOR_BYTES) {
      ShortStringExtent(src, pos, nesting, MAJOR_BYTES, g);
    }
  }

  lemma {:induction false} AcceptedItems(src: seq<Byte>, pos: nat, count: nat, arr: seq<Value>, depth: nat,
                                         o: DecodeOpts, nesting: nat, g: Rules)
    requires pos <= |src| && DecodeItems(src, pos, count, arr, depth, o).Ok? && Covers(g, src, o)
    requires g.bounded ==> nesting == depth
    ensures ExtentItems(src, pos, count, nesting, g) == Some(DecodeItems(src, pos, count, arr, depth, o).next)
    decreases |src| - pos, 2
  {
    hide DecodeElement, Extent;
    if count > 0 {
      AcceptedElement(src, pos, depth, o, nesting, g);
      var e := DecodeElement(src, pos, depth, o);
      AcceptedItems(src, e.next, count - 1, arr + [e.value], depth, o, nesting, g);
    }
  }

  lemma OneItem(src: seq<Byte>, pos: nat, depth: nat, g: Rules)
    requires pos <= |src|
    ensures ExtentItems(src, pos, 1, depth, g) == Extent(src, pos, depth, g)
  {
    hide Extent;
  }

  lemma TwoItems(src: seq<Byte>, pos: nat, depth: nat, g: Rules)
    requires pos <= |src|
    ensures ExtentItems(src, pos, 2, depth, g) ==
            match Extent(src, pos, depth, g) case None => None case Some(mid) => Extent(src, mid, depth, g)
  {
    hide Extent;
    if Extent(src, pos, depth, g).Some? {
      OneItem(src, Extent(src, pos, depth, g).value, depth, g);
    }
  }

  lemma {:induction false} AcceptedUntilBreak(src: seq<Byte>, pos: nat, arr: seq<Value>, depth: nat, o: DecodeOpts,
                                              nesting: nat, n: nat, g: Rules)
    requires pos <= |src| && DecodeUntilBreak(src, pos, arr, depth, o).Ok? && Covers(g, src, o)
    requires g.bounded ==> nesting == depth && n == |arr|
    ensures ExtentUntilBreak(src, pos, n, false, nesting, g) ==
            Some(DecodeUntilBreak(src, pos, arr, depth, o).next)
    decreases |src| - pos, 2
  {
    hide DecodeValue, Extent, ExtentItems;
    if src[pos] != BREAK_CODE {
      AcceptedValue(src, pos, depth, o, false, nesting, g);
      OneItem(src, pos, nesting, g);
      var e := DecodeValue(src, pos, depth, o, false);
      AcceptedUntilBreak(src, e.next, arr + [e.value], depth, o, nesting, n + 1, g);
    }
  }

  /** Key and value of an accepted pair are two well-formed items. */
  lemma AcceptedPair(src: seq<Byte>, keyOff: nat, key: Decoded<Value>, m: Pairs, dedup: bool, depth: nat, o: DecodeOpts,
                     nesting: nat, g: Rules)
    requires Covers(g, src, o) && (g.bounded ==> nesting == depth)
    requires keyOff <= |src| && m.Valid() && (key.Ok? ==> keyOff < key.next <= |src|)
    requires DecodePair(src, keyOff, key, m, dedup, depth, o).Ok?
    requires key.Ok? ==> Extent(src, keyOff, nesting, g) == Some(key.next)
    ensures ExtentItems(src, keyOff, 2, nesting, g) == Some(DecodePair(src, keyOff, key, m, dedup, depth, o).next)
    decreases |src| - keyOff, 2
  {
    hide DecodeValue, Extent, ExtentItems, MapInsert, Fnv1a;
    AcceptedValue(src, key.next, depth, o, false, nesting, g);
    TwoItems(src, keyOff, nesting, g);
  }

  lemma {:induction false} TwoMoreItems(src: seq<Byte>, pos: nat, count: nat, depth: nat, g: Rules)
    requires pos <= |src| && count > 0
    ensures ExtentItems(src, pos, 2 * count, depth, g) ==
            match ExtentItems(src, pos, 2, depth, g)
            case None => None
            case Some(next) => ExtentItems(src, next, 2 * (count - 1), depth, g)
  {
    hide Extent;
    var k := Extent(src, pos, depth, g);
    TwoItems(src, pos, depth, g);
    if k.Some? {
      assert ExtentItems(src, pos, 2 * count, depth, g) == ExtentItems(src, k.value, 2 * count - 1, depth, g);
    }
  }

  lemma {:induction false} AcceptedPairs(src: seq<Byte>, pos: nat, count: nat, m: Pairs, dedup: bool, depth: nat,
                                         o: DecodeOpts, nesting: nat, g: Rules)
    requires pos <= |src| && m.Valid() && DecodePairs(src, pos, count, m, dedup, depth, o).Ok?
    requires Covers(g, src, o) && (g.bounded ==> nesting == depth)
    ensures ExtentItems(src, pos, 2 * count, nesting, g) ==
            Some(DecodePairs(src, pos, count, m, dedup, depth, o).next)
    decreases |src| - pos, 3
  {
    hide DecodeKey, DecodePair, Extent;
    if count > 0 {
      AcceptedElement(src, pos, depth, o, nesting, g);
      var k := DecodeKey(src, pos, depth, o);
      var r := DecodePair(src, pos, k, m, dedup, depth, o);
      AcceptedPair(src, pos, k, m, dedup, depth, o, nesting, g);
      TwoMoreItems(src, pos, count, nesting, g);
      AcceptedPairs(src, r.next, count - 1, r.value, dedup, depth, o, nesting, g);
    }
  }

  /** A pair takes at least two bytes. */
  lemma TwoBytes(src: seq<Byte>, pos: nat, key: Decoded<Value>, r: Decoded<Pairs>, m: Pairs, depth: nat, o: DecodeOpts)
    requires pos <= |src| && m.Valid() && (key.Ok? ==> pos < key.next <= |src|)
    requires r == DecodePair(src, pos, key, m, false, depth, o) && r.Ok?
    ensures pos + 2 <= r.next
  {
    hide DecodeValue, MapInsert, Fnv1a;
  }

  lemma {:induction false} AcceptedPairsUntilBreak(src: seq<Byte>, pos: nat, m: Pairs, depth: nat, o: DecodeOpts,
                                                   nesting: nat, n: nat, g: Rules)
    requires pos <= |src| && m.Valid() && DecodePairsUntilBreak(src, pos, m, depth, o).Ok? && Covers(g, src, o)
    requires g.bounded ==> nesting == depth && |src| <= 2 * g.maxCount && 2 * n <= pos
    ensures ExtentUntilBreak(src, pos, n, true, nesting, g) ==
            Some(DecodePairsUntilBreak(src, pos, m, depth, o).next)
    decreases |src| - pos, 3
  {
    hide DecodeValue, DecodePair, Extent, ExtentItems;
    if src[pos] != BREAK_CODE {
      var k := DecodeValue(src, pos, depth, o, false);
      if k.Ok? {
        AcceptedValue(src, pos, depth, o, false, nesting, g);
      }
      var r := DecodePair(src, pos, k, m, false, depth, o);
      AcceptedPair(src, pos, k, m, false, depth, o, nesting, g);
      TwoBytes(src, pos, k, r, m, depth, o);
      AcceptedPairsUntilBreak(src, r.next, r.value, depth, o, nesting, n + 1, g);
    }
  }

  /** Whatever the options, the item an accepted value was read from is well-formed but for the leniency. */
  lemma AcceptedIsWellFormed(src: seq<Byte>, o: DecodeOpts)
    requires Decode(src, o).Ok?
    ensures Extent(src, 0, 0, LENIENT) == Some(Decode(src, o).next)
  {
    hide DecodeValue, Extent;
    AcceptedValue(src, 0, 0, o, true, 0, LENIENT);
  }

  // ---------------------------------------------------------------- well-formed items are accepted

  /** Options that reject nothing but what is not well-formed or exceeds a limit. */
  predicate RejectsNothing(o: DecodeOpts) {
    && !o.rejectIndefinite && !o.rejectNonShortest && !o.rejectInvalidUTF8 && !o.rejectDuplicateKeys
    && !o.rejectUnknownTags && !o.rejectNonFinite && !o.rejectNullKeys
  }

  lemma {:induction false} ChunksAccepted(src: seq<Byte>, pos: nat, major: Major, buf: seq<Byte>, o: DecodeOpts)
    requires pos <= |src| && RejectsNothing(o) && ExtentChunks(src, pos, major, |buf|, Limits(o)).Some?
    ensures var r := DecodeChunks(src, pos, major, buf, o);
            r.Ok? && Some(r.next) == ExtentChunks(src, pos, major, |buf|, Limits(o))
    decreases |src| - pos
  {
    hide ParseHead;
    if src[pos] != BREAK_CODE {
      var h := ParseHead(src[pos..]);
      var end := pos + h.n + h.arg;
      ChunksAccepted(src, end, major, buf + src[pos + h.n..end], o);
    }
  }

  lemma {:induction false} ValueAccepted(src: seq<Byte>, off: nat, depth: nat, o: DecodeOpts, strip: bool, nesting: nat)
    requires off <= |src| && RejectsNothing(o) && depth <= nesting
    requires Extent(src, off, nesting, Limits(o)).Some?
    ensures var r := DecodeValue(src, off, depth, o, strip);
            r.Ok? && Some(r.next) == Extent(src, off, nesting, Limits(o))
    decreases |src| - off, 0
  {
    hide ParseHead, HalfToDouble, ValidUTF8;
    var h := ParseHead(src[off..]);
    var pos := off + h.n;
    if h.major == MAJOR_BYTES || h.major == MAJOR_TEXT {
      if h.ai == AI_INDEFINITE {
        ChunksAccepted(src, pos, h.major, [], o);
      }
    } else if h.major == MAJOR_ARRAY {
      ArrayAccepted(src, off, h, depth, o, nesting);
    } else if h.major == MAJOR_MAP {
      MapAccepted(src, off, h, depth, o, nesting);
    } else if h.major == MAJOR_TAG {
      if h.arg == SELF_DESCRIBE && strip {
        ValueAccepted(src, pos, depth, o, true, nesting + 1);
      } else {
        ValueAccepted(src, pos, depth + 1, o, false, nesting + 1);
      }
    }
  }

  lemma ArrayAccepted(src: seq<Byte>, off: nat, h: Head, depth: nat, o: DecodeOpts, nesting: nat)
    requires off + h.n <= |src| && h.n > 0 && h.major == MAJOR_ARRAY && RejectsNothing(o) && depth <= nesting
    requires ExtentAfterHead(src, off, h, nesting, Limits(o)).Some?
    ensures var r := DecodeArray(src, off, h, depth, o);
            r.Ok? && Some(r.next) == ExtentAfterHead(src, off, h, nesting, Limits(o))
    decreases |src| - off - h.n, 5
  {
    hide DecodeItems, DecodeUntilBreak, Extent, ExtentItems, ExtentUntilBreak;
    if h.ai == AI_INDEFINITE {
      UntilBreakAccepted(src, off + h.n, [], depth + 1, o, nesting + 1);
    } else {
      ItemsAccepted(src, off + h.n, h.arg, [], depth + 1, o, nesting + 1);
    }
  }

  lemma MapAccepted(src: seq<Byte>, off: nat, h: Head, depth: nat, o: DecodeOpts, nesting: nat)
    requires off + h.n <= |src| && h.n > 0 && h.major == MAJOR_MAP && RejectsNothing(o) && depth <= nesting
    requires ExtentAfterHead(src, off, h, nesting, Limits(o)).Some?
    ensures var r := DecodeMap(src, off, h, depth, o);
            r.Ok? && Some(r.next) == ExtentAfterHead(src, off, h, nesting, Limits(o))
    decreases |src| - off - h.n, 5
  {
    hide DecodePairs, DecodePairsUntilBreak, Extent, ExtentItems, ExtentUntilBreak;
    if h.ai == AI_INDEFINITE {
      PairsUntilBreakAccepted(src, off + h.n, NO_PAIRS, depth + 1, o, nesting + 1, 0);
    } else {
      PairsAccepted(src, off + h.n, h.arg, NO_PAIRS, h.arg > DEDUP_THRESHOLD, depth + 1, o, nesting + 1);
    }
  }

  /** A short string that is well-formed is whole, so the shortcuts apply to it. */
  lemma ShortStringWhole(src: seq<Byte>, pos: nat, nesting: nat, g: Rules)
    requires pos <= |src| && Extent(src, pos, nesting, g).Some?
    requires src[pos] / 32 == MAJOR_BYTES || src[pos] / 32 == MAJOR_TEXT
    requires src[pos] % 32 < 24
    ensures ShortStringAt(src, pos, src[pos] / 32)
    ensures Extent(src, pos, nesting, g) == Some(pos + 1 + src[pos] % 32)
  {
    assert src[pos..][0] == src[pos];
  }

  lemma ElementAccepted(src: seq<Byte>, pos: nat, depth: nat, o: DecodeOpts, nesting: nat)
    requires pos <= |src| && RejectsNothing(o) && depth <= nesting && Extent(src, pos, nesting, Limits(o)).Some?
    ensures var r := DecodeElement(src, pos, depth, o);
            r.Ok? && Some(r.next) == Extent(src, pos, nesting, Limits(o))
    ensures var r := DecodeKey(src, pos, depth, o);
            r.Ok? && Some(r.next) == Extent(src, pos, nesting, Limits(o))
    decreases |src| - pos, 1
  {
    hide DecodeValue, Extent, ValidUTF8;
    ValueAccepted(src, pos, depth, o, false, nesting);
    if ShortStringAt(src, pos, MAJOR_TEXT) || ShortStringAt(src, pos, MAJOR_BYTES) {
      ShortStringWhole(src, pos, nesting, Limits(o));
    }
  }

  lemma {:induction false} ItemsAccepted(src: seq<Byte>, pos: nat, count: nat, arr: seq<Value>, depth: nat,
                                         o: DecodeOpts, nesting: nat)
    requires pos <= |src| && RejectsNothing(o) && depth <= nesting
    requires ExtentItems(src, pos, count, nesting, Limits(o)).Some?
    ensures var r := DecodeItems(src, pos, count, arr, depth, o);
            r.Ok? && Some(r.next) == ExtentItems(src, pos, count, nesting, Limits(o))
    decreases |src| - pos, 2
  {
    hide DecodeElement, Extent;
    if count > 0 {
      ElementAccepted(src, pos, depth, o, nesting);
      var e := DecodeElement(src, pos, depth, o);
      ItemsAccepted(src, e.next, count - 1, arr + [e.value], depth, o, nesting);
    }
  }

  lemma {:induction false} UntilBreakAccepted(src: seq<Byte>, pos: nat, arr: seq<Value>, depth: nat, o: DecodeOpts,
                                              nesting: nat)
    requires pos <= |src| && RejectsNothing(o) && depth <= nesting
    requires ExtentUntilBreak(src, pos, |arr|, false, nesting, Limits(o)).Some?
    ensures var r := DecodeUntilBreak(src, pos, arr, depth, o);
            r.Ok? && Some(r.next) == ExtentUntilBreak(src, pos, |arr|, false, nesting, Limits(o))
    decreases |src| - pos, 2
  {
    hide DecodeValue, Extent, ExtentItems;
    if src[pos] != BREAK_CODE {
      OneItem(src, pos, nesting, Limits(o));
      ValueAccepted(src, pos, depth, o, false, nesting);
      var e := DecodeValue(src, pos, depth, o, false);
      UntilBreakAccepted(src, e.next, arr + [e.value], depth, o, nesting);
    }
  }

  lemma PairAccepted(src: seq<Byte>, keyOff: nat, key: Decoded<Value>, m: Pairs, dedup: bool, depth: nat, o: DecodeOpts,
                     nesting: nat)
    requires keyOff <= |src| && m.Valid() && RejectsNothing(o) && depth <= nesting
    requires ExtentItems(src, keyOff, 2, nesting, Limits(o)).Some?
    requires key.Ok? && keyOff < key.next <= |src| && Extent(src, keyOff, nesting, Limits(o)) == Some(key.next)
    ensures var r := DecodePair(src, keyOff, key, m, dedup, depth, o);
            && r.Ok? && Some(r.next) == ExtentItems(src, keyOff, 2, nesting, Limits(o))
            && |r.value.entries| <= |m.entries| + 1
    decreases |src| - keyOff, 2
  {
    hide DecodeValue, Extent, ExtentItems, Fnv1a;
    TwoItems(src, keyOff, nesting, Limits(o));
    ValueAccepted(src, key.next, depth, o, false, nesting);
  }

  lemma {:induction false} PairsAccepted(src: seq<Byte>, pos: nat, count: nat, m: Pairs, dedup: bool, depth: nat,
                                         o: DecodeOpts, nesting: nat)
    requires pos <= |src| && m.Valid() && RejectsNothing(o) && depth <= nesting
    requires ExtentItems(src, pos, 2 * count, nesting, Limits(o)).Some?
    ensures var r := DecodePairs(src, pos, count, m, dedup, depth, o);
            r.Ok? && Some(r.next) == ExtentItems(src, pos, 2 * count, nesting, Limits(o))
    decreases |src| - pos, 3
  {
    hide DecodeKey, DecodePair, Extent;
    if count > 0 {
      TwoMoreItems(src, pos, count, nesting, Limits(o));
      FirstOfTwo(src, pos, nesting, Limits(o));
      ElementAccepted(src, pos, depth, o, nesting);
      var k := DecodeKey(src, pos, depth, o);
      PairAccepted(src, pos, k, m, dedup, depth, o, nesting);
      var r := DecodePair(src, pos, k, m, dedup, depth, o);
      PairsAccepted(src, r.next, count - 1, r.value, dedup, depth, o, nesting);
    }
  }

  lemma FirstOfTwo(src: seq<Byte>, pos: nat, depth: nat, g: Rules)
    requires pos <= |src| && ExtentItems(src, pos, 2, depth, g).Some?
    ensures Extent(src, pos, depth, g).Some?
  {
    hide Extent;
  }

  lemma {:induction false} PairsUntilBreakAccepted(src: seq<Byte>, pos: nat, m: Pairs, depth: nat, o: DecodeOpts,
                                                   nesting: nat, n: nat)
    requires pos <= |src| && m.Valid() && RejectsNothing(o) && depth <= nesting && |m.entries| <= n
    requires ExtentUntilBreak(src, pos, n, true, nesting, Limits(o)).Some?
    ensures var r := DecodePairsUntilBreak(src, pos, m, depth, o);
            r.Ok? && Some(r.next) == ExtentUntilBreak(src, pos, n, true, nesting, Limits(o))
    decreases |src| - pos, 3
  {
    hide DecodeValue, DecodePair, Extent, ExtentItems;
    if src[pos] != BREAK_CODE {
      FirstOfTwo(src, pos, nesting, Limits(o));
      ValueAccepted(src, pos, depth, o, false, nesting);
      var k := DecodeValue(src, pos, depth, o, false);
      PairAccepted(src, pos, k, m, false, depth, o, nesting);
      var r := DecodePair(src, pos, k, m, false, depth, o);
      PairsUntilBreakAccepted(src, r.next, r.value, depth, o, nesting, n + 1);
    }
  }

  /** A decoder that rejects nothing accepts every item within its limits, to its last byte. */
  lemma WellFormedIsAccepted(src: seq<Byte>, o: DecodeOpts)
    requires RejectsNothing(o) && Extent(src, 0, 0, Limits(o)).Some?
    ensures Decode(src, o).Ok? && Some(Decode(src, o).next) == Extent(src, 0, 0, Limits(o))
  {
    hide DecodeValue, Extent;
    ValueAccepted(src, 0, 0, o, true, 0);
  }

  // ---------------------------------------------------------------- exactly what is accepted

  /** The offset behind the tags 55799 at the root, which the decoder takes off without counting them as nesting. */
  function Payload(src: seq<Byte>, off: nat): (r: nat)
    requires off <= |src|
    ensures off <= r <= |src|
    decreases |src| - off
  {
    if off < |src| && SelfDescribed(src, off) then Payload(src, off + ParseHead(src[off..]).n) else off
  }

  /** A tag 55799 stands at off. */
  predicate SelfDescribed(src: seq<Byte>, off: nat)
    requires off <= |src|
  {
    var h := ParseHead(src[off..]);
    h.n > 0 && !Reserved(h) && h.major == MAJOR_TAG && h.arg == SELF_DESCRIBE
  }

  /** At the root it is the value behind those tags that is decoded. */
  lemma {:induction false} PayloadIsDecoded(src: seq<Byte>, off: nat, o: DecodeOpts)
    requires off <= |src| && RejectsNothing(o)
    ensures DecodeValue(src, off, 0, o, true) == DecodeValue(src, Payload(src, off), 0, o, false)
    decreases |src| - off
  {
    hide ParseHead, DecodeArray, DecodeMap, DecodeBytes, DecodeText, DecodeOther;
    if off < |src| && SelfDescribed(src, off) {
      PayloadIsDecoded(src, off + ParseHead(src[off..]).n, o);
    }
  }

  /**
   A decoder that rejects nothing accepts exactly the inputs whose value behind the root tags 55799 is well-formed,
   but for the leniency, and within the limits, and it accepts them to the last byte of that value. The limits
   must not bite where the decoder does not look: on strings of less than 24 bytes, which the shortcuts of
   elements and keys take as they are, and on pairs of open-ended maps, of which equal keys count once.
   */
  lemma AcceptedExactly(src: seq<Byte>, o: DecodeOpts)
    requires RejectsNothing(o) && o.MaxBytes() >= 23 && PairsUncounted(src, o)
    ensures Decode(src, o).Ok? <==> Extent(src, Payload(src, 0), 0, Limits(o)).Some?
    ensures Decode(src, o).Ok? ==> Some(Decode(src, o).next) == Extent(src, Payload(src, 0), 0, Limits(o))
  {
    hide DecodeValue, Extent, Payload;
    PayloadIsDecoded(src, 0, o);
    var p := Payload(src, 0);
    if DecodeValue(src, p, 0, o, false).Ok? {
      AcceptedValue(src, p, 0, o, false, 0, Limits(o));
    }
    if Extent(src, p, 0, Limits(o)).Some? {
      ValueAccepted(src, p, 0, o, false, 0);
    }
  }

  // ---------------------------------------------------------------- dropping limits and leniency

  /** g admits everything f admits. */
  predicate Admits(g: Rules, f: Rules) {
    && (f.ai31 ==> g.ai31) && (f.half ==> g.half)
    && (g.bounded ==> f.bounded && f.maxNesting <= g.maxNesting && f.maxCount <= g.maxCount && f.maxBytes <= g.maxBytes)
  }

  lemma {:induction false} ChunksMonotone(src: seq<Byte>, pos: nat, major: Major, total: nat, f: Rules, g: Rules)
    requires pos <= |src| && Admits(g, f) && ExtentChunks(src, pos, major, total, f).Some?
    ensures ExtentChunks(src, pos, major, total, g) == ExtentChunks(src, pos, major, total, f)
    decreases |src| - pos
  {
    hide ParseHead;
    if src[pos] != BREAK_CODE {
      var h := ParseHead(src[pos..]);
      ChunksMonotone(src, pos + h.n + h.arg, major, total + h.arg, f, g);
    }
  }

  /** Looser rules give the same extent. */
  lemma {:induction false} ExtentMonotone(src: seq<Byte>, off: nat, depth: nat, f: Rules, g: Rules)
    requires off <= |src| && Admits(g, f) && Extent(src, off, depth, f).Some?
    ensures Extent(src, off, depth, g) == Extent(src, off, depth, f)
    decreases |src| - off, 0
  {
    hide ParseHead;
    var h := ParseHead(src[off..]);
    var pos := off + h.n;
    if (h.major == MAJOR_BYTES || h.major == MAJOR_TEXT) && h.ai == AI_INDEFINITE {
      ChunksMonotone(src, pos, h.major, 0, f, g);
    } else if h.major == MAJOR_ARRAY && h.ai == AI_INDEFINITE {
      UntilBreakMonotone(src, pos, 0, false, depth + 1, f, g);
    } else if h.major == MAJOR_ARRAY {
      ItemsMonotone(src, pos, h.arg, depth + 1, f, g);
    } else if h.major == MAJOR_MAP && h.ai == AI_INDEFINITE {
      UntilBreakMonotone(src, pos, 0, true, depth + 1, f, g);
    } else if h.major == MAJOR_MAP {
      ItemsMonotone(src, pos, 2 * h.arg, depth + 1, f, g);
    } else if h.major == MAJOR_TAG {
      ExtentMonotone(src, pos, depth + 1, f, g);
    }
  }

  lemma {:induction false} ItemsMonotone(src: seq<Byte>, pos: nat, count: nat, depth: nat, f: Rules, g: Rules)
    requires pos <= |src| && Admits(g, f) && ExtentItems(src, pos, count, depth, f).Some?
    ensures ExtentItems(src, pos, count, depth, g) == ExtentItems(src, pos, count, depth, f)
    decreases |src| - pos, 2
  {
    hide Extent;
    if count > 0 {
      ExtentMonotone(src, pos, depth, f, g);
      ItemsMonotone(src, Extent(src, pos, depth, f).value, count - 1, depth, f, g);
    }
  }

  lemma {:induction false} UntilBreakMonotone(src: seq<Byte>, pos: nat, n: nat, paired: bool, depth: nat, f: Rules,
                                              g: Rules)
    requires pos <= |src| && Admits(g, f) && ExtentUntilBreak(src, pos, n, paired, depth, f).Some?
    ensures ExtentUntilBreak(src, pos, n, paired, depth, g) == ExtentUntilBreak(src, pos, n, paired, depth, f)
    decreases |src| - pos, 3
  {
    hide ExtentItems;
    if src[pos] != BREAK_CODE {
      var count := if paired then 2 else 1;
      ItemsMonotone(src, pos, count, depth, f, g);
      UntilBreakMonotone(src, ExtentItems(src, pos, count, depth, f).value, n + 1, paired, depth, f, g);
    }
  }

  /** Appendix C within the limits of the options. */
  function AppendixC(o: DecodeOpts): Rules {
    Limits(o).(ai31 := false)
  }

  /**
   Every item that is well-formed by Appendix C and within the limits is accepted, and the
   decoder takes exactly the extent that Appendix C gives it.
   */
  lemma AppendixCIsAccepted(src: seq<Byte>, o: DecodeOpts)
    requires RejectsNothing(o) && Extent(src, 0, 0, AppendixC(o)).Some?
    ensures Decode(src, o).Ok? && Some(Decode(src, o).next) == Extent(src, 0, 0, APPENDIX_C)
  {
    hide DecodeValue, Extent;
    ExtentMonotone(src, 0, 0, AppendixC(o), Limits(o));
    ExtentMonotone(src, 0, 0, AppendixC(o), APPENDIX_C);
    WellFormedIsAccepted(src, o);
  }
}
