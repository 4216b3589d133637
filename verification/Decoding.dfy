/**
 The decoder (rfc8949/decode.go) as functions over a source and an offset: the value and
 the next offset, or the kind and the offset of the error, for every input and all options.

 Two positions have a shortcut that is visible in the result: a short definite string that
 is an array element, or the key of a definite map, is taken without the length limit.
 `DecodeElement` and `DecodeKey` say so; everything else goes through `DecodeValue`.
 */
module Decoding {
  import opened Bytes
  import opened Wire
  import opened Floats
  import opened Values

  type Int = x: int | -0x8000_0000_0000_0000 <= x < 0x8000_0000_0000_0000

  datatype DecodeOpts = DecodeOpts(
    rejectIndefinite: bool,
    rejectNonShortest: bool,
    rejectInvalidUTF8: bool,
    rejectDuplicateKeys: bool,
    rejectUnknownTags: bool,
    rejectNonFinite: bool,
    rejectNullKeys: bool,
    maxNestingDepth: Int,
    maxArrayLength: Int,
    maxByteStringLength: Int)
  {
    function MaxNesting(): (n: nat) { if maxNestingDepth > 0 then maxNestingDepth else 256 }
    function MaxArray(): (n: nat)
      ensures n < 0x8000_0000_0000_0000
    { if maxArrayLength > 0 then maxArrayLength else 0x10_0000 }
    function MaxBytes(): (n: nat)
      ensures n < 0x8000_0000_0000_0000
    { if maxByteStringLength > 0 then maxByteStringLength else 0x100_0000 }
  }

  /** The zero DecodeOpts. */
  const DEFAULT := DecodeOpts(false, false, false, false, false, false, false, 0, 0, 0)

  datatype DecodeError =
    | Truncated | ReservedAI | NonShortest | IndefiniteLength | InvalidUTF8 | DuplicateMapKey | UnknownTag
    | NonFiniteFloat | NullMapKey | MaxNestingDepth | MaxArrayLength | MaxByteStringLength

  datatype Decoded<+T> = Ok(value: T, next: nat) | Err(error: DecodeError, at: nat)

  const SELF_DESCRIBE: U64 := 55799

  // ---------------------------------------------------------------- map assembly

  const DEDUP_THRESHOLD := 16

  const FNV_OFFSET: U64 := 14695981039346656037
  const FNV_PRIME: nat := 1099511628211

  /** fnv1a over 64 bits. */
  function Fnv1a(b: seq<Byte>): U64 {
    if b == [] then FNV_OFFSET
    else XorBits(Fnv1a(b[..|b| - 1]), b[|b| - 1], 64) * FNV_PRIME % 0x1_0000_0000_0000_0000
  }

  /** A map under construction: the entries, and the hash of the key bytes each was added under. */
  datatype Pairs = Pairs(entries: seq<MapEntry>, hashes: seq<U64>) {
    predicate Valid() { |entries| == |hashes| }
  }

  const NO_PAIRS := Pairs([], [])

  /** Entry i is taken for the entry with this key; the hash matters only to the index. */
  predicate KeyHit(st: Pairs, i: nat, key: Value, h: U64, dedup: bool)
    requires st.Valid() && i < |st.entries|
  {
    (dedup ==> st.hashes[i] == h) && ValuesEqual(st.entries[i].key, key)
  }

  /** The first entry from i on that is hit. */
  function FindKey(st: Pairs, i: nat, key: Value, h: U64, dedup: bool): (r: Option<nat>)
    requires st.Valid() && i <= |st.entries|
    ensures r.Some? ==> i <= r.value < |st.entries| && KeyHit(st, r.value, key, h, dedup)
    ensures forall j | i <= j < (if r.Some? then r.value else |st.entries|) :: !KeyHit(st, j, key, h, dedup)
    decreases |st.entries| - i
  {
    if i == |st.entries| then None
    else if KeyHit(st, i, key, h, dedup) then Some(i)
    else FindKey(st, i + 1, key, h, dedup)
  }

  /** mapInsert: None is the duplicate key error. */
  function MapInsert(st: Pairs, key: Value, val: Value, h: U64, dedup: bool, reject: bool): (r: Option<Pairs>)
    requires st.Valid()
    ensures r.Some? ==> r.value.Valid()
  {
    match FindKey(st, 0, key, h, dedup)
    case Some(i) =>
      if reject then None else Some(Pairs(st.entries[i := MapEntry(st.entries[i].key, val)], st.hashes))
    case None => Some(Pairs(st.entries + [MapEntry(key, val)], st.hashes + [h]))
  }

  // ---------------------------------------------------------------- strings

  predicate Reserved(h: Head) { 28 <= h.ai <= 30 }

  predicate Overlong(h: Head, o: DecodeOpts) { o.rejectNonShortest && 24 <= h.ai <= 27 && !h.IsShortest() }

  /** A definite-length string whose head stands at off. */
  function DecodeDefinite(src: seq<Byte>, off: nat, h: Head, o: DecodeOpts): (r: Decoded<seq<Byte>>)
    requires off <= |src| && h.n > 0
    ensures r.Ok? ==> off < r.next <= |src| && r.next == off + h.n + h.arg
  {
    if h.arg > o.MaxBytes() then Err(MaxByteStringLength, off)
    else
      var start := off + h.n;
      var end := start + h.arg;
      if end > |src| then Err(Truncated, off) else Ok(src[start..end], end)
  }

  /** The chunks of an indefinite-length string, up to its break. */
  function DecodeChunks(src: seq<Byte>, pos: nat, major: Major, buf: seq<Byte>, o: DecodeOpts): (r: Decoded<seq<Byte>>)
    requires pos <= |src|
    ensures r.Ok? ==> pos < r.next <= |src|
    decreases |src| - pos
  {
    if pos >= |src| then Err(Truncated, pos)
    else if src[pos] == BREAK_CODE then Ok(buf, pos + 1)
    else
      var h := ParseHead(src[pos..]);
      if h.n == 0 then Err(Truncated, pos)
      else if h.major != major || h.ai == AI_INDEFINITE then Err(Truncated, pos)
      else if Reserved(h) then Err(ReservedAI, pos)
      else if Overlong(h, o) then Err(NonShortest, pos)
      else if h.arg > o.MaxBytes() then Err(MaxByteStringLength, pos)
      else if |buf| + h.arg > o.MaxBytes() then Err(MaxByteStringLength, pos)
      else
        var start := pos + h.n;
        var end := start + h.arg;
        if end > |src| then Err(Truncated, pos)
        else DecodeChunks(src, end, major, buf + src[start..end], o)
  }

  function DecodeBytes(src: seq<Byte>, off: nat, h: Head, o: DecodeOpts): (r: Decoded<Value>)
    requires off + h.n <= |src| && h.n > 0
    ensures r.Ok? ==> off < r.next <= |src|
  {
    if h.ai == AI_INDEFINITE then
      if o.rejectIndefinite then Err(IndefiniteLength, off)
      else
        match DecodeChunks(src, off + h.n, MAJOR_BYTES, [], o)
        case Ok(b, next) => Ok(ByteString(b), next)
        case Err(e, at) => Err(e, at)
    else
      match DecodeDefinite(src, off, h, o)
      case Ok(b, next) => Ok(ByteString(b), next)
      case Err(e, at) => Err(e, at)
  }

  function DecodeText(src: seq<Byte>, off: nat, h: Head, o: DecodeOpts): (r: Decoded<Value>)
    requires off + h.n <= |src| && h.n > 0
    ensures r.Ok? ==> off < r.next <= |src|
  {
    if h.ai == AI_INDEFINITE then
      if o.rejectIndefinite then Err(IndefiniteLength, off)
      else
        match DecodeChunks(src, off + h.n, MAJOR_TEXT, [], o)
        case Ok(s, next) =>
          if o.rejectInvalidUTF8 && !ValidUTF8(s) then Err(InvalidUTF8, next - 1) else Ok(TextString(s), next)
        case Err(e, at) => Err(e, at)
    else
      match DecodeDefinite(src, off, h, o)
      case Ok(s, next) =>
        if o.rejectInvalidUTF8 && !ValidUTF8(s) then Err(InvalidUTF8, off) else Ok(TextString(s), next)
      case Err(e, at) => Err(e, at)
  }

  // ---------------------------------------------------------------- simple values and floats

  function DecodeOther(off: nat, h: Head, o: DecodeOpts): (r: Decoded<Value>)
    requires h.n > 0
    ensures r.Ok? ==> r.next == off + h.n
  {
    if h.ai < 20 then Ok(Simple(h.ai), off + h.n)
    else if h.ai == 20 then Ok(Bool(false), off + h.n)
    else if h.ai == 21 then Ok(Bool(true), off + h.n)
    else if h.ai == 22 then Ok(Null, off + h.n)
    else if h.ai == 23 then Ok(Undefined, off + h.n)
    else if h.ai == AI_1BYTE then
      if h.arg % 0x100 < 32 then Err(NonShortest, off) else Ok(Simple(h.arg % 0x100), off + h.n)
    else if h.ai == AI_2BYTES then
      var half: U16 := h.arg % 0x1_0000;
      if o.rejectNonFinite && !IsFinite64(HalfToDouble(half)) then Err(NonFiniteFloat, off)
      else Ok(Float64(HalfToDouble(half)), off + h.n)
    else if h.ai == AI_4BYTES then
      var single: U32 := h.arg % 0x1_0000_0000;
      if o.rejectNonFinite && !IsFinite32(single) then Err(NonFiniteFloat, off)
      else Ok(Float32(single), off + h.n)
    else if h.ai == AI_8BYTES then
      if o.rejectNonFinite && !IsFinite64(h.arg) then Err(NonFiniteFloat, off)
      else Ok(Float64(h.arg), off + h.n)
    else if h.ai == AI_INDEFINITE then Err(Truncated, off)
    else Err(ReservedAI, off)
  }

  // ---------------------------------------------------------------- data items

  function Decode(src: seq<Byte>, o: DecodeOpts): (r: Decoded<Value>)
    ensures r.Ok? ==> 0 < r.next <= |src|
  {
    DecodeValue(src, 0, 0, o, true)
  }

  function DecodeValue(src: seq<Byte>, off: nat, depth: nat, o: DecodeOpts, strip: bool): (r: Decoded<Value>)
    requires off <= |src|
    ensures r.Ok? ==> off < r.next <= |src|
    decreases |src| - off, 0
  {
    if off >= |src| then Err(Truncated, off)
    else
      var h := ParseHead(src[off..]);
      if h.n == 0 then Err(Truncated, off)
      else if Reserved(h) then Err(ReservedAI, off)
      else if Overlong(h, o) then Err(NonShortest, off)
      else if h.major == MAJOR_UINT then Ok(Uint(h.arg), off + h.n)
      else if h.major == MAJOR_NEGINT then Ok(NegInt(h.arg), off + h.n)
      else if h.major == MAJOR_BYTES then DecodeBytes(src, off, h, o)
      else if h.major == MAJOR_TEXT then DecodeText(src, off, h, o)
      else if h.major == MAJOR_ARRAY then DecodeArray(src, off, h, depth, o)
      else if h.major == MAJOR_MAP then DecodeMap(src, off, h, depth, o)
      else if h.major == MAJOR_TAG then DecodeTag(src, off, h, depth, o, strip)
      else DecodeOther(off, h, o)
  }

  function DecodeTag(src: seq<Byte>, off: nat, h: Head, depth: nat, o: DecodeOpts, strip: bool): (r: Decoded<Value>)
    requires off + h.n <= |src| && h.n > 0
    ensures r.Ok? ==> off < r.next <= |src|
    decreases |src| - off - h.n, 1
  {
    var pos := off + h.n;
    if o.rejectUnknownTags && h.arg != SELF_DESCRIBE then Err(UnknownTag, off)
    else if h.arg == SELF_DESCRIBE && strip then DecodeValue(src, pos, depth, o, true)
    else if depth + 1 > o.MaxNesting() then Err(MaxNestingDepth, off)
    else
      match DecodeValue(src, pos, depth + 1, o, false)
      case Ok(inner, next) => Ok(Tag(h.arg, inner), next)
      case Err(e, at) => Err(e, at)
  }

  // ---------------------------------------------------------------- arrays

  /** A definite string of fewer than 24 bytes with this major type stands whole at pos. */
  predicate ShortStringAt(src: seq<Byte>, pos: nat, major: Major) {
    && pos < |src| && src[pos] / 32 == major && src[pos] % 32 < 24
    && pos + 1 + src[pos] % 32 <= |src|
  }

  function DecodeElement(src: seq<Byte>, pos: nat, depth: nat, o: DecodeOpts): (r: Decoded<Value>)
    requires pos <= |src|
    ensures r.Ok? ==> pos < r.next <= |src|
    decreases |src| - pos, 1
  {
    if ShortStringAt(src, pos, MAJOR_TEXT) then
      var end := pos + 1 + src[pos] % 32;
      if o.rejectInvalidUTF8 && !ValidUTF8(src[pos + 1..end]) then Err(InvalidUTF8, pos)
      else Ok(TextString(src[pos + 1..end]), end)
    else if ShortStringAt(src, pos, MAJOR_BYTES) then
      var end := pos + 1 + src[pos] % 32;
      Ok(ByteString(src[pos + 1..end]), end)
    else DecodeValue(src, pos, depth, o, false)
  }

  function DecodeArray(src: seq<Byte>, off: nat, h: Head, depth: nat, o: DecodeOpts): (r: Decoded<Value>)
    requires off + h.n <= |src| && h.n > 0
    ensures r.Ok? ==> off < r.next <= |src|
    decreases |src| - off - h.n, 3
  {
    var pos := off + h.n;
    if h.ai == AI_INDEFINITE then
      if o.rejectIndefinite then Err(IndefiniteLength, off)
      else if depth + 1 > o.MaxNesting() then Err(MaxNestingDepth, pos)
      else
        match DecodeUntilBreak(src, pos, [], depth + 1, o)
        case Ok(items, next) => Ok(Array(items), next)
        case Err(e, at) => Err(e, at)
    else if h.arg > o.MaxArray() then Err(MaxArrayLength, off)
    else if depth + 1 > o.MaxNesting() then Err(MaxNestingDepth, pos)
    else
      match DecodeItems(src, pos, h.arg, [], depth + 1, o)
      case Ok(items, next) => Ok(Array(items), next)
      case Err(e, at) => Err(e, at)
  }

  /** count further elements of a definite array. */
  function DecodeItems(src: seq<Byte>, pos: nat, count: nat, arr: seq<Value>, depth: nat, o: DecodeOpts)
    : (r: Decoded<seq<Value>>)
    requires pos <= |src|
    ensures r.Ok? ==> pos <= r.next <= |src|
    decreases |src| - pos, 2
  {
    if count == 0 then Ok(arr, pos)
    else
      match DecodeElement(src, pos, depth, o)
      case Err(e, at) => Err(e, at)
      case Ok(v, next) => DecodeItems(src, next, count - 1, arr + [v], depth, o)
  }

  /** The elements of an indefinite array, up to its break. */
  function DecodeUntilBreak(src: seq<Byte>, pos: nat, arr: seq<Value>, depth: nat, o: DecodeOpts)
    : (r: Decoded<seq<Value>>)
    requires pos <= |src|
    ensures r.Ok? ==> pos < r.next <= |src|
    decreases |src| - pos, 2
  {
    if pos >= |src| then Err(Truncated, pos)
    else if src[pos] == BREAK_CODE then Ok(arr, pos + 1)
    else if |arr| >= o.MaxArray() then Err(MaxArrayLength, pos)
    else
      match DecodeValue(src, pos, depth, o, false)
      case Err(e, at) => Err(e, at)
      case Ok(v, next) => DecodeUntilBreak(src, next, arr + [v], depth, o)
  }

  // ---------------------------------------------------------------- maps

  function DecodeKey(src: seq<Byte>, pos: nat, depth: nat, o: DecodeOpts): (r: Decoded<Value>)
    requires pos <= |src|
    ensures r.Ok? ==> pos < r.next <= |src|
    decreases |src| - pos, 1
  {
    if ShortStringAt(src, pos, MAJOR_TEXT) then
      var end := pos + 1 + src[pos] % 32;
      if o.rejectInvalidUTF8 && !ValidUTF8(src[pos + 1..end]) then Err(InvalidUTF8, pos)
      else Ok(TextString(src[pos + 1..end]), end)
    else DecodeValue(src, pos, depth, o, false)
  }

  function DecodeMap(src: seq<Byte>, off: nat, h: Head, depth: nat, o: DecodeOpts): (r: Decoded<Value>)
    requires off + h.n <= |src| && h.n > 0
    ensures r.Ok? ==> off < r.next <= |src|
    decreases |src| - off - h.n, 4
  {
    var pos := off + h.n;
    if h.ai == AI_INDEFINITE then
      if o.rejectIndefinite then Err(IndefiniteLength, off)
      else if depth + 1 > o.MaxNesting() then Err(MaxNestingDepth, pos)
      else
        match DecodePairsUntilBreak(src, pos, NO_PAIRS, depth + 1, o)
        case Ok(m, next) => Ok(Map(m.entries), next)
        case Err(e, at) => Err(e, at)
    else if h.arg > o.MaxArray() then Err(MaxArrayLength, off)
    else if depth + 1 > o.MaxNesting() then Err(MaxNestingDepth, off)
    else
      match DecodePairs(src, pos, h.arg, NO_PAIRS, h.arg > DEDUP_THRESHOLD, depth + 1, o)
      case Ok(m, next) => Ok(Map(m.entries), next)
      case Err(e, at) => Err(e, at)
  }

  /** The value after a key that stands at keyOff, and the insertion of the pair. */
  function DecodePair(src: seq<Byte>, keyOff: nat, key: Decoded<Value>, m: Pairs, dedup: bool, depth: nat,
                      o: DecodeOpts)
    : (r: Decoded<Pairs>)
    requires keyOff <= |src| && m.Valid() && (key.Ok? ==> keyOff < key.next <= |src|)
    ensures r.Ok? ==> keyOff < r.next <= |src| && r.value.Valid()
    decreases |src| - keyOff, 2
  {
    match key
    case Err(e, at) => Err(e, at)
    case Ok(k, pos) =>
      if o.rejectNullKeys && k.Null? then Err(NullMapKey, keyOff)
      else
        match DecodeValue(src, pos, depth, o, false)
        case Err(e, at) => Err(e, at)
        case Ok(v, next) =>
          match MapInsert(m, k, v, Fnv1a(src[keyOff..pos]), dedup, o.rejectDuplicateKeys)
          case None => Err(DuplicateMapKey, keyOff)
          case Some(m') => Ok(m', next)
  }

  /** count further pairs of a definite map. */
  function DecodePairs(src: seq<Byte>, pos: nat, count: nat, m: Pairs, dedup: bool, depth: nat, o: DecodeOpts)
    : (r: Decoded<Pairs>)
    requires pos <= |src| && m.Valid()
    ensures r.Ok? ==> pos <= r.next <= |src| && r.value.Valid()
    decreases |src| - pos, 3
  {
    if count == 0 then Ok(m, pos)
    else
      match DecodePair(src, pos, DecodeKey(src, pos, depth, o), m, dedup, depth, o)
      case Err(e, at) => Err(e, at)
      case Ok(m', next) => DecodePairs(src, next, count - 1, m', dedup, depth, o)
  }

  /** The pairs of an indefinite map, up to its break; it never uses the index. */
  function DecodePairsUntilBreak(src: seq<Byte>, pos: nat, m: Pairs, depth: nat, o: DecodeOpts)
    : (r: Decoded<Pairs>)
    requires pos <= |src| && m.Valid()
    ensures r.Ok? ==> pos < r.next <= |src| && r.value.Valid()
    decreases |src| - pos, 3
  {
    if pos >= |src| then Err(Truncated, pos)
    else if src[pos] == BREAK_CODE then Ok(m, pos + 1)
    else if |m.entries| >= o.MaxArray() then Err(MaxArrayLength, pos)
    else
      match DecodePair(src, pos, DecodeValue(src, pos, depth, o, false), m, false, depth, o)
      case Err(e, at) => Err(e, at)
      case Ok(m', next) => DecodePairsUntilBreak(src, next, m', depth, o)
  }
}
