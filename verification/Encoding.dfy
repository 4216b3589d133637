/**
 The encoder (rfc8949/encode.go) as functions: what `encode` appends to its destination,
 and which error it returns, for every value and every set of options.
 */
module Encoding {
  import opened Bytes
  import opened Wire
  import opened Floats
  import opened Values
  import opened KeyOrder

  datatype FloatMode = Shortest | Preserve | Force64

  datatype EncodeOpts = EncodeOpts(
    deterministic: bool,
    sortMode: SortMode,
    floatMode: FloatMode,
    allowNonFinite: bool,
    allowInvalidUTF8: bool,
    skipUTF8Validation: bool)

  datatype EncodeError = NilValue | InvalidUTF8 | NonFiniteFloat

  /** The bytes appended, and the error if there is one; a failed call has appended a part. */
  datatype Encoded = Encoded(out: seq<Byte>, err: Option<EncodeError>) {
    predicate Ok() { err.None? }
  }

  function Done(out: seq<Byte>): Encoded { Encoded(out, None) }
  function Fail(err: EncodeError): Encoded { Encoded([], Some(err)) }

  /** One append after another; the second does not happen if the first fails. */
  function Then(a: Encoded, b: Encoded): (r: Encoded)
    ensures r.Ok() <==> a.Ok() && b.Ok()
    ensures a.out <= r.out
    ensures r.Ok() ==> r.out == a.out + b.out
  {
    if a.Ok() then Encoded(a.out + b.out, b.err) else a
  }

  /** uint64(len(s)). */
  function Len64(n: nat): U64 { n % 0x1_0000_0000_0000_0000 }

  function StringBytes(major: Major, s: seq<Byte>): seq<Byte> {
    HeadBytes(major, Len64(|s|)) + s
  }

  // ---------------------------------------------------------------- floats

  /** AppendFloat16, AppendFloat32 and AppendFloat64. */
  function FloatBytes(w: FloatWire): (s: seq<Byte>) {
    match w
    case W16(h) => [FLOAT16_MARKER] + BE(h, 2)
    case W32(c) => [FLOAT32_MARKER] + BE(c, 4)
    case W64(b) => [FLOAT64_MARKER] + BE(b, 8)
  }

  predicate IsFloat(v: Value) { v.Float32? || v.Float64? }

  predicate IsFiniteFloat(v: Value)
    requires IsFloat(v)
  {
    if v.Float32? then IsFinite32(v.single) else IsFinite64(v.double)
  }

  /** The wire float that encodeFloat32 and encodeFloat64 choose. */
  function FloatWireOf(v: Value, o: EncodeOpts): FloatWire
    requires IsFloat(v)
  {
    var wide := if v.Float32? then SingleToDouble(v.single) else v.double;
    if o.floatMode.Force64? then W64(wide)
    else if o.floatMode.Shortest? && o.deterministic then ShortestWire(wide)
    else if v.Float32? then W32(v.single) else W64(v.double)
  }

  // ---------------------------------------------------------------- items

  predicate ChecksUTF8(o: EncodeOpts) { !o.allowInvalidUTF8 && !o.skipUTF8Validation }

  /** Maps of two or more entries are sorted in deterministic mode. */
  predicate Sorts(o: EncodeOpts, n: nat) { o.deterministic && n > 1 }

  function Enc(v: Value, o: EncodeOpts): (r: Encoded)
    decreases v, 1
  {
    match v
    case Invalid => Fail(NilValue)
    case Uint(n) => Done(HeadBytes(MAJOR_UINT, n))
    case NegInt(n) => Done(HeadBytes(MAJOR_NEGINT, n))
    case ByteString(b) => Done(StringBytes(MAJOR_BYTES, b))
    case TextString(s) =>
      if ChecksUTF8(o) && !ValidUTF8(s) then Fail(InvalidUTF8) else Done(StringBytes(MAJOR_TEXT, s))
    case Array(items) => Then(Done(HeadBytes(MAJOR_ARRAY, Len64(|items|))), EncItems(items, o))
    case Map(pairs) =>
      Then(Done(HeadBytes(MAJOR_MAP, Len64(|pairs|))), MapBody(pairs, o))
    case Tag(id, inner) =>
      if inner.Invalid? then Fail(NilValue) else Then(Done(HeadBytes(MAJOR_TAG, id)), Enc(inner, o))
    case Bool(on) => Done([if on then SIMPLE_TRUE else SIMPLE_FALSE])
    case Null => Done([SIMPLE_NULL])
    case Undefined => Done([SIMPLE_UNDEFINED])
    case Simple(code) => Done(if code < 24 then [0xe0 + code] else [SIMPLE_ONE_BYTE, code])
    case Float32(_) =>
      if !o.allowNonFinite && !IsFiniteFloat(v) then Fail(NonFiniteFloat) else Done(FloatBytes(FloatWireOf(v, o)))
    case Float64(_) =>
      if !o.allowNonFinite && !IsFiniteFloat(v) then Fail(NonFiniteFloat) else Done(FloatBytes(FloatWireOf(v, o)))
  }

  /** An array element, or a key or value of an unsorted map: text skips the UTF-8 check. */
  function EncInline(v: Value, o: EncodeOpts): (r: Encoded)
    decreases v, 2
  {
    if v.TextString? then Done(StringBytes(MAJOR_TEXT, v.s)) else Enc(v, o)
  }

  function EncItems(items: seq<Value>, o: EncodeOpts): (r: Encoded)
    decreases items, 0
  {
    if items == [] then Done([]) else Then(EncInline(items[0], o), EncItems(items[1..], o))
  }

  function EncPairs(pairs: seq<MapEntry>, o: EncodeOpts): (r: Encoded)
    decreases pairs, 0
  {
    if pairs == [] then Done([])
    else Then(EncEntry(pairs[0], o), EncPairs(pairs[1..], o))
  }

  function EncEntry(e: MapEntry, o: EncodeOpts): (r: Encoded)
    decreases e, 3
  {
    Then(EncInline(e.key, o), EncInline(e.value, o))
  }

  function EncKey(e: MapEntry, o: EncodeOpts): (r: Encoded)
    decreases e, 3
  {
    Enc(e.key, o)
  }

  function EncValue(e: MapEntry, o: EncodeOpts): (r: Encoded)
    decreases e, 3
  {
    Enc(e.value, o)
  }

  datatype EncodedKeys = EncodedKeys(keys: seq<seq<Byte>>, err: Option<EncodeError>)

  /** The encoded keys in entry order, up to the first that fails. */
  function EncKeys(pairs: seq<MapEntry>, o: EncodeOpts): (r: EncodedKeys)
    ensures r.err.None? ==> |r.keys| == |pairs|
    decreases pairs, 0
  {
    if pairs == [] then EncodedKeys([], None)
    else
      var k := EncKey(pairs[0], o);
      if !k.Ok() then EncodedKeys([], k.err)
      else
        var rest := EncKeys(pairs[1..], o);
        EncodedKeys([k.out] + rest.keys, rest.err)
  }

  /** The entries in the given order: each key as encoded before, then its value. */
  function EncOrdered(pairs: seq<MapEntry>, keys: seq<seq<Byte>>, order: seq<nat>, o: EncodeOpts): (r: Encoded)
    requires |keys| == |pairs| && Below(order, |pairs|)
    decreases pairs, 0, |order|
  {
    if order == [] then Done([])
    else
      Then(Done(keys[order[0]]), Then(EncValue(pairs[order[0]], o), EncOrdered(pairs, keys, order[1..], o)))
  }

  /** A map after its head: the entries as they stand, or in key order. */
  function MapBody(pairs: seq<MapEntry>, o: EncodeOpts): (r: Encoded)
    decreases pairs, 1
  {
    if !Sorts(o, |pairs|) then EncPairs(pairs, o)
    else if EncKeys(pairs, o).err.Some? then Encoded([], EncKeys(pairs, o).err)
    else EncOrdered(pairs, EncKeys(pairs, o).keys, SortedOrder(o.sortMode, EncKeys(pairs, o).keys), o)
  }

  // ---------------------------------------------------------------- modes

  /** ModePermissive. */
  const PERMISSIVE := EncodeOpts(false, BytewiseLex, Preserve, false, false, false)
  /** ModeCoreDeterministic (section 4.2.1 of RFC 8949). */
  const CORE_DETERMINISTIC := EncodeOpts(true, BytewiseLex, Shortest, false, false, false)
  /** ModeCanonical (section 4.2.3 of RFC 8949). */
  const CANONICAL := EncodeOpts(true, LengthFirst, Shortest, false, false, false)
  /** ModeCTAP2. */
  const CTAP2 := EncodeOpts(true, LengthFirst, Force64, false, false, false)

  // ---------------------------------------------------------------- normal form

  /** The value a wire float decodes to. */
  function WireValue(w: FloatWire): Value {
    match w
    case W16(h) => Float64(HalfToDouble(h))
    case W32(c) => Float32(c)
    case W64(b) => Float64(b)
  }

  /**
   What is left of a value once it is encoded with options o: entries in the order they are
   written, floats at the width they are written with.
   */
  function Norm(v: Value, o: EncodeOpts): (r: Value)
    decreases v, 1
  {
    match v
    case Array(items) => Array(NormItems(items, o))
    case Map(pairs) =>
      Map(NormOrdered(pairs, if Sorts(o, |pairs|) && EncKeys(pairs, o).err.None?
                             then SortedOrder(o.sortMode, EncKeys(pairs, o).keys) else Iota(|pairs|), o))
    case Tag(id, inner) => Tag(id, Norm(inner, o))
    case Float32(_) => WireValue(FloatWireOf(v, o))
    case Float64(_) => WireValue(FloatWireOf(v, o))
    case _ => v
  }

  function NormItems(items: seq<Value>, o: EncodeOpts): (r: seq<Value>)
    ensures |r| == |items|
    decreases items, 0
  {
    if items == [] then [] else [Norm(items[0], o)] + NormItems(items[1..], o)
  }

  function NormOrdered(pairs: seq<MapEntry>, order: seq<nat>, o: EncodeOpts): (r: seq<MapEntry>)
    requires Below(order, |pairs|)
    ensures |r| == |order|
    decreases pairs, 0, |order|
  {
    if order == [] then []
    else [NormEntry(pairs[order[0]], o)] + NormOrdered(pairs, order[1..], o)
  }

  function NormEntry(e: MapEntry, o: EncodeOpts): (r: MapEntry)
    decreases e, 3
  {
    MapEntry(Norm(e.key, o), Norm(e.value, o))
  }
}
