/**
 The CBOR data model (cbor/value.go) and the key equality of the decoder.
 */
module Values {
  import opened Bytes
  import opened Floats

  /**
   A CBOR data item. Strings are byte sequences. `Tag(id, Invalid)` also stands for a tag
   value whose inner slot is empty. `Invalid` is the zero Value.
   */
  datatype Value =
    | Invalid
    | Uint(n: U64)
    | NegInt(n: U64)
    | ByteString(b: seq<Byte>)
    | TextString(s: seq<Byte>)
    | Array(items: seq<Value>)
    | Map(pairs: seq<MapEntry>)
    | Tag(id: U64, inner: Value)
    | Bool(on: bool)
    | Null
    | Undefined
    | Float32(single: U32)
    | Float64(double: U64)
    | Simple(code: Byte)

  datatype MapEntry = MapEntry(key: Value, value: Value)

  // ---------------------------------------------------------------- UTF-8

  predicate Continuation(b: Byte) { 0x80 <= b <= 0xbf }

  /** The length of the well-formed UTF-8 sequence s starts with, 0 if there is none. */
  function RuneLength(s: seq<Byte>): (n: nat)
    requires s != []
    ensures n <= |s|
  {
    if s[0] < 0x80 then 1
    else if 0xc2 <= s[0] <= 0xdf then
      if |s| >= 2 && Continuation(s[1]) then 2 else 0
    else if 0xe0 <= s[0] <= 0xef then
      if |s| >= 3 && Continuation(s[1]) && Continuation(s[2])
         && (s[0] == 0xe0 ==> s[1] >= 0xa0) && (s[0] == 0xed ==> s[1] <= 0x9f) then 3 else 0
    else if 0xf0 <= s[0] <= 0xf4 then
      if |s| >= 4 && Continuation(s[1]) && Continuation(s[2]) && Continuation(s[3])
         && (s[0] == 0xf0 ==> s[1] >= 0x90) && (s[0] == 0xf4 ==> s[1] <= 0x8f) then 4 else 0
    else 0
  }

  /** utf8.Valid: section 4 of RFC 3629. */
  predicate ValidUTF8(s: seq<Byte>) {
    s == [] || (RuneLength(s) > 0 && ValidUTF8(s[RuneLength(s)..]))
  }

  // ---------------------------------------------------------------- key equality

  predicate FloatEqual32(x: U32, y: U32) {
    !IsNaN32(x) && !IsNaN32(y) && (x == y || (IsZero32(x) && IsZero32(y)))
  }

  predicate FloatEqual64(x: U64, y: U64) {
    !IsNaN64(x) && !IsNaN64(y) && (x == y || (IsZero64(x) && IsZero64(y)))
  }

  /** valuesEqual: containers and tags never compare equal, floats compare as numbers. */
  predicate ValuesEqual(a: Value, b: Value) {
    match (a, b)
    case (Uint(m), Uint(n)) => m == n
    case (NegInt(m), NegInt(n)) => m == n
    case (ByteString(s), ByteString(t)) => s == t
    case (TextString(s), TextString(t)) => s == t
    case (Bool(x), Bool(y)) => x == y
    case (Null, Null) => true
    case (Undefined, Undefined) => true
    case (Simple(x), Simple(y)) => x == y
    case (Float32(x), Float32(y)) => FloatEqual32(x, y)
    case (Float64(x), Float64(y)) => FloatEqual64(x, y)
    case _ => false
  }

  lemma ValuesEqualSymmetric(a: Value, b: Value)
    ensures ValuesEqual(a, b) == ValuesEqual(b, a)
  {
  }

  // ---------------------------------------------------------------- what the same key is

  /** A key that is told from others by what it is: an integer, a string or a simple value. */
  predicate IsDiscrete(v: Value) {
    v.Uint? || v.NegInt? || v.ByteString? || v.TextString? || v.Bool? || v.Null? || v.Undefined? || v.Simple?
  }

  /** Neither is NaN, and they are equal as numbers: the two zeros are. */
  predicate SameNumber(m: Number, n: Number) {
    !m.NaN? && !n.NaN? && (m == n || (m.Finite? && n.Finite? && m.sig == 0 && n.sig == 0))
  }

  /** The same key: the same discrete value, or floats of one width that denote the same number. */
  predicate SameKey(a: Value, b: Value) {
    || (IsDiscrete(a) && a == b)
    || (a.Float32? && b.Float32? && SameNumber(Num32(a.single), Num32(b.single)))
    || (a.Float64? && b.Float64? && SameNumber(Num64(a.double), Num64(b.double)))
  }

  lemma ZeroScaled(neg: bool, m: nat, e: int)
    requires m < 2 * P52
    ensures Scaled(neg, m, e).sig == 0 <==> m == 0
  {
    if m > 0 {
      NormRange(m);
    }
  }

  /** Two singles that denote the same number are the same single, NaN apart. */
  lemma Num32Injective(x: U32, y: U32)
    requires Num32(x) == Num32(y) != NaN
    ensures x == y
  {
    var b := SingleToDouble(x);
    NarrowComplete(b, x);
    NarrowComplete(b, y);
  }

  lemma SingleIsNumber(x: U32)
    ensures Num32(x).NaN? <==> IsNaN32(x)
    ensures Num32(x).Finite? && Num32(x).sig == 0 <==> IsZero32(x)
  {
    ZeroScaled(Neg32(x), Man32(x), -149);
    ZeroScaled(Neg32(x), Man32(x) + P23, Exp32(x) - 150);
  }

  lemma DoubleIsNumber(x: U64)
    ensures Num64(x).NaN? <==> IsNaN64(x)
    ensures Num64(x).Finite? && Num64(x).sig == 0 <==> IsZero64(x)
  {
    ZeroScaled(Neg64(x), Man64(x), -1074);
    ZeroScaled(Neg64(x), Man64(x) + P52, Exp64(x) - 1075);
  }

  /** The key equality of the decoder is sameness of keys; containers and tags are never the same key. */
  lemma ValuesEqualIsSameKey(a: Value, b: Value)
    ensures ValuesEqual(a, b) <==> SameKey(a, b)
  {
    hide Num32, Num64, IsNaN32, IsNaN64, IsZero32, IsZero64;
    match (a, b)
    case (Float32(x), Float32(y)) =>
      SingleIsNumber(x);
      SingleIsNumber(y);
      if Num32(x) == Num32(y) && !Num32(x).NaN? {
        Num32Injective(x, y);
      }
    case (Float64(x), Float64(y)) =>
      DoubleIsNumber(x);
      DoubleIsNumber(y);
      if Num64(x) == Num64(y) && !Num64(x).NaN? {
        Num64Injective(x, y);
      }
    case _ =>
  }
}
