/**
 Decoding what was encoded. One theorem covers every encoding mode and every set of decode
 options: the decoder consumes exactly the encoding, whatever follows it, and returns the
 normal form of the value if and only if the value fits the decode options.
 */
module RoundTrip {
  import opened Bytes
  import opened Wire
  import opened Floats
  import opened Values
  import opened KeyOrder
  import opened Encoding
  import D = Decoding
  import opened Decoding

  /** Where an item stands decides which shortcut of the decoder applies to it. */
  datatype Place = Root | Plain | Element | Key

  function DecodeAt(src: seq<Byte>, off: nat, depth: nat, d: DecodeOpts, place: Place): (r: Decoded<Value>)
    requires off <= |src|
    ensures r.Ok? ==> off < r.next <= |src|
  {
    match place
    case Root => DecodeValue(src, off, depth, d, true)
    case Plain => DecodeValue(src, off, depth, d, false)
    case Element => DecodeElement(src, off, depth, d)
    case Key => DecodeKey(src, off, depth, d)
  }

  /** The bytes of a value, wherever it stands. */
  function Out(v: Value, e: EncodeOpts): seq<Byte> {
    if v.TextString? then StringBytes(MAJOR_TEXT, v.s) else Enc(v, e).out
  }

  /** The encoder accepts the value, at least where it does not check text. */
  predicate Encodes(v: Value, e: EncodeOpts) {
    v.TextString? || Enc(v, e).Ok()
  }

  // ---------------------------------------------------------------- the condition

  const MAX_LENGTH: nat := 0x7fff_ffff_ffff_ffff

  /** Every string, array and map has a length that an int can hold. */
  predicate Sized(v: Value) {
    match v
    case ByteString(b) => |b| <= MAX_LENGTH
    case TextString(s) => |s| <= MAX_LENGTH
    case Array(items) => |items| <= MAX_LENGTH && forall i | 0 <= i < |items| :: Sized(items[i])
    case Map(pairs) => |pairs| <= MAX_LENGTH && forall i | 0 <= i < |pairs| :: SizedEntry(pairs[i])
    case Tag(_, inner) => Sized(inner)
    case _ => true
  }

  predicate SizedEntry(m: MapEntry) {
    Sized(m.key) && Sized(m.value)
  }

  predicate StringFits(s: seq<Byte>, text: bool, d: DecodeOpts, place: Place) {
    && (|s| <= d.MaxBytes() || (|s| < 24 && (place.Element? || (place.Key? && text))))
    && (text && d.rejectInvalidUTF8 ==> ValidUTF8(s))
  }

  /** The argument of a wire float is the shortest form of that number, taken as an integer. */
  predicate WireIsShortest(w: FloatWire) {
    match w
    case W16(h) => h > 0xff
    case W32(c) => c > 0xffff
    case W64(b) => b > 0xffff_ffff
  }

  predicate FloatFits(v: Value, e: EncodeOpts, d: DecodeOpts)
    requires IsFloat(v)
  {
    && (d.rejectNonFinite ==> IsFiniteFloat(v))
    && (d.rejectNonShortest ==> WireIsShortest(FloatWireOf(v, e)))
  }

  /** What the decoder knows a key by: its value and the hash of its bytes. */
  datatype KeyInfo = KeyInfo(key: Value, hash: U64)

  predicate Clash(a: KeyInfo, b: KeyInfo, dedup: bool) {
    ValuesEqual(a.key, b.key) && (dedup ==> a.hash == b.hash)
  }

  function InfoOf(m: MapEntry, e: EncodeOpts): KeyInfo {
    KeyInfo(Norm(m.key, e), Fnv1a(Out(m.key, e)))
  }

  /** No two keys of the map are taken for the same key. */
  predicate KeysApart(pairs: seq<MapEntry>, e: EncodeOpts) {
    forall i, j | 0 <= i < |pairs| && 0 <= j < |pairs| && i != j ::
      !Clash(InfoOf(pairs[i], e), InfoOf(pairs[j], e), |pairs| > DEDUP_THRESHOLD)
  }

  /** The decode options accept the value as the encoder writes it at this place. */
  predicate Fits(v: Value, e: EncodeOpts, d: DecodeOpts, depth: nat, place: Place)
    decreases v, 0
  {
    match v
    case Invalid => false
    case ByteString(b) => StringFits(b, false, d, place)
    case TextString(s) => StringFits(s, true, d, place)
    case Array(items) =>
      && |items| <= d.MaxArray() && depth + 1 <= d.MaxNesting()
      && forall i | 0 <= i < |items| :: Fits(items[i], e, d, depth + 1, Element)
    case Map(pairs) =>
      && |pairs| <= d.MaxArray() && depth + 1 <= d.MaxNesting()
      && (forall i | 0 <= i < |pairs| :: FitsEntry(pairs[i], e, d, depth + 1))
      && KeysApart(pairs, e)
    case Tag(id, inner) =>
      && !(place.Root? && id == SELF_DESCRIBE)
      && (d.rejectUnknownTags ==> id == SELF_DESCRIBE)
      && depth + 1 <= d.MaxNesting()
      && Fits(inner, e, d, depth + 1, Plain)
    case Simple(code) => code < 20 || code >= 32
    case Float32(_) => FloatFits(v, e, d)
    case Float64(_) => FloatFits(v, e, d)
    case _ => true
  }

  predicate FitsEntry(m: MapEntry, e: EncodeOpts, d: DecodeOpts, depth: nat)
    decreases m, 1
  {
    && Fits(m.key, e, d, depth, Key)
    && (d.rejectNullKeys ==> !m.key.Null?)
    && Fits(m.value, e, d, depth, Plain)
  }

  // ---------------------------------------------------------------- heads

  /** The result of decoding at the place of v, compared with what v promises. */
  predicate Faithful(r: Decoded<Value>, v: Value, e: EncodeOpts, d: DecodeOpts, depth: nat, place: Place, end: nat) {
    && (r.Ok? ==> r.next == end)
    && (r == Decoded.Ok(Norm(v, e), end) <==> Fits(v, e, d, depth, place))
  }

  lemma ShortcutNeedsString(src: seq<Byte>, off: nat, depth: nat, d: DecodeOpts, place: Place)
    requires off < |src| && src[off] / 32 != MAJOR_BYTES && src[off] / 32 != MAJOR_TEXT
    ensures DecodeAt(src, off, depth, d, place) == DecodeValue(src, off, depth, d, place.Root?)
  {
  }

  lemma FaithfulInteger(v: Value, e: EncodeOpts, d: DecodeOpts, src: seq<Byte>, off: nat, depth: nat, place: Place)
    requires v.Uint? || v.NegInt?
    requires At(src, off, Out(v, e))
    ensures Faithful(DecodeAt(src, off, depth, d, place), v, e, d, depth, place, off + |Out(v, e)|)
  {
    hide HeadBytes, At, ParseHead;
    var major := if v.Uint? then MAJOR_UINT else MAJOR_NEGINT;
    assert Out(v, e) == HeadBytes(major, v.n);
    ParseWrittenHead(src, off, major, v.n);
    WrittenMajor(src, off, major, v.n);
    ShortcutNeedsString(src, off, depth, d, place);
  }

  /** A one-byte item is its own head. */
  lemma OneByteHead(src: seq<Byte>, off: nat, b: Byte)
    requires At(src, off, [b]) && b % 32 < 24
    ensures off < |src| && src[off] == b
    ensures ParseHead(src[off..]) == Head(b / 32, b % 32, b % 32, 1)
  {
    assert src[off..off + 1][0] == b;
  }

  lemma TwoByteHead(src: seq<Byte>, off: nat, b: Byte, c: Byte)
    requires At(src, off, [b, c]) && b % 32 == 24
    ensures off < |src| && src[off] == b
    ensures ParseHead(src[off..]) == Head(b / 32, 24, c, 2)
  {
    assert src[off..off + 2][0] == b && src[off..off + 2][1] == c;
    assert src[off..][1..2] == [c];
    assert FromBE([c]) == c;
  }

  /** A head of major type 7 leads straight to its value. */
  lemma DecodeValueOther(src: seq<Byte>, off: nat, depth: nat, d: DecodeOpts, strip: bool)
    requires off < |src|
    requires var h := ParseHead(src[off..]); h.n > 0 && h.major == MAJOR_OTHER && !Reserved(h)
    ensures var h := ParseHead(src[off..]);
            DecodeValue(src, off, depth, d, strip) ==
            if Overlong(h, d) then Err(NonShortest, off) else DecodeOther(off, h, d)
  {
  }

  /** What the decoder makes of the one or two bytes of a simple value. */
  lemma DecodeSimple(v: Value, e: EncodeOpts, d: DecodeOpts, src: seq<Byte>, off: nat, depth: nat, strip: bool)
    requires v.Bool? || v.Null? || v.Undefined? || v.Simple?
    requires At(src, off, Out(v, e))
    ensures off < |src| && src[off] / 32 == MAJOR_OTHER
    ensures DecodeValue(src, off, depth, d, strip) ==
            if v.Simple? && 24 <= v.code < 32 then Err(NonShortest, off)
            else if v.Simple? && v.code == 20 then Decoded.Ok(Bool(false), off + 1)
            else if v.Simple? && v.code == 21 then Decoded.Ok(Bool(true), off + 1)
            else if v.Simple? && v.code == 22 then Decoded.Ok(Null, off + 1)
            else if v.Simple? && v.code == 23 then Decoded.Ok(Undefined, off + 1)
            else Decoded.Ok(v, off + |Out(v, e)|)
  {
    if v.Simple? && v.code >= 24 {
      TwoByteHead(src, off, SIMPLE_ONE_BYTE, v.code);
    } else {
      OneByteHead(src, off, Out(v, e)[0]);
    }
    hide At;
    DecodeValueOther(src, off, depth, d, strip);
  }

  lemma FaithfulSimple(v: Value, e: EncodeOpts, d: DecodeOpts, src: seq<Byte>, off: nat, depth: nat, place: Place)
    requires v.Bool? || v.Null? || v.Undefined? || v.Simple?
    requires At(src, off, Out(v, e))
    ensures Faithful(DecodeAt(src, off, depth, d, place), v, e, d, depth, place, off + |Out(v, e)|)
  {
    assert Norm(v, e) == v;
    assert Fits(v, e, d, depth, place) == (v.Simple? ==> v.code < 20 || v.code >= 32);
    assert |Out(v, e)| == if v.Simple? && v.code >= 24 then 2 else 1;
    DecodeSimple(v, e, d, src, off, depth, place.Root?);
    ShortcutNeedsString(src, off, depth, d, place);
  }

  // ---------------------------------------------------------------- floats

  function WireHead(w: FloatWire): (h: Head)
    ensures h.n == |FloatBytes(w)|
  {
    match w
    case W16(h) => Head(MAJOR_OTHER, AI_2BYTES, h, 3)
    case W32(c) => Head(MAJOR_OTHER, AI_4BYTES, c, 5)
    case W64(b) => Head(MAJOR_OTHER, AI_8BYTES, b, 9)
  }

  predicate WireIsFinite(w: FloatWire) {
    match w
    case W16(h) => IsFinite64(HalfToDouble(h))
    case W32(c) => IsFinite32(c)
    case W64(b) => IsFinite64(b)
  }

  lemma FloatHead(src: seq<Byte>, off: nat, w: FloatWire)
    requires At(src, off, FloatBytes(w))
    ensures off < |src| && src[off] / 32 == MAJOR_OTHER
    ensures ParseHead(src[off..]) == WireHead(w)
  {
    var f := FloatBytes(w);
    var s := src[off..];
    assert s[..|f|] == f;
    assert s[0] == f[0];
    assert s[1..|f|] == f[1..];
    BEParts(match w case W16(h) => h case W32(c) => c case W64(b) => b);
  }

  lemma DecodeWireHead(w: FloatWire, off: nat, d: DecodeOpts)
    ensures Overlong(WireHead(w), d) <==> d.rejectNonShortest && !WireIsShortest(w)
    ensures DecodeOther(off, WireHead(w), d) ==
            if d.rejectNonFinite && !WireIsFinite(w) then Err(DecodeError.NonFiniteFloat, off)
            else Decoded.Ok(WireValue(w), off + |FloatBytes(w)|)
  {
    match w
    case W16(h) => assert h % 0x1_0000 == h;
    case W32(c) => assert c % 0x1_0000_0000 == c;
    case W64(b) =>
  }

  /** A wire float keeps its finiteness through every width. */
  lemma WireFinite(v: Value, e: EncodeOpts)
    requires IsFloat(v)
    ensures WireIsFinite(FloatWireOf(v, e)) == IsFiniteFloat(v)
  {
    var wide := if v.Float32? then SingleToDouble(v.single) else v.double;
    ShortestWireIsExactAndMinimal(wide);
    assert WireNum(FloatWireOf(v, e)) == Num64(wide);
    assert Num64(wide).Finite? == IsFiniteFloat(v);
  }

  lemma FaithfulFloat(v: Value, e: EncodeOpts, d: DecodeOpts, src: seq<Byte>, off: nat, depth: nat, place: Place)
    requires IsFloat(v) && Encodes(v, e)
    requires At(src, off, Out(v, e))
    ensures Faithful(DecodeAt(src, off, depth, d, place), v, e, d, depth, place, off + |Out(v, e)|)
  {
    var w := FloatWireOf(v, e);
    assert Out(v, e) == FloatBytes(w);
    assert Norm(v, e) == WireValue(w);
    assert Fits(v, e, d, depth, place) == FloatFits(v, e, d);
    hide FloatBytes, At, ParseHead, FloatWireOf, Enc, Norm, Fits, Out, IsFinite32, IsFinite64, WireIsShortest,
         WireIsFinite, WireValue, DecodeOther, DecodeValue, DecodeElement, DecodeKey;
    FloatHead(src, off, w);
    DecodeWireHead(w, off, d);
    WireFinite(v, e);
    ShortcutNeedsString(src, off, depth, d, place);
    DecodeValueOther(src, off, depth, d, place.Root?);
  }

  // ---------------------------------------------------------------- strings

  lemma Len64Small(n: nat)
    requires n <= MAX_LENGTH
    ensures Len64(n) == n
  {
  }

  lemma StringHead(src: seq<Byte>, off: nat, major: Major, s: seq<Byte>)
    requires At(src, off, StringBytes(major, s)) && |s| <= MAX_LENGTH
    ensures var h := ParseHead(src[off..]);
            && h == Head(major, ShortestAI(|s|), |s|, |HeadBytes(major, |s|)|) && h.IsShortest()
            && At(src, off + h.n, s)
            && off + |StringBytes(major, s)| == off + h.n + |s|
  {
    Len64Small(|s|);
    hide Len64, HeadBytes, ParseHead, At;
    AtSplit(src, off, HeadBytes(major, |s|), s);
    ParseWrittenHead(src, off, major, |s|);
  }

  /** The general path on a whole definite string. */
  lemma DecodePlainString(src: seq<Byte>, off: nat, depth: nat, d: DecodeOpts, strip: bool, text: bool, s: seq<Byte>)
    requires |s| <= MAX_LENGTH
    requires At(src, off, StringBytes(if text then MAJOR_TEXT else MAJOR_BYTES, s))
    ensures DecodeValue(src, off, depth, d, strip) ==
            if |s| > d.MaxBytes() then Err(MaxByteStringLength, off)
            else if text && d.rejectInvalidUTF8 && !ValidUTF8(s) then Err(DecodeError.InvalidUTF8, off)
            else Decoded.Ok(if text then TextString(s) else ByteString(s),
                            off + |StringBytes(if text then MAJOR_TEXT else MAJOR_BYTES, s)|)
  {
    StringHead(src, off, if text then MAJOR_TEXT else MAJOR_BYTES, s);
    var h := ParseHead(src[off..]);
    assert |s| <= d.MaxBytes() ==> DecodeDefinite(src, off, h, d) == Decoded.Ok(s, off + h.n + |s|);
  }

  /** The first byte of a string tells whether it is short. */
  lemma ShortStringHead(src: seq<Byte>, off: nat, major: Major, s: seq<Byte>)
    requires At(src, off, StringBytes(major, s)) && |s| <= MAX_LENGTH
    ensures off < |src| && src[off] / 32 == major
    ensures |s| < 24 <==> src[off] % 32 < 24
    ensures |s| < 24 ==> src[off] % 32 == |s| && At(src, off + 1, s) && |StringBytes(major, s)| == 1 + |s|
  {
    Len64Small(|s|);
    assert |s| < 24 ==> |HeadBytes(major, |s|)| == 1;
    hide Len64, HeadBytes, At;
    AtSplit(src, off, HeadBytes(major, |s|), s);
    WrittenMajor(src, off, major, |s|);
  }

  /** The shortcut on a short string agrees with the general path but for the length limit. */
  lemma DecodeShortString(src: seq<Byte>, off: nat, depth: nat, d: DecodeOpts, text: bool, s: seq<Byte>)
    requires |s| < 24
    requires At(src, off, StringBytes(if text then MAJOR_TEXT else MAJOR_BYTES, s))
    ensures DecodeElement(src, off, depth, d) ==
            if text && d.rejectInvalidUTF8 && !ValidUTF8(s) then Err(DecodeError.InvalidUTF8, off)
            else Decoded.Ok(if text then TextString(s) else ByteString(s), off + 1 + |s|)
    ensures text ==> DecodeKey(src, off, depth, d) == DecodeElement(src, off, depth, d)
    ensures !text ==> DecodeKey(src, off, depth, d) == DecodeValue(src, off, depth, d, false)
  {
    hide DecodeValue, HeadBytes, StringBytes, ParseHead, ValidUTF8;
    ShortStringHead(src, off, if text then MAJOR_TEXT else MAJOR_BYTES, s);
    assert src[off + 1..off + 1 + |s|] == s;
  }

  lemma DecodeLongString(src: seq<Byte>, off: nat, depth: nat, d: DecodeOpts, text: bool, s: seq<Byte>)
    requires 24 <= |s| <= MAX_LENGTH
    requires At(src, off, StringBytes(if text then MAJOR_TEXT else MAJOR_BYTES, s))
    ensures DecodeElement(src, off, depth, d) == DecodeValue(src, off, depth, d, false)
    ensures DecodeKey(src, off, depth, d) == DecodeValue(src, off, depth, d, false)
  {
    ShortStringHead(src, off, if text then MAJOR_TEXT else MAJOR_BYTES, s);
  }

  lemma FaithfulString(v: Value, e: EncodeOpts, d: DecodeOpts, src: seq<Byte>, off: nat, depth: nat, place: Place)
    requires v.ByteString? || v.TextString?
    requires At(src, off, Out(v, e)) && Sized(v)
    ensures Faithful(DecodeAt(src, off, depth, d, place), v, e, d, depth, place, off + |Out(v, e)|)
  {
    var s := if v.ByteString? then v.b else v.s;
    DecodePlainString(src, off, depth, d, place.Root?, v.TextString?, s);
    if |s| < 24 {
      DecodeShortString(src, off, depth, d, v.TextString?, s);
      ShortStringHead(src, off, if v.TextString? then MAJOR_TEXT else MAJOR_BYTES, s);
    } else {
      DecodeLongString(src, off, depth, d, v.TextString?, s);
    }
    assert Norm(v, e) == v;
    assert Fits(v, e, d, depth, place) == StringFits(s, v.TextString?, d, place);
  }

  // ---------------------------------------------------------------- tags

  /** A decode that strips the self-described tag never returns it. */
  lemma {:induction false} StripNeverReturnsTag(src: seq<Byte>, off: nat, depth: nat, d: DecodeOpts)
    requires off <= |src|
    ensures var r := DecodeValue(src, off, depth, d, true);
            r.Ok? && r.value.Tag? ==> r.value.id != SELF_DESCRIBE
    decreases |src| - off
  {
    if off < |src| {
      var h := ParseHead(src[off..]);
      if h.n > 0 && h.major == MAJOR_TAG && h.arg == SELF_DESCRIBE {
        StripNeverReturnsTag(src, off + h.n, depth, d);
      }
    }
  }

  lemma TagOut(v: Value, e: EncodeOpts)
    requires v.Tag? && Encodes(v, e) && Sized(v)
    ensures Encodes(v.inner, e) && Sized(v.inner)
    ensures Out(v, e) == HeadBytes(MAJOR_TAG, v.id) + Out(v.inner, e)
  {
    hide HeadBytes;
    assert Enc(v.inner, e).Ok();
  }

  /** The general path on a tag, given what the decoder makes of the content. */
  function TagResult(id: U64, inner: Decoded<Value>, d: DecodeOpts, depth: nat, off: nat): Decoded<Value> {
    if d.rejectUnknownTags && id != SELF_DESCRIBE then Err(UnknownTag, off)
    else if depth + 1 > d.MaxNesting() then Err(MaxNestingDepth, off)
    else match inner case Ok(v, next) => Decoded.Ok(Tag(id, v), next) case Err(x, at) => Err(x, at)
  }

  lemma DecodeValueTag(src: seq<Byte>, off: nat, depth: nat, d: DecodeOpts, strip: bool, id: U64)
    requires At(src, off, HeadBytes(MAJOR_TAG, id))
    ensures var pos := off + |HeadBytes(MAJOR_TAG, id)|;
            DecodeValue(src, off, depth, d, strip) ==
            if id == SELF_DESCRIBE && strip then DecodeValue(src, pos, depth, d, true)
            else TagResult(id, DecodeValue(src, pos, depth + 1, d, false), d, depth, off)
  {
    hide HeadBytes, At, ParseHead;
    ParseWrittenHead(src, off, MAJOR_TAG, id);
    var h := ParseHead(src[off..]);
    assert DecodeValue(src, off, depth, d, strip) == DecodeTag(src, off, h, depth, d, strip);
  }

  /** What the tag adds to the promise about its content. */
  lemma FaithfulTagged(id: U64, inner: Value, r: Decoded<Value>, e: EncodeOpts, d: DecodeOpts, depth: nat, place: Place,
                       off: nat, end: nat)
    requires !(place.Root? && id == SELF_DESCRIBE)
    requires Faithful(r, inner, e, d, depth + 1, Plain, end)
    ensures Faithful(TagResult(id, r, d, depth, off), Tag(id, inner), e, d, depth, place, end)
  {
    assert Norm(Tag(id, inner), e) == Tag(id, Norm(inner, e));
    assert Fits(Tag(id, inner), e, d, depth, place) <==>
           && (d.rejectUnknownTags ==> id == SELF_DESCRIBE) && depth + 1 <= d.MaxNesting()
           && Fits(inner, e, d, depth + 1, Plain);
  }

  /** A stripped tag never comes back as itself. */
  lemma FaithfulStripped(inner: Value, r: Decoded<Value>, e: EncodeOpts, d: DecodeOpts, depth: nat, end: nat)
    requires r.Ok? ==> r.next == end && !(r.value.Tag? && r.value.id == SELF_DESCRIBE)
    ensures Faithful(r, Tag(SELF_DESCRIBE, inner), e, d, depth, Root, end)
  {
    assert Norm(Tag(SELF_DESCRIBE, inner), e).Tag?;
    assert !Fits(Tag(SELF_DESCRIBE, inner), e, d, depth, Root);
  }

  lemma FaithfulTag(id: U64, inner: Value, e: EncodeOpts, d: DecodeOpts, src: seq<Byte>, off: nat, depth: nat,
                    place: Place)
    requires Encodes(inner, e) && Sized(inner)
    requires At(src, off, HeadBytes(MAJOR_TAG, id) + Out(inner, e))
    ensures Faithful(DecodeAt(src, off, depth, d, place), Tag(id, inner), e, d, depth, place,
                     off + |HeadBytes(MAJOR_TAG, id)| + |Out(inner, e)|)
    decreases inner, 2
  {
    hide HeadBytes, At, Encodes, Sized, DecodeValue, DecodeElement, DecodeKey, Out, Norm, Fits;
    var pos := off + |HeadBytes(MAJOR_TAG, id)|;
    AtSplit(src, off, HeadBytes(MAJOR_TAG, id), Out(inner, e));
    WrittenMajor(src, off, MAJOR_TAG, id);
    ShortcutNeedsString(src, off, depth, d, place);
    DecodeValueTag(src, off, depth, d, place.Root?, id);
    if place.Root? && id == SELF_DESCRIBE {
      FaithfulItem(inner, e, d, src, pos, depth, Root);
      StripNeverReturnsTag(src, pos, depth, d);
      FaithfulStripped(inner, DecodeAt(src, pos, depth, d, Root), e, d, depth, pos + |Out(inner, e)|);
    } else {
      FaithfulItem(inner, e, d, src, pos, depth + 1, Plain);
      FaithfulTagged(id, inner, DecodeAt(src, pos, depth + 1, d, Plain), e, d, depth, place, off,
                     pos + |Out(inner, e)|);
    }
  }

  // ---------------------------------------------------------------- arrays

  predicate FitsItems(items: seq<Value>, e: EncodeOpts, d: DecodeOpts, depth: nat) {
    forall i | 0 <= i < |items| :: Fits(items[i], e, d, depth, Element)
  }

  lemma FitsItemsCons(items: seq<Value>, e: EncodeOpts, d: DecodeOpts, depth: nat)
    requires items != []
    ensures FitsItems(items, e, d, depth) <==>
            Fits(items[0], e, d, depth, Element) && FitsItems(items[1..], e, d, depth)
  {
    assert items == [items[0]] + items[1..];
  }

  predicate FaithfulList(r: Decoded<seq<Value>>, arr: seq<Value>, items: seq<Value>, e: EncodeOpts, d: DecodeOpts,
                         depth: nat, end: nat)
  {
    && (r.Ok? ==> r.next == end && |r.value| == |arr| + |items| && arr <= r.value)
    && ((r.Ok? && r.value == arr + NormItems(items, e)) <==> FitsItems(items, e, d, depth))
  }

  /** One element more: what the element and the rest of the list promise together. */
  lemma FaithfulListCons(w: Decoded<Value>, r: Decoded<seq<Value>>, arr: seq<Value>, items: seq<Value>, e: EncodeOpts,
                         d: DecodeOpts, depth: nat, mid: nat, end: nat)
    requires items != []
    requires Faithful(w, items[0], e, d, depth, Element, mid)
    requires w.Ok? ==> FaithfulList(r, arr + [w.value], items[1..], e, d, depth, end)
    requires w.Err? ==> r.Err?
    ensures FaithfulList(r, arr, items, e, d, depth, end)
  {
    FitsItemsCons(items, e, d, depth);
    if w.Ok? {
      var n := Norm(items[0], e);
      assert NormItems(items, e) == [n] + NormItems(items[1..], e);
      assert (arr + [w.value])[|arr|] == w.value;
      if r.Ok? {
        assert arr <= r.value && r.value[|arr|] == w.value;
        if w.value == n {
          assert arr + NormItems(items, e) == arr + [w.value] + NormItems(items[1..], e);
        } else {
          assert (arr + NormItems(items, e))[|arr|] == n;
        }
      }
    }
  }

  /** One element of an array, before the rest. */
  lemma ItemsStep(items: seq<Value>, e: EncodeOpts)
    requires items != [] && EncItems(items, e).Ok()
    ensures EncItems(items[1..], e).Ok() && Encodes(items[0], e)
    ensures EncItems(items, e).out == Out(items[0], e) + EncItems(items[1..], e).out
  {
    assert EncItems(items, e) == Then(EncInline(items[0], e), EncItems(items[1..], e));
    assert EncInline(items[0], e) == if items[0].TextString? then Done(Out(items[0], e)) else Enc(items[0], e);
  }

  lemma DecodeItemsUnfold(src: seq<Byte>, pos: nat, count: nat, arr: seq<Value>, depth: nat, d: DecodeOpts)
    requires pos <= |src| && count > 0
    ensures DecodeItems(src, pos, count, arr, depth, d) ==
            match DecodeElement(src, pos, depth, d)
            case Err(er, at) => Err(er, at)
            case Ok(v, next) => DecodeItems(src, next, count - 1, arr + [v], depth, d)
  {
    hide DecodeElement;
  }

  lemma FaithfulNoItems(items: seq<Value>, e: EncodeOpts, d: DecodeOpts, src: seq<Byte>, pos: nat, arr: seq<Value>,
                        depth: nat)
    requires items == [] && pos <= |src|
    ensures FaithfulList(DecodeItems(src, pos, |items|, arr, depth, d), arr, items, e, d, depth,
                         pos + |EncItems(items, e).out|)
  {
    assert arr + NormItems(items, e) == arr;
  }

  lemma {:induction false} FaithfulItems(items: seq<Value>, e: EncodeOpts, d: DecodeOpts, src: seq<Byte>, pos: nat,
                                         arr: seq<Value>, depth: nat)
    requires EncItems(items, e).Ok() && forall i | 0 <= i < |items| :: Sized(items[i])
    requires At(src, pos, EncItems(items, e).out)
    ensures FaithfulList(DecodeItems(src, pos, |items|, arr, depth, d), arr, items, e, d, depth,
                         pos + |EncItems(items, e).out|)
    decreases items, 0
  {
    hide At, EncItems, Out, Enc, Encodes, Sized, Norm, NormItems, Fits, FitsItems, Faithful, FaithfulList,
         DecodeItems, DecodeElement, DecodeValue;
    if items == [] {
      FaithfulNoItems(items, e, d, src, pos, arr, depth);
    } else {
      var first, rest := items[0], items[1..];
      ItemsStep(items, e);
      AtSplit(src, pos, Out(first, e), EncItems(rest, e).out);
      FaithfulItem(first, e, d, src, pos, depth, Element);
      DecodeItemsUnfold(src, pos, |items|, arr, depth, d);
      var w := DecodeAt(src, pos, depth, d, Element);
      var mid := pos + |Out(first, e)|;
      if w.Ok? {
        FaithfulNext(w, first, e, d, depth, Element, mid);
        FaithfulItems(rest, e, d, src, mid, arr + [w.value], depth);
      }
      FaithfulListCons(w, DecodeItems(src, pos, |items|, arr, depth, d), arr, items, e, d, depth,
                       mid, pos + |EncItems(items, e).out|);
    }
  }

  lemma FaithfulNext(r: Decoded<Value>, v: Value, e: EncodeOpts, d: DecodeOpts, depth: nat, place: Place, end: nat)
    requires Faithful(r, v, e, d, depth, place, end) && r.Ok?
    ensures r.next == end
  {
  }

  lemma ArrayOut(v: Value, e: EncodeOpts)
    requires v.Array? && Encodes(v, e) && Sized(v)
    ensures EncItems(v.items, e).Ok() && |v.items| <= MAX_LENGTH && forall i | 0 <= i < |v.items| :: Sized(v.items[i])
    ensures Out(v, e) == HeadBytes(MAJOR_ARRAY, |v.items|) + EncItems(v.items, e).out
  {
    hide HeadBytes, EncItems, Len64;
    Len64Small(|v.items|);
    assert Enc(v, e) == Then(Done(HeadBytes(MAJOR_ARRAY, Len64(|v.items|))), EncItems(v.items, e));
  }

  function ArrayResult(count: nat, items: Decoded<seq<Value>>, d: DecodeOpts, depth: nat, off: nat,
                       pos: nat): Decoded<Value> {
    if count > d.MaxArray() then Err(MaxArrayLength, off)
    else if depth + 1 > d.MaxNesting() then Err(MaxNestingDepth, pos)
    else match items case Ok(vs, next) => Decoded.Ok(Array(vs), next) case Err(x, at) => Err(x, at)
  }

  lemma DecodeValueArray(src: seq<Byte>, off: nat, depth: nat, d: DecodeOpts, strip: bool, count: U64)
    requires At(src, off, HeadBytes(MAJOR_ARRAY, count))
    ensures var pos := off + |HeadBytes(MAJOR_ARRAY, count)|;
            DecodeValue(src, off, depth, d, strip) ==
            ArrayResult(count, DecodeItems(src, pos, count, [], depth + 1, d), d, depth, off, pos)
  {
    hide HeadBytes, At, ParseHead;
    ParseWrittenHead(src, off, MAJOR_ARRAY, count);
    var h := ParseHead(src[off..]);
    assert DecodeValue(src, off, depth, d, strip) == DecodeArray(src, off, h, depth, d);
  }

  /** What the array adds to the promise about its elements. */
  lemma FaithfulArrayed(items: seq<Value>, r: Decoded<seq<Value>>, e: EncodeOpts, d: DecodeOpts, depth: nat,
                        place: Place, off: nat, pos: nat, end: nat)
    requires FaithfulList(r, [], items, e, d, depth + 1, end)
    ensures Faithful(ArrayResult(|items|, r, d, depth, off, pos), Array(items), e, d, depth, place, end)
  {
    assert [] + NormItems(items, e) == NormItems(items, e);
    assert Norm(Array(items), e) == Array(NormItems(items, e));
    assert Fits(Array(items), e, d, depth, place) <==>
           |items| <= d.MaxArray() && depth + 1 <= d.MaxNesting() && FitsItems(items, e, d, depth + 1);
  }

  lemma FaithfulArray(items: seq<Value>, e: EncodeOpts, d: DecodeOpts, src: seq<Byte>, off: nat, depth: nat,
                      place: Place)
    requires EncItems(items, e).Ok() && |items| <= MAX_LENGTH && forall i | 0 <= i < |items| :: Sized(items[i])
    requires At(src, off, HeadBytes(MAJOR_ARRAY, |items|) + EncItems(items, e).out)
    ensures Faithful(DecodeAt(src, off, depth, d, place), Array(items), e, d, depth, place,
                     off + |HeadBytes(MAJOR_ARRAY, |items|)| + |EncItems(items, e).out|)
    decreases items, 2
  {
    hide HeadBytes, At, EncItems, Sized, DecodeValue, DecodeElement, DecodeKey, DecodeItems, Norm, Fits;
    var pos := off + |HeadBytes(MAJOR_ARRAY, |items|)|;
    AtSplit(src, off, HeadBytes(MAJOR_ARRAY, |items|), EncItems(items, e).out);
    WrittenMajor(src, off, MAJOR_ARRAY, |items|);
    ShortcutNeedsString(src, off, depth, d, place);
    DecodeValueArray(src, off, depth, d, place.Root?, |items|);
    FaithfulItems(items, e, d, src, pos, [], depth + 1);
    FaithfulArrayed(items, DecodeItems(src, pos, |items|, [], depth + 1, d), e, d, depth, place, off, pos,
                    pos + |EncItems(items, e).out|);
  }

  lemma InvalidNeverEncodes(e: EncodeOpts)
    ensures !Encodes(Invalid, e)
  {
  }

  /** The theorem for one item at one place. */
  lemma FaithfulItem(v: Value, e: EncodeOpts, d: DecodeOpts, src: seq<Byte>, off: nat, depth: nat, place: Place)
    requires Encodes(v, e) && Sized(v)
    requires At(src, off, Out(v, e))
    ensures Faithful(DecodeAt(src, off, depth, d, place), v, e, d, depth, place, off + |Out(v, e)|)
    decreases v, 1
  {
    InvalidNeverEncodes(e);
    hide At, Out, Enc, Encodes, Sized, SizedEntry, EntryEncodes, Norm, Fits, Faithful, DecodeAt, HeadBytes, EncItems,
         PairsOut, WrittenOrder;
    match v
    case Uint(_) => FaithfulInteger(v, e, d, src, off, depth, place);
    case NegInt(_) => FaithfulInteger(v, e, d, src, off, depth, place);
    case ByteString(_) => FaithfulString(v, e, d, src, off, depth, place);
    case TextString(_) => FaithfulString(v, e, d, src, off, depth, place);
    case Array(items) =>
      ArrayOut(v, e);
      FaithfulArray(items, e, d, src, off, depth, place);
    case Map(pairs) =>
      MapOut(v, e);
      FaithfulMap(pairs, e, d, src, off, depth, place);
    case Tag(id, inner) =>
      TagOut(v, e);
      FaithfulTag(id, inner, e, d, src, off, depth, place);
    case Float32(_) => FaithfulFloat(v, e, d, src, off, depth, place);
    case Float64(_) => FaithfulFloat(v, e, d, src, off, depth, place);
    case Invalid =>
    case _ => FaithfulSimple(v, e, d, src, off, depth, place);
  }

  // ---------------------------------------------------------------- maps

  /** The bytes of the entries in the given order. */
  function PairsOut(pairs: seq<MapEntry>, order: seq<nat>, e: EncodeOpts): seq<Byte>
    requires Below(order, |pairs|)
    decreases |order|
  {
    if order == [] then []
    else Out(pairs[order[0]].key, e) + (Out(pairs[order[0]].value, e) + PairsOut(pairs, order[1..], e))
  }

  predicate EntryEncodes(m: MapEntry, e: EncodeOpts) {
    Encodes(m.key, e) && Encodes(m.value, e)
  }

  /** The keys the decoder meets, in that order. */
  function Infos(pairs: seq<MapEntry>, order: seq<nat>, e: EncodeOpts): (r: seq<KeyInfo>)
    requires Below(order, |pairs|)
    ensures |r| == |order|
  {
    seq(|order|, i requires 0 <= i < |order| => InfoOf(pairs[order[i]], e))
  }

  /** The keys already in a map under construction. */
  function Held(m: Pairs): (r: seq<KeyInfo>)
    requires m.Valid()
    ensures |r| == |m.entries|
  {
    seq(|m.entries|, i requires 0 <= i < |m.entries| => KeyInfo(m.entries[i].key, m.hashes[i]))
  }

  predicate Apart(infos: seq<KeyInfo>, dedup: bool) {
    forall i, j | 0 <= i < j < |infos| :: !Clash(infos[i], infos[j], dedup)
  }

  /** A key that clashes with none is appended; one that clashes never lengthens the map. */
  lemma InsertApart(m: Pairs, key: Value, val: Value, h: U64, dedup: bool, reject: bool)
    requires m.Valid() && Apart(Held(m), dedup)
    ensures var r := MapInsert(m, key, val, h, dedup, reject);
            && (Apart(Held(m) + [KeyInfo(key, h)], dedup) ==>
                  && r.Some? && r.value.entries == m.entries + [MapEntry(key, val)]
                  && Held(r.value) == Held(m) + [KeyInfo(key, h)])
            && (!Apart(Held(m) + [KeyInfo(key, h)], dedup) && r.Some? ==> |r.value.entries| == |m.entries|)
            && (r.Some? ==> Apart(Held(r.value), dedup))
  {
    var all := Held(m) + [KeyInfo(key, h)];
    var found := FindKey(m, 0, key, h, dedup);
    if found.None? {
      forall i | 0 <= i < |m.entries|
        ensures !Clash(Held(m)[i], KeyInfo(key, h), dedup)
      {
        assert !KeyHit(m, i, key, h, dedup);
      }
      assert Apart(all, dedup);
      assert Held(MapInsert(m, key, val, h, dedup, reject).value) == all;
    } else {
      assert Clash(all[found.value], all[|m.entries|], dedup);
      if !reject {
        assert Held(MapInsert(m, key, val, h, dedup, reject).value) == Held(m);
      }
    }
  }

  predicate FitsOrder(pairs: seq<MapEntry>, order: seq<nat>, e: EncodeOpts, d: DecodeOpts, depth: nat)
    requires Below(order, |pairs|)
  {
    forall i | 0 <= i < |order| :: FitsEntry(pairs[order[i]], e, d, depth)
  }

  /**
   What decoding a list of pairs into m promises: it never adds more entries than there are
   pairs; if it adds that many, the entries of m are untouched; and it adds exactly the
   normal forms when every entry fits and no key clashes.
   */
  predicate FaithfulPairList(r: Decoded<Pairs>, m: Pairs, pairs: seq<MapEntry>, order: seq<nat>, e: EncodeOpts,
                             d: DecodeOpts, dedup: bool, depth: nat, end: nat)
    requires m.Valid() && Below(order, |pairs|)
  {
    && (r.Ok? ==>
          && r.next == end && |r.value.entries| <= |m.entries| + |order|
          && (|r.value.entries| == |m.entries| + |order| ==> m.entries <= r.value.entries))
    && ((r.Ok? && r.value.entries == m.entries + NormOrdered(pairs, order, e))
        <==> FitsOrder(pairs, order, e, d, depth) && Apart(Held(m) + Infos(pairs, order, e), dedup))
  }

  lemma ApartPrefix(a: seq<KeyInfo>, b: seq<KeyInfo>, dedup: bool)
    requires Apart(a + b, dedup)
    ensures Apart(a, dedup)
  {
    forall i, j | 0 <= i < j < |a|
      ensures !Clash(a[i], a[j], dedup)
    {
      assert (a + b)[i] == a[i] && (a + b)[j] == a[j];
    }
  }

  /** The key and the value of one entry, read at its place in the source. */
  lemma FaithfulEntry(m: MapEntry, e: EncodeOpts, d: DecodeOpts, src: seq<Byte>, pos: nat, depth: nat)
    requires EntryEncodes(m, e) && SizedEntry(m)
    requires At(src, pos, Out(m.key, e)) && At(src, pos + |Out(m.key, e)|, Out(m.value, e))
    ensures Faithful(DecodeAt(src, pos, depth, d, Key), m.key, e, d, depth, Key, pos + |Out(m.key, e)|)
    ensures Faithful(DecodeAt(src, pos + |Out(m.key, e)|, depth, d, Plain), m.value, e, d, depth, Plain,
                     pos + |Out(m.key, e)| + |Out(m.value, e)|)
    decreases m, 2
  {
    hide Faithful, At, Out, Sized, Encodes;
    FaithfulItem(m.key, e, d, src, pos, depth, Key);
    FaithfulItem(m.value, e, d, src, pos + |Out(m.key, e)|, depth, Plain);
  }

  lemma NormKeepsNull(v: Value, e: EncodeOpts)
    ensures Norm(v, e).Null? <==> v.Null?
  {
  }

  /** What reading and inserting one pair promises. */
  predicate FaithfulStep(r: Decoded<Pairs>, m: Pairs, m0: MapEntry, e: EncodeOpts, d: DecodeOpts, dedup: bool,
                         depth: nat, end: nat)
    requires m.Valid()
  {
    && (r.Ok? ==>
          && r.value.Valid() && r.next == end && Apart(Held(r.value), dedup)
          && |r.value.entries| <= |m.entries| + 1
          && (|r.value.entries| == |m.entries| + 1 ==> m.entries <= r.value.entries))
    && ((r.Ok? && r.value.entries == m.entries + [NormEntry(m0, e)])
        <==> FitsEntry(m0, e, d, depth) && Apart(Held(m) + [InfoOf(m0, e)], dedup))
    && (r.Ok? && r.value.entries == m.entries + [NormEntry(m0, e)] ==> Held(r.value) == Held(m) + [InfoOf(m0, e)])
  }

  /** DecodePair, given what the decoder makes of the key and the value. */
  function PairResult(keyOff: nat, k: Decoded<Value>, x: Decoded<Value>, h: U64, m: Pairs, dedup: bool, d: DecodeOpts)
    : Decoded<Pairs>
    requires m.Valid()
  {
    if k.Err? then Err(k.error, k.at)
    else if d.rejectNullKeys && k.value.Null? then Err(NullMapKey, keyOff)
    else if x.Err? then Err(x.error, x.at)
    else match MapInsert(m, k.value, x.value, h, dedup, d.rejectDuplicateKeys)
         case None => Err(DuplicateMapKey, keyOff)
         case Some(m') => Decoded.Ok(m', x.next)
  }

  lemma PairResultFaithful(keyOff: nat, k: Decoded<Value>, x: Decoded<Value>, m: Pairs, m0: MapEntry, e: EncodeOpts,
                           d: DecodeOpts, dedup: bool, depth: nat, mid: nat, end: nat)
    requires m.Valid() && Apart(Held(m), dedup)
    requires Faithful(k, m0.key, e, d, depth, Key, mid)
    requires Faithful(x, m0.value, e, d, depth, Plain, end)
    ensures FaithfulStep(PairResult(keyOff, k, x, Fnv1a(Out(m0.key, e)), m, dedup, d), m, m0, e, d, dedup, depth, end)
  {
    var n0 := NormEntry(m0, e);
    assert n0 == MapEntry(Norm(m0.key, e), Norm(m0.value, e));
    assert FitsEntry(m0, e, d, depth) <==>
           && Fits(m0.key, e, d, depth, Key) && (d.rejectNullKeys ==> !m0.key.Null?)
           && Fits(m0.value, e, d, depth, Plain);
    NormKeepsNull(m0.key, e);
    hide Fits, FitsEntry, Norm, NormEntry, Out, MapInsert, Apart, Clash, Fnv1a;
    if k.Ok? && x.Ok? {
      var h := Fnv1a(Out(m0.key, e));
      InsertApart(m, k.value, x.value, h, dedup, d.rejectDuplicateKeys);
      var r := MapInsert(m, k.value, x.value, h, dedup, d.rejectDuplicateKeys);
      if r.Some? && r.value.entries == m.entries + [n0] {
        assert |r.value.entries| == |m.entries| + 1;
        assert r.value.entries[|m.entries|] == MapEntry(k.value, x.value) == n0;
      }
    }
  }

  lemma DecodePairParts(src: seq<Byte>, pos: nat, k: Decoded<Value>, m: Pairs, dedup: bool, depth: nat, d: DecodeOpts,
                        mid: nat)
    requires m.Valid() && pos <= mid <= |src| && (k.Ok? ==> pos < k.next == mid)
    ensures DecodePair(src, pos, k, m, dedup, depth, d) ==
            PairResult(pos, k, DecodeValue(src, mid, depth, d, false), Fnv1a(src[pos..mid]), m, dedup, d)
  {
    hide MapInsert, Fnv1a, DecodeValue;
  }

  lemma PairStep(m0: MapEntry, e: EncodeOpts, d: DecodeOpts, src: seq<Byte>, pos: nat, m: Pairs, dedup: bool,
                 depth: nat)
    requires m.Valid() && Apart(Held(m), dedup)
    requires At(src, pos, Out(m0.key, e)) && At(src, pos + |Out(m0.key, e)|, Out(m0.value, e))
    requires Faithful(DecodeAt(src, pos, depth, d, Key), m0.key, e, d, depth, Key, pos + |Out(m0.key, e)|)
    requires Faithful(DecodeAt(src, pos + |Out(m0.key, e)|, depth, d, Plain), m0.value, e, d, depth, Plain,
                      pos + |Out(m0.key, e)| + |Out(m0.value, e)|)
    ensures FaithfulStep(DecodePair(src, pos, DecodeKey(src, pos, depth, d), m, dedup, depth, d), m, m0, e, d, dedup,
                         depth, pos + |Out(m0.key, e)| + |Out(m0.value, e)|)
  {
    hide At, Fits, Norm, Out, Held, Faithful, PairResult, DecodeValue, DecodeKey, DecodePair, MapInsert, Apart, Fnv1a,
         FaithfulStep;
    var key := Out(m0.key, e);
    AtSlice(src, pos, key);
    var k := DecodeAt(src, pos, depth, d, Key);
    var x := DecodeAt(src, pos + |key|, depth, d, Plain);
    if k.Ok? {
      FaithfulNext(k, m0.key, e, d, depth, Key, pos + |key|);
    }
    DecodePairParts(src, pos, k, m, dedup, depth, d, pos + |key|);
    PairResultFaithful(pos, k, x, m, m0, e, d, dedup, depth, pos + |key|, pos + |key| + |Out(m0.value, e)|);
  }

  /** The first entry of an order, and the rest. */
  lemma OrderCons(pairs: seq<MapEntry>, order: seq<nat>, e: EncodeOpts, d: DecodeOpts, depth: nat)
    requires Below(order, |pairs|) && order != []
    ensures NormOrdered(pairs, order, e) == [NormEntry(pairs[order[0]], e)] + NormOrdered(pairs, order[1..], e)
    ensures Infos(pairs, order, e) == [InfoOf(pairs[order[0]], e)] + Infos(pairs, order[1..], e)
    ensures FitsOrder(pairs, order, e, d, depth) <==>
            FitsEntry(pairs[order[0]], e, d, depth) && FitsOrder(pairs, order[1..], e, d, depth)
  {
    hide FitsEntry, NormEntry, InfoOf;
    assert order == [order[0]] + order[1..];
  }

  lemma FaithfulPairsCons(r1: Decoded<Pairs>, r: Decoded<Pairs>, m: Pairs, pairs: seq<MapEntry>, order: seq<nat>,
                          e: EncodeOpts, d: DecodeOpts, dedup: bool, depth: nat, mid: nat, end: nat)
    requires m.Valid() && Below(order, |pairs|) && order != []
    requires FaithfulStep(r1, m, pairs[order[0]], e, d, dedup, depth, mid)
    requires r1.Err? ==> r.Err?
    requires r1.Ok? ==> FaithfulPairList(r, r1.value, pairs, order[1..], e, d, dedup, depth, end)
    ensures FaithfulPairList(r, m, pairs, order, e, d, dedup, depth, end)
  {
    hide Fits, FitsEntry, FitsOrder, NormOrdered, NormEntry, Apart, Clash, InfoOf, Infos, Held;
    var m0, rest := pairs[order[0]], order[1..];
    var n0 := NormEntry(m0, e);
    OrderCons(pairs, order, e, d, depth);
    assert Held(m) + Infos(pairs, order, e) == (Held(m) + [InfoOf(m0, e)]) + Infos(pairs, rest, e);
    assert m.entries + NormOrdered(pairs, order, e) == (m.entries + [n0]) + NormOrdered(pairs, rest, e);
    if Apart(Held(m) + Infos(pairs, order, e), dedup) {
      ApartPrefix(Held(m) + [InfoOf(m0, e)], Infos(pairs, rest, e), dedup);
    }
    if r.Ok? && r.value.entries == m.entries + NormOrdered(pairs, order, e) {
      assert |r1.value.entries| == |m.entries| + 1;
      assert r1.value.entries == r.value.entries[..|m.entries| + 1] == m.entries + [n0];
    }
  }

  /** The first entry of a list, and the rest, in the source. */
  lemma PairsOutSplit(pairs: seq<MapEntry>, order: seq<nat>, e: EncodeOpts, src: seq<Byte>, pos: nat)
    requires Below(order, |pairs|) && order != [] && At(src, pos, PairsOut(pairs, order, e))
    ensures var m0 := pairs[order[0]];
            var mid := pos + |Out(m0.key, e)| + |Out(m0.value, e)|;
            && At(src, pos, Out(m0.key, e)) && At(src, pos + |Out(m0.key, e)|, Out(m0.value, e))
            && At(src, mid, PairsOut(pairs, order[1..], e))
            && pos + |PairsOut(pairs, order, e)| == mid + |PairsOut(pairs, order[1..], e)|
  {
    var m0, rest := pairs[order[0]], order[1..];
    assert PairsOut(pairs, order, e) == Out(m0.key, e) + (Out(m0.value, e) + PairsOut(pairs, rest, e));
    hide At, Out, PairsOut;
    AtSplit(src, pos, Out(m0.key, e), Out(m0.value, e) + PairsOut(pairs, rest, e));
    AtSplit(src, pos + |Out(m0.key, e)|, Out(m0.value, e), PairsOut(pairs, rest, e));
  }

  lemma DecodePairsUnfold(src: seq<Byte>, pos: nat, count: nat, m: Pairs, dedup: bool, depth: nat, d: DecodeOpts)
    requires pos <= |src| && m.Valid() && count > 0
    ensures DecodePairs(src, pos, count, m, dedup, depth, d) ==
            match DecodePair(src, pos, DecodeKey(src, pos, depth, d), m, dedup, depth, d)
            case Err(er, at) => Err(er, at)
            case Ok(m', next) => DecodePairs(src, next, count - 1, m', dedup, depth, d)
  {
    hide DecodeKey, DecodePair;
  }

  lemma FaithfulNoPairs(pairs: seq<MapEntry>, order: seq<nat>, e: EncodeOpts, d: DecodeOpts, src: seq<Byte>, pos: nat,
                        m: Pairs, dedup: bool, depth: nat)
    requires pos <= |src| && m.Valid() && Apart(Held(m), dedup) && order == []
    ensures FaithfulPairList(DecodePairs(src, pos, |order|, m, dedup, depth, d), m, pairs, order, e, d, dedup, depth,
                             pos + |PairsOut(pairs, order, e)|)
  {
    assert Held(m) + Infos(pairs, [], e) == Held(m);
    assert m.entries + NormOrdered(pairs, [], e) == m.entries;
  }

  lemma FaithfulStepFacts(r: Decoded<Pairs>, m: Pairs, m0: MapEntry, e: EncodeOpts, d: DecodeOpts, dedup: bool,
                          depth: nat, end: nat)
    requires m.Valid() && FaithfulStep(r, m, m0, e, d, dedup, depth, end) && r.Ok?
    ensures r.value.Valid() && r.next == end && Apart(Held(r.value), dedup)
  {
  }

  lemma {:induction false} FaithfulPairs(pairs: seq<MapEntry>, order: seq<nat>, e: EncodeOpts, d: DecodeOpts,
                                         src: seq<Byte>, pos: nat, m: Pairs, dedup: bool, depth: nat)
    requires forall i | 0 <= i < |pairs| :: EntryEncodes(pairs[i], e) && SizedEntry(pairs[i])
    requires Below(order, |pairs|) && m.Valid() && Apart(Held(m), dedup)
    requires At(src, pos, PairsOut(pairs, order, e))
    ensures FaithfulPairList(DecodePairs(src, pos, |order|, m, dedup, depth, d), m, pairs, order, e, d, dedup, depth,
                             pos + |PairsOut(pairs, order, e)|)
    decreases pairs, 1, |order|
  {
    hide At, Held, FaithfulStep, PairsOut, DecodePairs, DecodePair, DecodeKey, DecodeValue, Fits, FitsEntry, Norm,
         NormEntry, NormOrdered, Apart, Clash, EntryEncodes, SizedEntry, Out, FaithfulPairList, Faithful;
    if order == [] {
      FaithfulNoPairs(pairs, order, e, d, src, pos, m, dedup, depth);
    } else {
      var m0, rest := pairs[order[0]], order[1..];
      var mid := pos + |Out(m0.key, e)| + |Out(m0.value, e)|;
      var end := pos + |PairsOut(pairs, order, e)|;
      var r1 := DecodePair(src, pos, DecodeKey(src, pos, depth, d), m, dedup, depth, d);
      PairsOutSplit(pairs, order, e, src, pos);
      DecodePairsUnfold(src, pos, |order|, m, dedup, depth, d);
      FaithfulEntry(m0, e, d, src, pos, depth);
      PairStep(m0, e, d, src, pos, m, dedup, depth);
      if r1.Ok? {
        FaithfulStepFacts(r1, m, m0, e, d, dedup, depth, mid);
        FaithfulPairs(pairs, rest, e, d, src, mid, r1.value, dedup, depth);
      }
      FaithfulPairsCons(r1, DecodePairs(src, pos, |order|, m, dedup, depth, d), m, pairs, order, e, d, dedup, depth,
                        mid, end);
    }
  }

  // ---------------------------------------------------------------- the order entries are written in

  function WrittenOrder(pairs: seq<MapEntry>, e: EncodeOpts): (r: seq<nat>)
    ensures |r| == |pairs| && Below(r, |pairs|)
  {
    if Sorts(e, |pairs|) && EncKeys(pairs, e).err.None? then SortedOrder(e.sortMode, EncKeys(pairs, e).keys)
    else Iota(|pairs|)
  }

  lemma WrittenOrderPermutes(pairs: seq<MapEntry>, e: EncodeOpts)
    ensures Permutes(WrittenOrder(pairs, e), |pairs|)
  {
    hide SortedOrder, Iota, Permutes;
    if Sorts(e, |pairs|) && EncKeys(pairs, e).err.None? {
      SortedOrderPermutes(e.sortMode, EncKeys(pairs, e).keys);
    } else {
      IotaPermutes(|pairs|);
    }
  }

  /** One entry of an unsorted map, before the rest. */
  lemma UnsortedStep(pairs: seq<MapEntry>, e: EncodeOpts)
    requires pairs != [] && EncPairs(pairs, e).Ok()
    ensures EncPairs(pairs[1..], e).Ok() && EntryEncodes(pairs[0], e)
    ensures EncPairs(pairs, e).out == Out(pairs[0].key, e) + (Out(pairs[0].value, e) + EncPairs(pairs[1..], e).out)
  {
    assert EncPairs(pairs, e) == Then(EncEntry(pairs[0], e), EncPairs(pairs[1..], e));
    assert EncEntry(pairs[0], e) == Then(EncInline(pairs[0].key, e), EncInline(pairs[0].value, e));
    assert EncInline(pairs[0].key, e).out == Out(pairs[0].key, e);
    assert EncInline(pairs[0].value, e).out == Out(pairs[0].value, e);
    hide EncPairs, Out, Enc, EncInline;
    assert EncPairs(pairs, e).out == Out(pairs[0].key, e) + Out(pairs[0].value, e) + EncPairs(pairs[1..], e).out;
  }

  lemma {:induction false} UnsortedOut(pairs: seq<MapEntry>, i: nat, e: EncodeOpts)
    requires i <= |pairs| && EncPairs(pairs[i..], e).Ok()
    ensures forall j | i <= j < |pairs| :: EntryEncodes(pairs[j], e)
    ensures EncPairs(pairs[i..], e).out == PairsOut(pairs, IotaFrom(i, |pairs|), e)
    decreases |pairs| - i
  {
    if i < |pairs| {
      assert pairs[i..][0] == pairs[i] && pairs[i..][1..] == pairs[i + 1..];
      assert IotaFrom(i, |pairs|)[1..] == IotaFrom(i + 1, |pairs|);
      hide EntryEncodes, EncPairs, Out;
      UnsortedStep(pairs[i..], e);
      UnsortedOut(pairs, i + 1, e);
    } else {
      assert pairs[i..] == [];
    }
  }

  lemma {:induction false} KeysOut(pairs: seq<MapEntry>, e: EncodeOpts)
    requires EncKeys(pairs, e).err.None?
    ensures forall i | 0 <= i < |pairs| ::
              Enc(pairs[i].key, e).Ok() && EncKeys(pairs, e).keys[i] == Enc(pairs[i].key, e).out
  {
    if pairs != [] {
      KeysOut(pairs[1..], e);
      assert EncKey(pairs[0], e) == Enc(pairs[0].key, e);
      forall i | 0 <= i < |pairs|
        ensures Enc(pairs[i].key, e).Ok() && EncKeys(pairs, e).keys[i] == Enc(pairs[i].key, e).out
      {
        if i > 0 {
          assert pairs[i] == pairs[1..][i - 1];
        }
      }
    }
  }

  lemma EncOkOut(v: Value, e: EncodeOpts)
    requires Enc(v, e).Ok()
    ensures Encodes(v, e) && Enc(v, e).out == Out(v, e)
  {
  }

  lemma {:induction false} OrderedOut(pairs: seq<MapEntry>, order: seq<nat>, e: EncodeOpts)
    requires EncKeys(pairs, e).err.None? && Below(order, |pairs|)
    requires EncOrdered(pairs, EncKeys(pairs, e).keys, order, e).Ok()
    ensures forall i | 0 <= i < |order| :: EntryEncodes(pairs[order[i]], e)
    ensures EncOrdered(pairs, EncKeys(pairs, e).keys, order, e).out == PairsOut(pairs, order, e)
    decreases |order|
  {
    if order != [] {
      var m := pairs[order[0]];
      KeysOut(pairs, e);
      assert EncValue(m, e) == Enc(m.value, e);
      EncOkOut(m.key, e);
      EncOkOut(m.value, e);
      OrderedOut(pairs, order[1..], e);
    }
  }

  lemma MapBodyOut(pairs: seq<MapEntry>, e: EncodeOpts)
    requires MapBody(pairs, e).Ok()
    ensures forall i | 0 <= i < |pairs| :: EntryEncodes(pairs[i], e)
    ensures MapBody(pairs, e).out == PairsOut(pairs, WrittenOrder(pairs, e), e)
  {
    hide EncPairs, EncKeys, EncOrdered, SortedOrder, PairsOut, EntryEncodes;
    var order := WrittenOrder(pairs, e);
    if Sorts(e, |pairs|) {
      OrderedOut(pairs, order, e);
      WrittenOrderPermutes(pairs, e);
      forall i | 0 <= i < |pairs|
        ensures EntryEncodes(pairs[i], e)
      {
        var a := PositionOf(order, |pairs|, i);
      }
    } else {
      assert pairs[0..] == pairs;
      UnsortedOut(pairs, 0, e);
      IotaFromZero(|pairs|);
    }
  }

  /** The bytes of a map: its head, then its entries in the written order. */
  lemma MapOut(v: Value, e: EncodeOpts)
    requires v.Map? && Encodes(v, e) && Sized(v)
    ensures |v.pairs| <= MAX_LENGTH
    ensures forall i | 0 <= i < |v.pairs| :: EntryEncodes(v.pairs[i], e) && SizedEntry(v.pairs[i])
    ensures Out(v, e) == HeadBytes(MAJOR_MAP, |v.pairs|) + PairsOut(v.pairs, WrittenOrder(v.pairs, e), e)
  {
    assert Out(v, e) == HeadBytes(MAJOR_MAP, |v.pairs|) + MapBody(v.pairs, e).out;
    hide HeadBytes, MapBody, PairsOut, EntryEncodes, WrittenOrder;
    MapBodyOut(v.pairs, e);
  }

  /** Over a permutation, entry by entry is index by index. */
  lemma FitsByIndex(pairs: seq<MapEntry>, order: seq<nat>, e: EncodeOpts, d: DecodeOpts, depth: nat)
    requires Permutes(order, |pairs|)
    ensures FitsOrder(pairs, order, e, d, depth) <==> forall i | 0 <= i < |pairs| :: FitsEntry(pairs[i], e, d, depth)
  {
    hide FitsEntry;
    if FitsOrder(pairs, order, e, d, depth) {
      forall i | 0 <= i < |pairs|
        ensures FitsEntry(pairs[i], e, d, depth)
      {
        var a := PositionOf(order, |pairs|, i);
      }
    }
  }

  lemma ApartByIndex(pairs: seq<MapEntry>, order: seq<nat>, e: EncodeOpts)
    requires Permutes(order, |pairs|)
    ensures Apart(Infos(pairs, order, e), |pairs| > DEDUP_THRESHOLD) <==> KeysApart(pairs, e)
  {
    hide Norm, ValuesEqual, Fnv1a, InfoOf;
    var dedup := |pairs| > DEDUP_THRESHOLD;
    if Apart(Infos(pairs, order, e), dedup) {
      forall i, j | 0 <= i < |pairs| && 0 <= j < |pairs| && i != j
        ensures !Clash(InfoOf(pairs[i], e), InfoOf(pairs[j], e), dedup)
      {
        var a := PositionOf(order, |pairs|, i);
        var b := PositionOf(order, |pairs|, j);
        ValuesEqualSymmetric(InfoOf(pairs[i], e).key, InfoOf(pairs[j], e).key);
        assert Infos(pairs, order, e)[a] == InfoOf(pairs[i], e) && Infos(pairs, order, e)[b] == InfoOf(pairs[j], e);
      }
    }
  }

  function MapResult(count: nat, m: Decoded<Pairs>, d: DecodeOpts, depth: nat, off: nat): Decoded<Value> {
    if count > d.MaxArray() then Err(MaxArrayLength, off)
    else if depth + 1 > d.MaxNesting() then Err(MaxNestingDepth, off)
    else match m case Ok(p, next) => Decoded.Ok(Map(p.entries), next) case Err(x, at) => Err(x, at)
  }

  lemma DecodeValueMap(src: seq<Byte>, off: nat, depth: nat, d: DecodeOpts, strip: bool, count: U64)
    requires At(src, off, HeadBytes(MAJOR_MAP, count))
    ensures var pos := off + |HeadBytes(MAJOR_MAP, count)|;
            DecodeValue(src, off, depth, d, strip) ==
            MapResult(count, DecodePairs(src, pos, count, NO_PAIRS, count > DEDUP_THRESHOLD, depth + 1, d), d,
                      depth, off)
  {
    hide HeadBytes, ParseHead;
    ParseWrittenHead(src, off, MAJOR_MAP, count);
    WrittenMajor(src, off, MAJOR_MAP, count);
    hide At;
    var h := ParseHead(src[off..]);
    assert DecodeValue(src, off, depth, d, strip) == DecodeMap(src, off, h, depth, d);
  }

  lemma FitsMap(pairs: seq<MapEntry>, e: EncodeOpts, d: DecodeOpts, depth: nat, place: Place)
    ensures Norm(Map(pairs), e) == Map(NormOrdered(pairs, WrittenOrder(pairs, e), e))
    ensures Fits(Map(pairs), e, d, depth, place) <==>
           && |pairs| <= d.MaxArray() && depth + 1 <= d.MaxNesting()
           && (forall i | 0 <= i < |pairs| :: FitsEntry(pairs[i], e, d, depth + 1)) && KeysApart(pairs, e)
  {
    hide FitsEntry, KeysApart, SortedOrder, EncKeys, NormOrdered;
  }

  /** What the map adds to the promise about its pairs. */
  lemma FaithfulMapped(pairs: seq<MapEntry>, r: Decoded<Pairs>, e: EncodeOpts, d: DecodeOpts, depth: nat, place: Place,
                       off: nat, end: nat)
    requires FaithfulPairList(r, NO_PAIRS, pairs, WrittenOrder(pairs, e), e, d, |pairs| > DEDUP_THRESHOLD,
                              depth + 1, end)
    ensures Faithful(MapResult(|pairs|, r, d, depth, off), Map(pairs), e, d, depth, place, end)
  {
    hide Norm, Fits, FitsEntry, FitsOrder, KeysApart, Apart, WrittenOrder, NormOrdered, Permutes, Infos;
    var order := WrittenOrder(pairs, e);
    WrittenOrderPermutes(pairs, e);
    FitsByIndex(pairs, order, e, d, depth + 1);
    ApartByIndex(pairs, order, e);
    FitsMap(pairs, e, d, depth, place);
    assert NO_PAIRS.entries + NormOrdered(pairs, order, e) == NormOrdered(pairs, order, e);
    assert Held(NO_PAIRS) + Infos(pairs, order, e) == Infos(pairs, order, e);
  }

  lemma FaithfulMap(pairs: seq<MapEntry>, e: EncodeOpts, d: DecodeOpts, src: seq<Byte>, off: nat, depth: nat,
                    place: Place)
    requires |pairs| <= MAX_LENGTH && forall i | 0 <= i < |pairs| :: EntryEncodes(pairs[i], e) && SizedEntry(pairs[i])
    requires At(src, off, HeadBytes(MAJOR_MAP, |pairs|) + PairsOut(pairs, WrittenOrder(pairs, e), e))
    ensures Faithful(DecodeAt(src, off, depth, d, place), Map(pairs), e, d, depth, place,
                     off + |HeadBytes(MAJOR_MAP, |pairs|)| + |PairsOut(pairs, WrittenOrder(pairs, e), e)|)
    decreases pairs, 2
  {
    hide HeadBytes, At, PairsOut, EntryEncodes, SizedEntry, DecodeValue, DecodeElement, DecodeKey, DecodePairs, Norm,
         Fits, WrittenOrder, FaithfulPairList, Faithful, Apart, MapResult;
    var order := WrittenOrder(pairs, e);
    var body := PairsOut(pairs, order, e);
    var pos := off + |HeadBytes(MAJOR_MAP, |pairs|)|;
    AtSplit(src, off, HeadBytes(MAJOR_MAP, |pairs|), body);
    WrittenMajor(src, off, MAJOR_MAP, |pairs|);
    ShortcutNeedsString(src, off, depth, d, place);
    DecodeValueMap(src, off, depth, d, place.Root?, |pairs|);
    var dedup := |pairs| > DEDUP_THRESHOLD;
    NothingApart(dedup);
    FaithfulPairs(pairs, order, e, d, src, pos, NO_PAIRS, dedup, depth + 1);
    FaithfulMapped(pairs, DecodePairs(src, pos, |pairs|, NO_PAIRS, dedup, depth + 1, d), e, d, depth, place, off,
                   pos + |body|);
  }

  lemma NothingApart(dedup: bool)
    ensures Apart(Held(NO_PAIRS), dedup)
  {
  }
}
