/**
 Known answers: examples of appendix A of RFC 8949 in both directions, one input for each error, the default
 limits, hashes and keys, as literal bytes.
 */
module KnownAnswers {
  import opened Bytes
  import opened Blocks
  import opened Wire
  import opened Floats
  import opened Values
  import opened KeyOrder
  import opened Encoding
  import D = Decoding
  import opened Decoding
  import opened RoundTrip
  import opened Canonical
  import opened CborFormat
  import opened MapKeys
  import opened Octets

  /** The value is written as these bytes by the deterministic encoder, and these bytes are read as the value. */
  predicate Known(v: Value, bytes: seq<Byte>) {
    Enc(v, CORE_DETERMINISTIC) == Done(bytes) && D.Decode(bytes, DEFAULT) == Ok(v, |bytes|)
  }

  lemma KnownByRoundTrip(v: Value, bytes: seq<Byte>)
    requires Enc(v, CORE_DETERMINISTIC) == Done(bytes) && Sized(v) && Norm(v, CORE_DETERMINISTIC) == v
    requires Fits(v, CORE_DETERMINISTIC, DEFAULT, 0, Root)
    ensures Known(v, bytes)
  {
    hide Enc, Norm, Fits, D.Decode;
    DecodeOfEncode(v, CORE_DETERMINISTIC, DEFAULT, []);
    assert bytes + [] == bytes;
  }

  // ---------------------------------------------------------------- integers, strings, simple values

  lemma KnownInteger(n: U64, negative: bool, bytes: seq<Byte>)
    requires bytes == HeadBytes(if negative then MAJOR_NEGINT else MAJOR_UINT, n)
    ensures Known(if negative then NegInt(n) else Uint(n), bytes)
  {
    hide HeadBytes, Known;
    KnownByRoundTrip(if negative then NegInt(n) else Uint(n), bytes);
  }

  /** 0, 10, 23, 24, 100, 1000, 1000000, 1000000000000 and 18446744073709551615. */
  lemma UnsignedIntegers()
    ensures Known(Uint(0), [0x00]) && Known(Uint(10), [0x0a]) && Known(Uint(23), [0x17])
    ensures Known(Uint(24), [0x18, 0x18]) && Known(Uint(100), [0x18, 0x64]) && Known(Uint(1000), [0x19, 0x03, 0xe8])
    ensures Known(Uint(1_000_000), [0x1a, 0x00, 0x0f, 0x42, 0x40])
    ensures Known(Uint(1_000_000_000_000), [0x1b, 0x00, 0x00, 0x00, 0xe8, 0xd4, 0xa5, 0x10, 0x00])
    ensures Known(Uint(0xffff_ffff_ffff_ffff), [0x1b, 0xff, 0xff, 0xff, 0xff, 0xff, 0xff, 0xff, 0xff])
  {
    hide HeadBytes, Known;
    WrittenHead(MAJOR_UINT, 0);
    WrittenHead(MAJOR_UINT, 10);
    WrittenHead(MAJOR_UINT, 23);
    WrittenHead(MAJOR_UINT, 24);
    WrittenHead(MAJOR_UINT, 100);
    WrittenHead(MAJOR_UINT, 1000);
    WrittenHead(MAJOR_UINT, 1_000_000);
    WrittenHead(MAJOR_UINT, 1_000_000_000_000);
    WrittenHead(MAJOR_UINT, 0xffff_ffff_ffff_ffff);
    KnownInteger(0, false, [0x00]);
    KnownInteger(10, false, [0x0a]);
    KnownInteger(23, false, [0x17]);
    KnownInteger(24, false, [0x18, 0x18]);
    KnownInteger(100, false, [0x18, 0x64]);
    KnownInteger(1000, false, [0x19, 0x03, 0xe8]);
    KnownInteger(1_000_000, false, [0x1a, 0x00, 0x0f, 0x42, 0x40]);
    KnownInteger(1_000_000_000_000, false, [0x1b, 0x00, 0x00, 0x00, 0xe8, 0xd4, 0xa5, 0x10, 0x00]);
    KnownInteger(0xffff_ffff_ffff_ffff, false, [0x1b, 0xff, 0xff, 0xff, 0xff, 0xff, 0xff, 0xff, 0xff]);
  }

  /** -1, -10, -100 and -1000. */
  lemma NegativeIntegers()
    ensures Known(NegInt(0), [0x20]) && Known(NegInt(9), [0x29]) && Known(NegInt(99), [0x38, 0x63])
    ensures Known(NegInt(999), [0x39, 0x03, 0xe7])
  {
    hide HeadBytes, Known;
    WrittenHead(MAJOR_NEGINT, 0);
    WrittenHead(MAJOR_NEGINT, 9);
    WrittenHead(MAJOR_NEGINT, 99);
    WrittenHead(MAJOR_NEGINT, 999);
    KnownInteger(0, true, [0x20]);
    KnownInteger(9, true, [0x29]);
    KnownInteger(99, true, [0x38, 0x63]);
    KnownInteger(999, true, [0x39, 0x03, 0xe7]);
  }

  lemma KnownString(s: seq<Byte>, text: bool, bytes: seq<Byte>)
    requires |s| < 24 && ValidUTF8(s) && bytes == [(if text then 0x60 else 0x40) + |s|] + s
    ensures Known(if text then TextString(s) else ByteString(s), bytes)
  {
    hide Known, ValidUTF8, Enc, Norm, Fits, Sized;
    StringIsWritten(s, text, bytes);
    KnownByRoundTrip(if text then TextString(s) else ByteString(s), bytes);
  }

  lemma StringIsWritten(s: seq<Byte>, text: bool, bytes: seq<Byte>)
    requires |s| < 24 && ValidUTF8(s) && bytes == [(if text then 0x60 else 0x40) + |s|] + s
    ensures var v := if text then TextString(s) else ByteString(s);
            && Enc(v, CORE_DETERMINISTIC) == Done(bytes) && Sized(v) && Norm(v, CORE_DETERMINISTIC) == v
            && Fits(v, CORE_DETERMINISTIC, DEFAULT, 0, Root)
  {
    hide ValidUTF8, HeadBytes, Enc, Fits;
    ShortStringHead(text, |s|);
    StringBytesOf(s);
    StringFitsDefault(s);
  }

  lemma StringBytesOf(s: seq<Byte>)
    requires ValidUTF8(s)
    ensures Enc(ByteString(s), CORE_DETERMINISTIC) == Done(HeadBytes(MAJOR_BYTES, Len64(|s|)) + s)
    ensures Enc(TextString(s), CORE_DETERMINISTIC) == Done(HeadBytes(MAJOR_TEXT, Len64(|s|)) + s)
  {
    hide ValidUTF8, HeadBytes;
  }

  lemma StringFitsDefault(s: seq<Byte>)
    requires |s| < 24
    ensures Fits(ByteString(s), CORE_DETERMINISTIC, DEFAULT, 0, Root)
    ensures Fits(TextString(s), CORE_DETERMINISTIC, DEFAULT, 0, Root)
  {
    hide ValidUTF8;
  }

  lemma ShortStringHead(text: bool, n: nat)
    requires n < 24
    ensures HeadBytes(if text then MAJOR_TEXT else MAJOR_BYTES, Len64(n)) == [(if text then 0x60 else 0x40) + n]
  {
  }

  lemma AsciiIsValid(s: seq<Byte>)
    requires forall i | 0 <= i < |s| :: s[i] < 0x80
    ensures ValidUTF8(s)
  {
    if s != [] {
      AsciiIsValid(s[1..]);
    }
  }

  /** h'', h'01020304', "", "a", "IETF" and "ü". */
  lemma Strings()
    ensures Known(ByteString([]), [0x40])
    ensures Known(ByteString([0x01, 0x02, 0x03, 0x04]), [0x44, 0x01, 0x02, 0x03, 0x04])
    ensures Known(TextString([]), [0x60]) && Known(TextString([0x61]), [0x61, 0x61])
    ensures Known(TextString([0x49, 0x45, 0x54, 0x46]), [0x64, 0x49, 0x45, 0x54, 0x46])
    ensures Known(TextString([0xc3, 0xbc]), [0x62, 0xc3, 0xbc])
  {
    hide Known, ValidUTF8;
    AsciiIsValid([]);
    AsciiIsValid([0x61]);
    AsciiIsValid([0x01, 0x02, 0x03, 0x04]);
    AsciiIsValid([0x49, 0x45, 0x54, 0x46]);
    UmlautIsValid();
    KnownString([], false, [0x40]);
    KnownString([0x01, 0x02, 0x03, 0x04], false, [0x44, 0x01, 0x02, 0x03, 0x04]);
    KnownString([], true, [0x60]);
    KnownString([0x61], true, [0x61, 0x61]);
    KnownString([0x49, 0x45, 0x54, 0x46], true, [0x64, 0x49, 0x45, 0x54, 0x46]);
    KnownString([0xc3, 0xbc], true, [0x62, 0xc3, 0xbc]);
  }

  lemma UmlautIsValid()
    ensures ValidUTF8([0xc3, 0xbc])
  {
    assert RuneLength([0xc3, 0xbc]) == 2;
  }

  /** false, true, null, undefined, simple(16) and simple(255). */
  lemma SimpleValues()
    ensures Known(Bool(false), [0xf4]) && Known(Bool(true), [0xf5]) && Known(Null, [0xf6]) && Known(Undefined, [0xf7])
    ensures Known(Simple(16), [0xf0]) && Known(Simple(255), [0xf8, 0xff])
  {
    hide Known;
    KnownByRoundTrip(Bool(false), [0xf4]);
    KnownByRoundTrip(Bool(true), [0xf5]);
    KnownByRoundTrip(Null, [0xf6]);
    KnownByRoundTrip(Undefined, [0xf7]);
    KnownByRoundTrip(Simple(16), [0xf0]);
    KnownByRoundTrip(Simple(255), [0xf8, 0xff]);
  }

  // ---------------------------------------------------------------- floats

  /** A normal half and a normal single as doubles: the exponent is biased anew, the mantissa moves up. */
  lemma WidenedFields(h: U16, c: U32)
    ensures 0 < Exp16(h) < 31 ==>
              HalfToDouble(h) == Bits64(Neg16(h), Exp16(h) - 15 + 1023, Man16(h) * 0x400_0000_0000)
    ensures 0 < Exp32(c) < 255 ==>
              SingleToDouble(c) == Bits64(Neg32(c), Exp32(c) - 127 + 1023, Man32(c) * 0x2000_0000)
  {
    hide NormShift, Shl;
    if 0 < Exp16(h) < 31 {
      ShlConstants(Man16(h) + P10);
      NormShiftOfShl(Man16(h) + P10, 42);
    }
    if 0 < Exp32(c) < 255 {
      ShlConstants(Man32(c) + P23);
      NormShiftOfShl(Man32(c) + P23, 29);
    }
  }

  /** The wire float that is chosen, as bytes. */
  lemma FloatIsWritten(v: Value, o: EncodeOpts, w: FloatWire, bytes: seq<Byte>)
    requires IsFloat(v) && FloatWireOf(v, o) == w && (o.allowNonFinite || IsFiniteFloat(v)) && bytes == FloatLiteral(w)
    ensures Enc(v, o) == Done(bytes)
  {
    hide FloatWireOf, FloatLiteral, IsFiniteFloat, FloatBytes;
    FloatBytesAre(w);
  }

  lemma KnownFloat(v: Value, w: FloatWire, bytes: seq<Byte>)
    requires IsFloat(v) && FloatWireOf(v, CORE_DETERMINISTIC) == w && IsFiniteFloat(v) && WireValue(w) == v
    requires bytes == FloatLiteral(w)
    ensures Known(v, bytes)
  {
    hide Known, FloatWireOf, FloatLiteral, IsFiniteFloat, HalfToDouble;
    FloatIsWritten(v, CORE_DETERMINISTIC, w, bytes);
    KnownByRoundTrip(v, bytes);
  }

  lemma HalfIsShortest(h: U16, b: U64)
    requires HalfToDouble(h) == b && !IsNaN64(b)
    ensures ShortestWire(b) == W16(h)
  {
    hide HalfToDouble, EncodeFloat16, Num16, Num64, IsNaN64, NarrowExact;
    EncodeFloat16Exact(b, h);
  }

  lemma KnownHalf(h: U16, b: U64, bytes: seq<Byte>)
    requires 0 < Exp16(h) < 31 && Bits64(Neg16(h), Exp16(h) - 15 + 1023, Man16(h) * 0x400_0000_0000) == b
    requires bytes == FloatLiteral(W16(h)) && Exp64(b) != 2047
    ensures Known(Float64(b), bytes)
  {
    hide Known, HalfToDouble, SingleToDouble, Bits64, Exp16, Man16, ShortestWire, FloatLiteral;
    WidenedFields(h, 0);
    HalfIsShortest(h, b);
    KnownFloat(Float64(b), W16(h), bytes);
  }

  /** 1.0, 1.5, 65504.0 and -4.0 take three bytes. */
  lemma HalfFloats()
    ensures Known(Float64(0x3ff0_0000_0000_0000), [0xf9, 0x3c, 0x00])
    ensures Known(Float64(0x3ff8_0000_0000_0000), [0xf9, 0x3e, 0x00])
    ensures Known(Float64(0x40ef_fc00_0000_0000), [0xf9, 0x7b, 0xff])
    ensures Known(Float64(0xc010_0000_0000_0000), [0xf9, 0xc4, 0x00])
  {
    hide Known;
    KnownHalf(0x3c00, 0x3ff0_0000_0000_0000, [0xf9, 0x3c, 0x00]);
    KnownHalf(0x3e00, 0x3ff8_0000_0000_0000, [0xf9, 0x3e, 0x00]);
    KnownHalf(0x7bff, 0x40ef_fc00_0000_0000, [0xf9, 0x7b, 0xff]);
    KnownHalf(0xc400, 0xc010_0000_0000_0000, [0xf9, 0xc4, 0x00]);
  }

  lemma SingleIs(c: U32, b: U64)
    requires 0 < Exp32(c) < 255 && Bits64(Neg32(c), Exp32(c) - 127 + 1023, Man32(c) * 0x2000_0000) == b
    ensures SingleToDouble(c) == b
  {
    hide HalfToDouble, SingleToDouble, Bits64, Exp32, Man32;
    WidenedFields(0, c);
  }

  /** 100000.0 takes five bytes. */
  lemma SingleFloat()
    ensures Known(Float32(0x47c3_5000), [0xfa, 0x47, 0xc3, 0x50, 0x00])
    ensures Enc(Float64(0x40f8_6a00_0000_0000), CORE_DETERMINISTIC) == Done([0xfa, 0x47, 0xc3, 0x50, 0x00])
  {
    hide Known, SingleToDouble, ShortestWire, Enc;
    SingleIs(0x47c3_5000, 0x40f8_6a00_0000_0000);
    SingleIsShortest();
    KnownFloat(Float32(0x47c3_5000), W32(0x47c3_5000), [0xfa, 0x47, 0xc3, 0x50, 0x00]);
    FloatIsWritten(Float64(0x40f8_6a00_0000_0000), CORE_DETERMINISTIC, W32(0x47c3_5000),
                   [0xfa, 0x47, 0xc3, 0x50, 0x00]);
  }

  lemma SingleIsShortest()
    requires SingleToDouble(0x47c3_5000) == 0x40f8_6a00_0000_0000
    ensures ShortestWire(0x40f8_6a00_0000_0000) == W32(0x47c3_5000)
  {
    hide SingleToDouble, NarrowExact, CheckHalf, Shl, Shr;
    NarrowComplete(0x40f8_6a00_0000_0000, 0x47c3_5000);
  }

  /** 1.1 takes nine bytes. */
  lemma DoubleFloat()
    ensures Known(Float64(0x3ff1_9999_9999_999a), [0xfb, 0x3f, 0xf1, 0x99, 0x99, 0x99, 0x99, 0x99, 0x9a])
  {
    hide Known, ShortestWire, FloatLiteral, Exp64;
    DoubleIsShortest();
    DoubleBytes();
    KnownFloat(Float64(0x3ff1_9999_9999_999a), W64(0x3ff1_9999_9999_999a),
               [0xfb, 0x3f, 0xf1, 0x99, 0x99, 0x99, 0x99, 0x99, 0x9a]);
  }

  lemma DoubleBytes()
    ensures FloatLiteral(W64(0x3ff1_9999_9999_999a)) == [0xfb, 0x3f, 0xf1, 0x99, 0x99, 0x99, 0x99, 0x99, 0x9a]
    ensures Exp64(0x3ff1_9999_9999_999a) == 1023
  {
  }

  lemma DoubleIsShortest()
    ensures ShortestWire(0x3ff1_9999_9999_999a) == W64(0x3ff1_9999_9999_999a)
  {
    hide CheckHalf, Shl, Shr;
  }

  /** The infinities and NaN take three bytes where they are admitted. */
  lemma NonFiniteFloats()
    ensures var e := CORE_DETERMINISTIC.(allowNonFinite := true);
            && Enc(Float64(0x7ff0_0000_0000_0000), e) == Done([0xf9, 0x7c, 0x00])
            && Enc(Float64(0xfff0_0000_0000_0000), e) == Done([0xf9, 0xfc, 0x00])
            && Enc(Float64(0x7ff8_0000_0000_0000), e) == Done([0xf9, 0x7e, 0x00])
  {
    hide ShortestWire, Enc;
    var e := CORE_DETERMINISTIC.(allowNonFinite := true);
    NonFiniteIsShortest();
    FloatIsWritten(Float64(0x7ff0_0000_0000_0000), e, W16(0x7c00), [0xf9, 0x7c, 0x00]);
    FloatIsWritten(Float64(0xfff0_0000_0000_0000), e, W16(0xfc00), [0xf9, 0xfc, 0x00]);
    FloatIsWritten(Float64(0x7ff8_0000_0000_0000), e, W16(0x7e00), [0xf9, 0x7e, 0x00]);
  }

  lemma NonFiniteIsShortest()
    ensures ShortestWire(0x7ff0_0000_0000_0000) == W16(0x7c00)
    ensures ShortestWire(0xfff0_0000_0000_0000) == W16(0xfc00)
    ensures ShortestWire(0x7ff8_0000_0000_0000) == W16(0x7e00)
  {
    hide NarrowExact, CheckHalf, Shl, Shr;
  }

  const ONE: U64 := 0x3ff0_0000_0000_0000
  const ONE_AS_DOUBLE: seq<Byte> := [0xfb, 0x3f, 0xf0, 0x00, 0x00, 0x00, 0x00, 0x00, 0x00]

  lemma OneLiterals()
    ensures FloatLiteral(W64(ONE)) == ONE_AS_DOUBLE
    ensures FloatLiteral(W32(0x3f80_0000)) == [0xfa, 0x3f, 0x80, 0x00, 0x00]
    ensures FloatLiteral(W16(0x3c00)) == [0xf9, 0x3c, 0x00]
  {
  }

  lemma OneFields()
    ensures Exp64(ONE) == 1023 && Man64(ONE) == 0 && Exp32(0x3f80_0000) == 127 && Man32(0x3f80_0000) == 0
    ensures Exp16(0x3c00) == 15 && Man16(0x3c00) == 0 && !Neg16(0x3c00) && !Neg32(0x3f80_0000)
    ensures Bits64(false, 1023, 0) == ONE
  {
  }

  lemma OneIsHalf()
    ensures SingleToDouble(0x3f80_0000) == ONE && ShortestWire(ONE) == W16(0x3c00)
  {
    hide SingleToDouble, HalfToDouble, ShortestWire, Bits64, Exp16, Man16, Exp32, Man32, Exp64, Man64, Neg16, Neg32;
    OneFields();
    SingleIs(0x3f80_0000, ONE);
    WidenedFields(0x3c00, 0);
    HalfIsShortest(0x3c00, ONE);
  }

  /** 1.0 in the other modes: nine bytes in the CTAP2 mode, bit for bit in the permissive mode. */
  lemma OneInOtherModes()
    ensures Enc(Float64(ONE), CTAP2) == Done(ONE_AS_DOUBLE) && Enc(Float32(0x3f80_0000), CTAP2) == Done(ONE_AS_DOUBLE)
    ensures Enc(Float64(ONE), PERMISSIVE) == Done(ONE_AS_DOUBLE)
    ensures Enc(Float32(0x3f80_0000), PERMISSIVE) == Done([0xfa, 0x3f, 0x80, 0x00, 0x00])
    ensures Enc(Float64(ONE), CANONICAL) == Done([0xf9, 0x3c, 0x00])
  {
    hide SingleToDouble, ShortestWire, Enc, FloatLiteral, Exp64, Exp32;
    OneLiterals();
    OneFields();
    OneIsHalf();
    FloatIsWritten(Float64(ONE), CTAP2, W64(ONE), ONE_AS_DOUBLE);
    FloatIsWritten(Float32(0x3f80_0000), CTAP2, W64(ONE), ONE_AS_DOUBLE);
    FloatIsWritten(Float64(ONE), PERMISSIVE, W64(ONE), ONE_AS_DOUBLE);
    FloatIsWritten(Float32(0x3f80_0000), PERMISSIVE, W32(0x3f80_0000), [0xfa, 0x3f, 0x80, 0x00, 0x00]);
    FloatIsWritten(Float64(ONE), CANONICAL, W16(0x3c00), [0xf9, 0x3c, 0x00]);
  }

  // ---------------------------------------------------------------- arrays, maps and tags

  lemma OneByte(n: Byte, o: EncodeOpts)
    requires n < 24
    ensures EncInline(Uint(n), o) == Done([n]) && Enc(Uint(n), o) == Done([n])
  {
  }

  /** [], [1, 2, 3], {} and 1(1363896240). */
  lemma Containers()
    ensures Known(Array([]), [0x80]) && Known(Map([]), [0xa0])
    ensures Known(Array([Uint(1), Uint(2), Uint(3)]), [0x83, 0x01, 0x02, 0x03])
    ensures Known(Tag(1, Uint(1363896240)), [0xc1, 0x1a, 0x51, 0x4b, 0x67, 0xb0])
  {
    hide Known;
    EmptyContainers();
    ThreeIntegers();
    TaggedTime();
  }

  lemma EmptyContainers()
    ensures Known(Array([]), [0x80]) && Known(Map([]), [0xa0])
  {
    hide Known;
    KnownByRoundTrip(Array([]), [0x80]);
    KnownByRoundTrip(Map([]), [0xa0]);
  }

  function SmallIntegers(s: seq<Byte>): (r: seq<Value>)
    ensures |r| == |s| && forall i | 0 <= i < |r| :: r[i] == Uint(s[i])
  {
    if s == [] then [] else [Uint(s[0])] + SmallIntegers(s[1..])
  }

  lemma {:induction false} SmallItems(s: seq<Byte>, o: EncodeOpts)
    requires forall i | 0 <= i < |s| :: s[i] < 24
    ensures EncItems(SmallIntegers(s), o) == Done(s) && NormItems(SmallIntegers(s), o) == SmallIntegers(s)
  {
    hide Enc, EncInline, Norm;
    if s != [] {
      OneByte(s[0], o);
      IntegerNorm(s[0], o);
      SmallItems(s[1..], o);
      assert SmallIntegers(s)[1..] == SmallIntegers(s[1..]) && s == [s[0]] + s[1..];
    }
  }

  lemma IntegerNorm(n: U64, o: EncodeOpts)
    ensures Norm(Uint(n), o) == Uint(n)
  {
  }

  lemma IntegerFits(n: U64)
    ensures Fits(Uint(n), CORE_DETERMINISTIC, DEFAULT, 1, Element)
  {
  }

  lemma SmallArrayFits(s: seq<Byte>)
    requires |s| < 24
    requires forall i | 0 <= i < |s| :: Fits(SmallIntegers(s)[i], CORE_DETERMINISTIC, DEFAULT, 1, Element)
    ensures Fits(Array(SmallIntegers(s)), CORE_DETERMINISTIC, DEFAULT, 0, Root)
  {
  }

  lemma ThreeIntegers()
    ensures Known(Array([Uint(1), Uint(2), Uint(3)]), [0x83, 0x01, 0x02, 0x03])
  {
    hide Known, EncItems, NormItems, Fits;
    SmallItems([1, 2, 3], CORE_DETERMINISTIC);
    assert SmallIntegers([1, 2, 3]) == [Uint(1), Uint(2), Uint(3)];
    IntegerFits(1);
    IntegerFits(2);
    IntegerFits(3);
    SmallArrayFits([1, 2, 3]);
    assert HeadBytes(MAJOR_ARRAY, Len64(3)) == [0x83];
    KnownByRoundTrip(Array([Uint(1), Uint(2), Uint(3)]), [0x83, 0x01, 0x02, 0x03]);
  }

  lemma TaggedTime()
    ensures Known(Tag(1, Uint(1363896240)), [0xc1, 0x1a, 0x51, 0x4b, 0x67, 0xb0])
  {
    hide Known, HeadBytes;
    WrittenHead(MAJOR_TAG, 1);
    WrittenHead(MAJOR_UINT, 1363896240);
    KnownByRoundTrip(Tag(1, Uint(1363896240)), [0xc1, 0x1a, 0x51, 0x4b, 0x67, 0xb0]);
  }

  // ---------------------------------------------------------------- two text keys

  const A := MapEntry(TextString([0x61]), Uint(1))
  const B := MapEntry(TextString([0x62]), Uint(2))

  /** { "a": 1, "b": 2 }: both keys are kept, and both deterministic modes write "a" before "b". */
  lemma TwoTextKeys()
    ensures Known(Map([A, B]), [0xa2, 0x61, 0x61, 0x01, 0x61, 0x62, 0x02])
    ensures Enc(Map([B, A]), CORE_DETERMINISTIC) == Done([0xa2, 0x61, 0x61, 0x01, 0x61, 0x62, 0x02])
    ensures Enc(Map([B, A]), CANONICAL) == Done([0xa2, 0x61, 0x61, 0x01, 0x61, 0x62, 0x02])
  {
    hide Known, Enc;
    TextKeysSorted(CORE_DETERMINISTIC);
    TextKeysSorted(CANONICAL);
    TextKeysNormal();
    KnownByRoundTrip(Map([A, B]), [0xa2, 0x61, 0x61, 0x01, 0x61, 0x62, 0x02]);
  }

  lemma EntryBytes(o: EncodeOpts)
    ensures Enc(A.key, o) == Done([0x61, 0x61]) && Enc(B.key, o) == Done([0x61, 0x62])
    ensures Enc(A.value, o) == Done([1]) && Enc(B.value, o) == Done([2])
    ensures EncKey(A, o) == Enc(A.key, o) && EncKey(B, o) == Enc(B.key, o)
    ensures EncValue(A, o) == Enc(A.value, o) && EncValue(B, o) == Enc(B.value, o)
  {
    hide ValidUTF8;
    AsciiIsValid([0x61]);
    AsciiIsValid([0x62]);
  }

  lemma TwoEncoded(x: MapEntry, y: MapEntry, o: EncodeOpts)
    requires EncKey(x, o).Ok() && EncKey(y, o).Ok()
    ensures EncKeys([x, y], o) == EncodedKeys([EncKey(x, o).out, EncKey(y, o).out], None)
  {
    hide EncKey;
    assert [x, y][1..] == [y] && [y][1..] == [];
    assert EncKeys([y], o) == EncodedKeys([EncKey(y, o).out], None);
  }

  lemma TwoOrdered(m: seq<MapEntry>, keys: seq<seq<Byte>>, order: seq<nat>, o: EncodeOpts)
    requires |m| == |keys| == 2 && (order == [0, 1] || order == [1, 0])
    requires EncValue(m[0], o).Ok() && EncValue(m[1], o).Ok()
    ensures EncOrdered(m, keys, order, o) ==
            Done(keys[order[0]] + EncValue(m[order[0]], o).out + (keys[order[1]] + EncValue(m[order[1]], o).out))
  {
    hide EncValue;
    assert order[1..] == [order[1]] && order[1..][1..] == [];
    assert EncOrdered(m, keys, [], o) == Done([]);
    assert EncOrdered(m, keys, order[1..], o) == Done(keys[order[1]] + (EncValue(m[order[1]], o).out + []));
  }

  lemma TwoKeysInOrder(mode: SortMode, keys: seq<seq<Byte>>)
    requires keys == [[0x61, 0x61], [0x61, 0x62]] || keys == [[0x61, 0x62], [0x61, 0x61]]
    ensures SortedOrder(mode, keys) == if keys[0] == [0x61, 0x61] then [0, 1] else [1, 0]
  {
    hide SortedOrder, Before, SortedBy, Permutes;
    TextOrder(mode);
    SortedOrderCorrect(mode, keys);
    SortedOrderPermutes(mode, keys);
    TwoIndices(SortedOrder(mode, keys));
  }

  lemma TwoIndices(order: seq<nat>)
    requires Permutes(order, 2)
    ensures order == [0, 1] || order == [1, 0]
  {
    assert order[0] != order[1] && order == [order[0], order[1]];
  }

  lemma TextOrder(mode: SortMode)
    ensures Before(mode, [0x61, 0x61], [0x61, 0x62]) && !Before(mode, [0x61, 0x62], [0x61, 0x61])
  {
    var a: seq<Byte>, b: seq<Byte> := [0x61, 0x61], [0x61, 0x62];
    assert SmallerAt(a, b, 1);
    hide LexCompare;
    ComparesAsOrdered(mode, a, b);
    ComparesAsOrdered(mode, b, a);
    LexAntisymmetric(a, b);
  }

  lemma TextKeysSorted(o: EncodeOpts)
    requires o.deterministic
    ensures Enc(Map([A, B]), o) == Done([0xa2, 0x61, 0x61, 0x01, 0x61, 0x62, 0x02])
    ensures Enc(Map([B, A]), o) == Done([0xa2, 0x61, 0x61, 0x01, 0x61, 0x62, 0x02])
  {
    hide EncKeys, EncOrdered, SortedOrder, EncKey, EncValue, Enc;
    var bytes: seq<Byte> := [0x61, 0x61, 0x01, 0x61, 0x62, 0x02];
    EntryBytes(o);
    TwoEncoded(A, B, o);
    TwoEncoded(B, A, o);
    TwoKeysInOrder(o.sortMode, [[0x61, 0x61], [0x61, 0x62]]);
    TwoKeysInOrder(o.sortMode, [[0x61, 0x62], [0x61, 0x61]]);
    TwoOrdered([A, B], [[0x61, 0x61], [0x61, 0x62]], [0, 1], o);
    TwoOrdered([B, A], [[0x61, 0x62], [0x61, 0x61]], [1, 0], o);
    assert [0x61, 0x61] + [1] + ([0x61, 0x62] + [2]) == bytes;
    SortedPair([A, B], [[0x61, 0x61], [0x61, 0x62]], [0, 1], bytes, o);
    SortedPair([B, A], [[0x61, 0x62], [0x61, 0x61]], [1, 0], bytes, o);
  }

  lemma SortedPair(m: seq<MapEntry>, keys: seq<seq<Byte>>, order: seq<nat>, bytes: seq<Byte>, o: EncodeOpts)
    requires |m| == |keys| == 2 && o.deterministic && EncKeys(m, o) == EncodedKeys(keys, None)
    requires SortedOrder(o.sortMode, keys) == order && EncOrdered(m, keys, order, o) == Done(bytes)
    ensures Enc(Map(m), o) == Done([0xa2] + bytes)
  {
    hide EncKeys, EncOrdered, SortedOrder;
  }

  lemma TextKeysNormal()
    ensures Sized(Map([A, B])) && Norm(Map([A, B]), CORE_DETERMINISTIC) == Map([A, B])
    ensures Fits(Map([A, B]), CORE_DETERMINISTIC, DEFAULT, 0, Root)
  {
    var e, m := CORE_DETERMINISTIC, [A, B];
    hide EncKeys, SortedOrder, EncKey, ValidUTF8, Fnv1a, RoundTrip.KeysApart;
    EntryBytes(e);
    TwoEncoded(A, B, e);
    TwoKeysInOrder(e.sortMode, [[0x61, 0x61], [0x61, 0x62]]);
    assert [0, 1][1..] == [1] && [1][1..] == [];
    assert NormOrdered(m, [], e) == [] && NormEntry(A, e) == A && NormEntry(B, e) == B;
    assert NormOrdered(m, [1], e) == [B] && NormOrdered(m, [0, 1], e) == [A, B];
    DiscreteKeysApart(m, e);
  }

  // ---------------------------------------------------------------- items without a length

  /** Chunks are joined in order, and a break ends an array. */
  lemma OpenEndedItems()
    ensures D.Decode([0x5f, 0x42, 0x01, 0x02, 0x43, 0x03, 0x04, 0x05, 0xff], DEFAULT) ==
            Ok(ByteString([0x01, 0x02, 0x03, 0x04, 0x05]), 9)
    ensures D.Decode([0x9f, 0xff], DEFAULT) == Ok(Array([]), 2)
    ensures D.Decode([0x9f, 0x01, 0x02, 0xff], DEFAULT) == Ok(Array([Uint(1), Uint(2)]), 4)
  {
    OpenEndedString();
    OpenEndedArrays();
  }

  lemma OpenEndedString()
    ensures D.Decode([0x5f, 0x42, 0x01, 0x02, 0x43, 0x03, 0x04, 0x05, 0xff], DEFAULT) ==
            Ok(ByteString([0x01, 0x02, 0x03, 0x04, 0x05]), 9)
  {
    hide ParseHead, D.Decode;
    var src := [0x5f, 0x42, 0x01, 0x02, 0x43, 0x03, 0x04, 0x05, 0xff];
    ChunkHeads(src);
    AtHead(src, DEFAULT);
    assert [] + src[2..4] == [0x01, 0x02] && [0x01, 0x02] + src[5..8] == [0x01, 0x02, 0x03, 0x04, 0x05];
    assert D.DecodeChunks(src, 8, MAJOR_BYTES, [1, 2, 3, 4, 5], DEFAULT) == Ok([1, 2, 3, 4, 5], 9);
    assert D.DecodeChunks(src, 4, MAJOR_BYTES, [1, 2], DEFAULT) == Ok([1, 2, 3, 4, 5], 9);
    assert D.DecodeChunks(src, 1, MAJOR_BYTES, [], DEFAULT) == Ok([1, 2, 3, 4, 5], 9);
  }

  lemma ChunkHeads(src: seq<Byte>)
    requires src == [0x5f, 0x42, 0x01, 0x02, 0x43, 0x03, 0x04, 0x05, 0xff]
    ensures ParseHead(src[0..]) == Head(MAJOR_BYTES, AI_INDEFINITE, 0, 1)
    ensures ParseHead(src[1..]) == Head(MAJOR_BYTES, 2, 2, 1) && ParseHead(src[4..]) == Head(MAJOR_BYTES, 3, 3, 1)
  {
    hide ParseHead;
    ReadHead(src[0..]);
    ReadHead(src[1..]);
    ReadHead(src[4..]);
  }

  lemma SmallAt(src: seq<Byte>, pos: nat)
    requires pos < |src| && src[pos] < 24
    ensures D.DecodeValue(src, pos, 1, DEFAULT, false) == Ok(Uint(src[pos]), pos + 1)
  {
    hide ParseHead, D.DecodeBytes, D.DecodeText, D.DecodeArray, D.DecodeMap, D.DecodeTag, D.DecodeOther;
    ReadHead(src[pos..]);
  }

  lemma OpenEndedArrays()
    ensures D.Decode([0x9f, 0xff], DEFAULT) == Ok(Array([]), 2)
    ensures D.Decode([0x9f, 0x01, 0x02, 0xff], DEFAULT) == Ok(Array([Uint(1), Uint(2)]), 4)
  {
    hide ParseHead, D.Decode, D.DecodeValue;
    var a, b := [0x9f, 0xff], [0x9f, 0x01, 0x02, 0xff];
    assert a[0..] == a && b[0..] == b;
    ReadHead(a);
    ReadHead(b);
    AtHead(a, DEFAULT);
    AtHead(b, DEFAULT);
    SmallAt(b, 1);
    SmallAt(b, 2);
    var u, v := Uint(1), Uint(2);
    assert [] + [u] == [u] && [u] + [v] == [u, v];
    assert D.DecodeUntilBreak(a, 1, [], 1, DEFAULT) == Ok([], 2);
    assert D.DecodeUntilBreak(b, 3, [u, v], 1, DEFAULT) == Ok([u, v], 4);
    assert D.DecodeUntilBreak(b, 2, [u], 1, DEFAULT) == Ok([u, v], 4);
    assert D.DecodeUntilBreak(b, 1, [], 1, DEFAULT) == Ok([u, v], 4);
  }

  // ---------------------------------------------------------------- errors

  /** What Decode does with a whole head that is not reserved. */
  lemma AtHead(src: seq<Byte>, o: DecodeOpts)
    requires src != []
    ensures var h := ParseHead(src[0..]);
            && (h.n == 0 ==> D.Decode(src, o) == Err(Truncated, 0))
            && (h.n > 0 && Reserved(h) ==> D.Decode(src, o) == Err(ReservedAI, 0))
            && (h.n > 0 && !Reserved(h) && Overlong(h, o) ==> D.Decode(src, o) == Err(DecodeError.NonShortest, 0))
            && (h.n > 0 && !Reserved(h) && !Overlong(h, o) ==>
                  && (h.major == MAJOR_BYTES ==> D.Decode(src, o) == D.DecodeBytes(src, 0, h, o))
                  && (h.major == MAJOR_TEXT ==> D.Decode(src, o) == D.DecodeText(src, 0, h, o))
                  && (h.major == MAJOR_ARRAY ==> D.Decode(src, o) == D.DecodeArray(src, 0, h, 0, o))
                  && (h.major == MAJOR_MAP ==> D.Decode(src, o) == D.DecodeMap(src, 0, h, 0, o))
                  && (h.major == MAJOR_TAG ==> D.Decode(src, o) == D.DecodeTag(src, 0, h, 0, o, true))
                  && (h.major == MAJOR_OTHER ==> D.Decode(src, o) == D.DecodeOther(0, h, o)))
  {
    hide ParseHead, D.DecodeBytes, D.DecodeText, D.DecodeArray, D.DecodeMap, D.DecodeTag, D.DecodeOther, Overlong;
  }

  /** Inputs that no options admit, and where the error is reported. */
  lemma MalformedInputs(o: DecodeOpts)
    ensures D.Decode([], o) == Err(Truncated, 0)
    ensures D.Decode([0x18], o) == Err(Truncated, 0)
    ensures D.Decode([0x1c], o) == Err(ReservedAI, 0)
    ensures D.Decode([0xff], o) == Err(Truncated, 0)
    ensures D.Decode([0xf8, 0x18], o) == Err(DecodeError.NonShortest, 0)
  {
    hide ParseHead, D.DecodeBytes, D.DecodeText, D.DecodeArray, D.DecodeMap, D.DecodeTag;
    ReadHead([0x18]);
    ReadHead([0x1c]);
    ReadHead([0xff]);
    ReadHead([0xf8, 0x18]);
    AtHead([0x18], o);
    AtHead([0x1c], o);
    AtHead([0xff], o);
    AtHead([0xf8, 0x18], o);
  }

  /** Inputs that one option each refuses; each is accepted without it. */
  lemma RefusedByOption()
    ensures D.Decode([0x18, 0x00], DEFAULT.(rejectNonShortest := true)) == Err(DecodeError.NonShortest, 0)
    ensures D.Decode([0x9f, 0x01, 0xff], DEFAULT.(rejectIndefinite := true)) == Err(IndefiniteLength, 0)
    ensures D.Decode([0x61, 0x80], DEFAULT.(rejectInvalidUTF8 := true)) == Err(DecodeError.InvalidUTF8, 0)
    ensures D.Decode([0xc6, 0x00], DEFAULT.(rejectUnknownTags := true)) == Err(UnknownTag, 0)
    ensures D.Decode([0xf9, 0x7c, 0x00], DEFAULT.(rejectNonFinite := true)) == Err(DecodeError.NonFiniteFloat, 0)
  {
    NonShortestRefused();
    IndefiniteRefused();
    TextRefused();
    TagRefused();
    InfinityRefused();
  }

  lemma NonShortestRefused()
    ensures D.Decode([0x18, 0x00], DEFAULT.(rejectNonShortest := true)) == Err(DecodeError.NonShortest, 0)
  {
    hide ParseHead, D.Decode;
    ReadHead([0x18, 0x00]);
    assert [0x18, 0x00][0..] == [0x18, 0x00];
    AtHead([0x18, 0x00], DEFAULT.(rejectNonShortest := true));
  }

  lemma IndefiniteRefused()
    ensures D.Decode([0x9f, 0x01, 0xff], DEFAULT.(rejectIndefinite := true)) == Err(IndefiniteLength, 0)
  {
    hide ParseHead, D.Decode, D.DecodeUntilBreak;
    ReadHead([0x9f, 0x01, 0xff]);
    assert [0x9f, 0x01, 0xff][0..] == [0x9f, 0x01, 0xff];
    AtHead([0x9f, 0x01, 0xff], DEFAULT.(rejectIndefinite := true));
  }

  lemma TextRefused()
    ensures D.Decode([0x61, 0x80], DEFAULT.(rejectInvalidUTF8 := true)) == Err(DecodeError.InvalidUTF8, 0)
  {
    hide ParseHead, D.Decode, ValidUTF8;
    ReadHead([0x61, 0x80]);
    assert [0x61, 0x80][0..] == [0x61, 0x80] && [0x61, 0x80][1..2] == [0x80];
    LoneContinuation();
    AtHead([0x61, 0x80], DEFAULT.(rejectInvalidUTF8 := true));
  }

  lemma LoneContinuation()
    ensures !ValidUTF8([0x80])
  {
    assert RuneLength([0x80]) == 0;
  }

  lemma TagRefused()
    ensures D.Decode([0xc6, 0x00], DEFAULT.(rejectUnknownTags := true)) == Err(UnknownTag, 0)
  {
    hide ParseHead, D.Decode;
    ReadHead([0xc6, 0x00]);
    assert [0xc6, 0x00][0..] == [0xc6, 0x00];
    AtHead([0xc6, 0x00], DEFAULT.(rejectUnknownTags := true));
  }

  lemma InfinityRefused()
    ensures D.Decode([0xf9, 0x7c, 0x00], DEFAULT.(rejectNonFinite := true)) == Err(DecodeError.NonFiniteFloat, 0)
  {
    hide ParseHead, D.Decode, HalfToDouble, IsFinite64, D.DecodeBytes, D.DecodeText, D.DecodeArray, D.DecodeMap,
         D.DecodeTag;
    InfinityHead();
    AtHead([0xf9, 0x7c, 0x00], DEFAULT.(rejectNonFinite := true));
    InfinityIsWide();
  }

  lemma InfinityHead()
    ensures ParseHead([0xf9, 0x7c, 0x00][0..]) == Head(MAJOR_OTHER, AI_2BYTES, 0x7c00, 3)
  {
    hide ParseHead;
    ReadHead([0xf9, 0x7c, 0x00]);
    assert [0xf9, 0x7c, 0x00][0..] == [0xf9, 0x7c, 0x00];
  }

  lemma InfinityIsWide()
    ensures HalfToDouble(0x7c00) == 0x7ff0_0000_0000_0000 && !IsFinite64(0x7ff0_0000_0000_0000)
  {
  }

  /** Limits: three elements where two are allowed, three bytes where two are, three levels where two are. */
  lemma RefusedByLimit()
    ensures D.Decode([0x83, 0x01, 0x02, 0x03], DEFAULT.(maxArrayLength := 2)) == Err(MaxArrayLength, 0)
    ensures D.Decode([0x43, 0x01, 0x02, 0x03], DEFAULT.(maxByteStringLength := 2)) == Err(MaxByteStringLength, 0)
    ensures D.Decode([0x81, 0x81, 0x81, 0x00], DEFAULT.(maxNestingDepth := 2)) == Err(MaxNestingDepth, 3)
  {
    LongArrayRefused();
    LongStringRefused();
    DeepArrayRefused();
  }

  lemma LongArrayRefused()
    ensures D.Decode([0x83, 0x01, 0x02, 0x03], DEFAULT.(maxArrayLength := 2)) == Err(MaxArrayLength, 0)
  {
    hide ParseHead, D.Decode, D.DecodeItems;
    var src := [0x83, 0x01, 0x02, 0x03];
    ReadHead(src);
    assert src[0..] == src;
    AtHead(src, DEFAULT.(maxArrayLength := 2));
  }

  lemma LongStringRefused()
    ensures D.Decode([0x43, 0x01, 0x02, 0x03], DEFAULT.(maxByteStringLength := 2)) == Err(MaxByteStringLength, 0)
  {
    hide ParseHead, D.Decode;
    var src := [0x43, 0x01, 0x02, 0x03];
    ReadHead(src);
    assert src[0..] == src;
    AtHead(src, DEFAULT.(maxByteStringLength := 2));
  }

  lemma DeepArrayRefused()
    ensures D.Decode([0x81, 0x81, 0x81, 0x00], DEFAULT.(maxNestingDepth := 2)) == Err(MaxNestingDepth, 3)
  {
    hide ParseHead, D.Decode;
    var src, o := [0x81, 0x81, 0x81, 0x00], DEFAULT.(maxNestingDepth := 2);
    assert src[0..] == src && src[1..] == [0x81, 0x81, 0x00] && src[2..] == [0x81, 0x00];
    ReadHead(src);
    ReadHead(src[1..]);
    ReadHead(src[2..]);
    AtHead(src, o);
    var h := Head(MAJOR_ARRAY, 1, 1, 1);
    assert D.DecodeArray(src, 2, h, 2, o) == Err(MaxNestingDepth, 3);
    InnerArray(src, 2, 2, o);
    InnerArray(src, 1, 1, o);
  }

  /** An array of one array fails as the inner one does. */
  lemma InnerArray(src: seq<Byte>, off: nat, depth: nat, o: DecodeOpts)
    requires 0 < off < |src| && src[off] == 0x81 && ParseHead(src[off..]) == Head(MAJOR_ARRAY, 1, 1, 1)
    requires 0 < depth <= o.MaxNesting() && o.MaxArray() >= 1
    requires D.DecodeArray(src, off, Head(MAJOR_ARRAY, 1, 1, 1), depth, o).Err?
    ensures D.DecodeArray(src, off - 1, Head(MAJOR_ARRAY, 1, 1, 1), depth - 1, o) ==
            D.DecodeArray(src, off, Head(MAJOR_ARRAY, 1, 1, 1), depth, o)
  {
    hide ParseHead, D.DecodeBytes, D.DecodeText, D.DecodeMap, D.DecodeTag, D.DecodeOther, ValidUTF8;
    var r := D.DecodeArray(src, off, Head(MAJOR_ARRAY, 1, 1, 1), depth, o);
    assert D.DecodeValue(src, off, depth, o, false) == r;
    assert D.DecodeElement(src, off, depth, o) == r;
    assert D.DecodeItems(src, off, 1, [], depth, o) == Err(r.error, r.at);
  }

  /** The limits that hold when none is set. */
  lemma DefaultLimits()
    ensures DEFAULT.MaxNesting() == 256 && DEFAULT.MaxArray() == 1048576 && DEFAULT.MaxBytes() == 16777216
    ensures forall o: DecodeOpts :: o.maxNestingDepth > 0 ==> o.MaxNesting() == o.maxNestingDepth
    ensures forall o: DecodeOpts :: o.maxNestingDepth <= 0 ==> o.MaxNesting() == 256
  {
  }

  /** What the encoder refuses, and what its options admit. */
  lemma RefusedValues()
    ensures Enc(Invalid, CORE_DETERMINISTIC) == Fail(NilValue)
    ensures Enc(Tag(1, Invalid), CORE_DETERMINISTIC) == Fail(NilValue)
    ensures Enc(TextString([0x80]), CORE_DETERMINISTIC) == Fail(EncodeError.InvalidUTF8)
    ensures Enc(TextString([0x80]), CORE_DETERMINISTIC.(allowInvalidUTF8 := true)) == Done([0x61, 0x80])
    ensures Enc(TextString([0x80]), CORE_DETERMINISTIC.(skipUTF8Validation := true)) == Done([0x61, 0x80])
    ensures Enc(Float64(0x7ff0_0000_0000_0000), CORE_DETERMINISTIC) == Fail(EncodeError.NonFiniteFloat)
  {
    hide ShortestWire, ValidUTF8;
    LoneContinuation();
  }

  // ---------------------------------------------------------------- the hash of the index

  /** FNV-1a over 64 bits: the offset basis, and the hash of "a". */
  lemma HashVectors()
    ensures Fnv1a([]) == 0xcbf2_9ce4_8422_2325 && Fnv1a([0x61]) == 0xaf63_dc4c_8601_ec8c
    ensures DEDUP_THRESHOLD == 16 && SELF_DESCRIBE == 55799
  {
    hide XorBits;
    assert [0x61][..0] == [];
    BasisWithA();
    assert Fnv1a([0x61]) == XorBits(Fnv1a([]), 0x61, 64) * FNV_PRIME % 0x1_0000_0000_0000_0000;
  }

  lemma XorStep(x: nat, y: nat, n: nat)
    requires n > 0
    ensures XorBits(x, y, n) == (if x % 2 == y % 2 then 0 else 1) + 2 * XorBits(x / 2, y / 2, n - 1)
  {
  }

  lemma BasisWithA()
    ensures XorBits(0xcbf2_9ce4_8422_2325, 0x61, 64) == 0xcbf2_9ce4_8422_2344
  {
    hide XorBits;
    PowerOf57();
    KeepsBits(0x197_e539_c908_4446, 57);
    XorStep(0x32fca739210888c, 1, 58);
    XorStep(0x65f94e724211119, 3, 59);
    XorStep(0xcbf29ce48422232, 6, 60);
    XorStep(0x197e539c90844464, 12, 61);
    XorStep(0x32fca739210888c9, 24, 62);
    XorStep(0x65f94e7242111192, 48, 63);
    XorStep(0xcbf29ce484222325, 97, 64);
  }

  lemma Pow2Eight(k: nat)
    ensures Pow2(k + 8) == 256 * Pow2(k)
  {
    assert Pow2(k + 2) == 4 * Pow2(k);
    assert Pow2(k + 4) == 4 * Pow2(k + 2);
    assert Pow2(k + 6) == 4 * Pow2(k + 4);
    assert Pow2(k + 8) == 4 * Pow2(k + 6);
  }

  lemma PowerOf57()
    ensures Pow2(57) == 0x200_0000_0000_0000
  {
    hide Pow2;
    PowerOf1();
    Pow2Eight(1);
    Pow2Eight(9);
    Pow2Eight(17);
    Pow2Eight(25);
    Pow2Eight(33);
    Pow2Eight(41);
    Pow2Eight(49);
  }

  lemma PowerOf1()
    ensures Pow2(1) == 2
  {
  }
}
