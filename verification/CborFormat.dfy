/**
 The data items of RFC 8949 byte by byte: heads, what an initial byte announces, and how floats are written.
 */
module CborFormat {
  import opened Bytes
  import opened Octets
  import opened Wire
  import opened Floats
  import opened Values
  import opened Encoding
  import D = Decoding
  import opened Decoding

  // ---------------------------------------------------------------- heads

  /** A written head: the argument in the initial byte, or in the fewest of 1, 2, 4 or 8 bytes behind it. */
  lemma WrittenHead(major: Major, n: U64)
    ensures n < 24 ==> HeadBytes(major, n) == [32 * major + n]
    ensures 24 <= n < 0x100 ==> HeadBytes(major, n) == [32 * major + 24, n]
    ensures 0x100 <= n < 0x1_0000 ==> HeadBytes(major, n) == [32 * major + 25, ByteAt(n, 1), ByteAt(n, 0)]
    ensures 0x1_0000 <= n < 0x1_0000_0000 ==>
              HeadBytes(major, n) == [32 * major + 26, ByteAt(n, 3), ByteAt(n, 2), ByteAt(n, 1), ByteAt(n, 0)]
    ensures n >= 0x1_0000_0000 ==>
              HeadBytes(major, n) == [32 * major + 27, ByteAt(n, 7), ByteAt(n, 6), ByteAt(n, 5), ByteAt(n, 4),
                                      ByteAt(n, 3), ByteAt(n, 2), ByteAt(n, 1), ByteAt(n, 0)]
  {
    hide BE;
    BigEndianForms(n);
  }

  /** A big-endian number of two, four and eight bytes. */
  function Number2(s: seq<Byte>, i: nat): nat
    requires i + 2 <= |s|
  {
    0x100 * (s[i] as int) + s[i + 1]
  }

  function Number4(s: seq<Byte>, i: nat): nat
    requires i + 4 <= |s|
  {
    0x1_0000 * Number2(s, i) + Number2(s, i + 2)
  }

  function Number8(s: seq<Byte>, i: nat): nat
    requires i + 8 <= |s|
  {
    0x1_0000_0000 * Number4(s, i) + Number4(s, i + 4)
  }

  lemma FromBESnoc(s: seq<Byte>, b: Byte)
    ensures FromBE(s + [b]) == FromBE(s) * 0x100 + b
  {
    assert (s + [b])[..|s|] == s;
  }

  lemma FromTwo(s: seq<Byte>, a: Byte, b: Byte)
    ensures FromBE(s + [a, b]) == FromBE(s) * 0x1_0000 + a * 0x100 + b
  {
    FromBESnoc(s, a);
    FromBESnoc(s + [a], b);
    assert s + [a] + [b] == s + [a, b];
  }

  /** Arguments of 1, 2, 4 and 8 bytes are read most significant byte first. */
  lemma ReadArgument(s: seq<Byte>)
    ensures |s| >= 2 ==> FromBE(s[1..2]) == s[1]
    ensures |s| >= 3 ==> FromBE(s[1..3]) == Number2(s, 1)
    ensures |s| >= 5 ==> FromBE(s[1..5]) == Number4(s, 1)
    ensures |s| >= 9 ==> FromBE(s[1..9]) == Number8(s, 1)
  {
    hide FromBE;
    Nothing();
    if |s| >= 2 {
      FromBESnoc([], s[1]);
      assert s[1..2] == [] + [s[1]];
    }
    if |s| >= 3 {
      FromTwo([], s[1], s[2]);
      assert s[1..3] == [] + [s[1], s[2]];
    }
    if |s| >= 5 {
      FromTwo(s[1..3], s[3], s[4]);
      assert s[1..5] == s[1..3] + [s[3], s[4]];
    }
    if |s| >= 9 {
      FromTwo(s[1..5], s[5], s[6]);
      FromTwo(s[1..7], s[7], s[8]);
      assert s[1..7] == s[1..5] + [s[5], s[6]] && s[1..9] == s[1..7] + [s[7], s[8]];
    }
  }

  lemma Nothing()
    ensures FromBE([]) == 0
  {
  }

  /** What a head is, by its initial byte; one that is not whole has length 0. */
  lemma ReadHead(s: seq<Byte>)
    requires s != []
    ensures var major, ai := s[0] / 32, s[0] % 32;
            ParseHead(s) ==
            if ai < 24 then Head(major, ai, ai, 1)
            else if ai == 24 then if |s| < 2 then NO_HEAD else Head(major, 24, s[1], 2)
            else if ai == 25 then if |s| < 3 then NO_HEAD else Head(major, 25, Number2(s, 1), 3)
            else if ai == 26 then if |s| < 5 then NO_HEAD else Head(major, 26, Number4(s, 1), 5)
            else if ai == 27 then if |s| < 9 then NO_HEAD else Head(major, 27, Number8(s, 1), 9)
            else Head(major, ai, 0, 1)
    ensures NO_HEAD.n == 0
  {
    hide FromBE, Number4, Number8;
    ReadArgument(s);
  }

  // ---------------------------------------------------------------- what an initial byte announces

  /** What the value is that starts with this byte. */
  predicate Announces(src: seq<Byte>, off: nat, h: Head, v: Value, next: nat, strip: bool)
    requires off < |src|
  {
    var b := src[off];
    if b < 0x20 then v == Uint(h.arg) && next == off + h.n
    else if b < 0x40 then v == NegInt(h.arg) && next == off + h.n
    else if b < 0x60 then
      v.ByteString? && (b != 0x5f ==> next == off + h.n + h.arg <= |src| && v.b == src[off + h.n..next])
    else if b < 0x80 then
      v.TextString? && (b != 0x7f ==> next == off + h.n + h.arg <= |src| && v.s == src[off + h.n..next])
    else if b < 0xa0 then v.Array? && (b != 0x9f ==> |v.items| == h.arg)
    else if b < 0xc0 then v.Map? && (b != 0xbf ==> |v.pairs| <= h.arg)
    else if b < 0xe0 then (strip && h.arg == 55799) || (v.Tag? && v.id == h.arg)
    else if b < 0xf4 then v == Simple(b - 0xe0) && next == off + 1
    else if b < 0xf6 then v == Bool(b == 0xf5) && next == off + 1
    else if b == 0xf6 then v == Null && next == off + 1
    else if b == 0xf7 then v == Undefined && next == off + 1
    else if b == 0xf8 then off + 2 <= |src| && v == Simple(src[off + 1]) && src[off + 1] >= 32 && next == off + 2
    else if b == 0xf9 then
      off + 3 <= |src| && v.Float64? && Num64(v.double) == Num16(Number2(src, off + 1)) && next == off + 3
    else if b == 0xfa then off + 5 <= |src| && v == Float32(Number4(src, off + 1)) && next == off + 5
    else b == 0xfb && off + 9 <= |src| && v == Float64(Number8(src, off + 1)) && next == off + 9
  }

  lemma Numbers(src: seq<Byte>, off: nat)
    requires off < |src|
    ensures var s := src[off..];
            && (|s| >= 3 ==> Number2(s, 1) == Number2(src, off + 1) < 0x1_0000)
            && (|s| >= 5 ==> Number4(s, 1) == Number4(src, off + 1) < 0x1_0000_0000)
            && (|s| >= 9 ==> Number8(s, 1) == Number8(src, off + 1) < 0x1_0000_0000_0000_0000)
  {
  }

  /** A whole head that stands at off. */
  predicate HeadAt(src: seq<Byte>, off: nat, h: Head) {
    off < |src| && h == ParseHead(src[off..]) && h.n > 0
  }

  lemma HeadFields(src: seq<Byte>, off: nat, h: Head)
    requires HeadAt(src, off, h)
    ensures off + h.n <= |src| && src[off] == 32 * h.major + h.ai && h.ai < 32
  {
    hide ParseHead;
    ReadHead(src[off..]);
  }

  /** Every decoded value is of the kind its initial byte announces, with the argument that stands there. */
  lemma InitialByteDecides(src: seq<Byte>, off: nat, depth: nat, o: DecodeOpts, strip: bool)
    requires off <= |src| && D.DecodeValue(src, off, depth, o, strip).Ok?
    ensures var r := D.DecodeValue(src, off, depth, o, strip);
            off < |src| && Announces(src, off, ParseHead(src[off..]), r.value, r.next, strip)
  {
    hide ParseHead, Announces, D.DecodeArray, D.DecodeMap, D.DecodeOther, D.DecodeBytes, D.DecodeText, D.DecodeTag;
    var h := ParseHead(src[off..]);
    HeadFields(src, off, h);
    if h.major == MAJOR_UINT || h.major == MAJOR_NEGINT {
      IntegerForms(src, off, h, strip);
    } else if h.major == MAJOR_BYTES || h.major == MAJOR_TEXT {
      StringForms(src, off, h, o, strip);
    } else if h.major == MAJOR_TAG {
      TagForms(src, off, h, depth, o, strip);
    } else if h.major == MAJOR_OTHER {
      OtherForms(src, off, h, o, strip);
    } else {
      ContainerForms(src, off, h, depth, o, strip);
    }
  }

  lemma IntegerForms(src: seq<Byte>, off: nat, h: Head, strip: bool)
    requires HeadAt(src, off, h)
    ensures h.major == MAJOR_UINT ==> Announces(src, off, h, Uint(h.arg), off + h.n, strip)
    ensures h.major == MAJOR_NEGINT ==> Announces(src, off, h, NegInt(h.arg), off + h.n, strip)
  {
    hide ParseHead, Num16, Num64, Number2, Number4, Number8;
    HeadFields(src, off, h);
  }

  lemma StringForms(src: seq<Byte>, off: nat, h: Head, o: DecodeOpts, strip: bool)
    requires HeadAt(src, off, h)
    ensures var r := D.DecodeBytes(src, off, h, o);
            h.major == MAJOR_BYTES && r.Ok? ==> Announces(src, off, h, r.value, r.next, strip)
    ensures var r := D.DecodeText(src, off, h, o);
            h.major == MAJOR_TEXT && r.Ok? ==> Announces(src, off, h, r.value, r.next, strip)
  {
    hide ParseHead, ValidUTF8, DecodeChunks, Num16, Num64, Number2, Number4, Number8;
    HeadFields(src, off, h);
  }

  lemma TagForms(src: seq<Byte>, off: nat, h: Head, depth: nat, o: DecodeOpts, strip: bool)
    requires HeadAt(src, off, h) && h.major == MAJOR_TAG && D.DecodeTag(src, off, h, depth, o, strip).Ok?
    ensures var r := D.DecodeTag(src, off, h, depth, o, strip); Announces(src, off, h, r.value, r.next, strip)
  {
    hide ParseHead, D.DecodeValue, Num16, Num64, Number2, Number4, Number8;
    HeadFields(src, off, h);
  }

  lemma OtherForms(src: seq<Byte>, off: nat, h: Head, o: DecodeOpts, strip: bool)
    requires HeadAt(src, off, h) && h.major == MAJOR_OTHER && D.DecodeOther(off, h, o).Ok?
    ensures var r := D.DecodeOther(off, h, o); Announces(src, off, h, r.value, r.next, strip)
  {
    hide ParseHead, HalfToDouble, Num16, Num64, Number2, Number4, Number8;
    HeadFields(src, off, h);
    ReadHead(src[off..]);
    Numbers(src, off);
  }

  lemma ContainerForms(src: seq<Byte>, off: nat, h: Head, depth: nat, o: DecodeOpts, strip: bool)
    requires HeadAt(src, off, h) && off + h.n <= |src|
    ensures var r := D.DecodeArray(src, off, h, depth, o);
            h.major == MAJOR_ARRAY && r.Ok? ==> Announces(src, off, h, r.value, r.next, strip)
    ensures var r := D.DecodeMap(src, off, h, depth, o);
            h.major == MAJOR_MAP && r.Ok? ==> Announces(src, off, h, r.value, r.next, strip)
  {
    hide ParseHead, D.DecodeArray, D.DecodeMap, Num16, Num64, Number2, Number4, Number8;
    HeadFields(src, off, h);
    if h.major == MAJOR_ARRAY && D.DecodeArray(src, off, h, depth, o).Ok? {
      ArrayLength(src, off, h, depth, o);
    }
    if h.major == MAJOR_MAP && D.DecodeMap(src, off, h, depth, o).Ok? {
      MapLength(src, off, h, depth, o);
    }
  }

  lemma ArrayLength(src: seq<Byte>, off: nat, h: Head, depth: nat, o: DecodeOpts)
    requires off + h.n <= |src| && h.n > 0 && D.DecodeArray(src, off, h, depth, o).Ok?
    ensures var v := D.DecodeArray(src, off, h, depth, o).value;
            v.Array? && (h.ai != AI_INDEFINITE ==> |v.items| == h.arg)
  {
    hide D.DecodeItems, D.DecodeUntilBreak;
    if h.ai != AI_INDEFINITE {
      ItemsLength(src, off + h.n, h.arg, [], depth + 1, o);
    }
  }

  lemma {:induction false} ItemsLength(src: seq<Byte>, pos: nat, count: nat, arr: seq<Value>, depth: nat, o: DecodeOpts)
    requires pos <= |src| && D.DecodeItems(src, pos, count, arr, depth, o).Ok?
    ensures |D.DecodeItems(src, pos, count, arr, depth, o).value| == |arr| + count
    decreases count
  {
    hide D.DecodeElement;
    if count > 0 {
      var e := D.DecodeElement(src, pos, depth, o);
      ItemsLength(src, e.next, count - 1, arr + [e.value], depth, o);
    }
  }

  lemma MapLength(src: seq<Byte>, off: nat, h: Head, depth: nat, o: DecodeOpts)
    requires off + h.n <= |src| && h.n > 0 && D.DecodeMap(src, off, h, depth, o).Ok?
    ensures var v := D.DecodeMap(src, off, h, depth, o).value;
            v.Map? && (h.ai != AI_INDEFINITE ==> |v.pairs| <= h.arg)
  {
    hide D.DecodePairs, D.DecodePairsUntilBreak;
    if h.ai != AI_INDEFINITE {
      PairsLength(src, off + h.n, h.arg, NO_PAIRS, h.arg > DEDUP_THRESHOLD, depth + 1, o);
    }
  }

  lemma {:induction false} PairsLength(src: seq<Byte>, pos: nat, count: nat, m: Pairs, dedup: bool, depth: nat,
                                       o: DecodeOpts)
    requires pos <= |src| && m.Valid() && D.DecodePairs(src, pos, count, m, dedup, depth, o).Ok?
    ensures |D.DecodePairs(src, pos, count, m, dedup, depth, o).value.entries| <= |m.entries| + count
    decreases count
  {
    hide D.DecodeKey, D.DecodeValue, D.FindKey, Fnv1a;
    if count > 0 {
      var r := D.DecodePair(src, pos, D.DecodeKey(src, pos, depth, o), m, dedup, depth, o);
      PairsLength(src, r.next, count - 1, r.value, dedup, depth, o);
    }
  }

  // ---------------------------------------------------------------- floats and other leaves

  /** A float on the wire. */
  function FloatLiteral(w: FloatWire): seq<Byte> {
    match w
    case W16(h) => [0xf9, ByteAt(h, 1), ByteAt(h, 0)]
    case W32(c) => [0xfa, ByteAt(c, 3), ByteAt(c, 2), ByteAt(c, 1), ByteAt(c, 0)]
    case W64(b) => [0xfb, ByteAt(b, 7), ByteAt(b, 6), ByteAt(b, 5), ByteAt(b, 4), ByteAt(b, 3), ByteAt(b, 2),
                    ByteAt(b, 1), ByteAt(b, 0)]
  }

  /** The number of a float value. */
  function NumberOf(v: Value): Number
    requires IsFloat(v)
  {
    if v.Float32? then Num32(v.single) else Num64(v.double)
  }

  lemma FinitenessIs(v: Value)
    requires IsFloat(v)
    ensures IsFiniteFloat(v) <==> NumberOf(v).Finite?
  {
  }

  /**
   How a float is written: as the number it is, in nine bytes if that is asked for, in the fewest of three,
   five and nine bytes in the deterministic modes, and otherwise bit for bit in its own width.
   */
  lemma FloatForms(v: Value, o: EncodeOpts)
    requires IsFloat(v)
    ensures Enc(v, o).Ok() <==> o.allowNonFinite || NumberOf(v).Finite?
    ensures !Enc(v, o).Ok() ==> Enc(v, o) == Fail(EncodeError.NonFiniteFloat)
    ensures Enc(v, o).Ok() ==>
              var w := FloatWireOf(v, o);
              && Enc(v, o).out == FloatLiteral(w) && WireNum(w) == NumberOf(v)
              && (o.floatMode.Force64? ==> w.W64?)
              && (o.floatMode.Shortest? && o.deterministic ==>
                    && (w.W16? <==> exists h: U16 :: Num16(h) == NumberOf(v))
                    && (w.W64? <==> (forall h: U16 :: Num16(h) != NumberOf(v))
                                    && (forall c: U32 :: Num32(c) != NumberOf(v))))
              && (o.floatMode.Preserve? || (o.floatMode.Shortest? && !o.deterministic) ==>
                    w == if v.Float32? then W32(v.single) else W64(v.double))
  {
    hide ShortestWire, SingleToDouble, Num16, Num32, Num64, IsFiniteFloat;
    FinitenessIs(v);
    var wide := if v.Float32? then SingleToDouble(v.single) else v.double;
    ShortestWireIsExactAndMinimal(wide);
    FloatBytesAre(FloatWireOf(v, o));
  }

  lemma FloatBytesAre(w: FloatWire)
    ensures FloatBytes(w) == FloatLiteral(w)
  {
    hide BE, ByteAt;
    match w
    case W16(h) => BigEndianForms(h);
    case W32(c) => BigEndianForms(c);
    case W64(b) => BigEndianForms(b);
  }
}
