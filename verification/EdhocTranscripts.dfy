/**
 What the transcript hashes commit to (edhoc/keyschedule.go:22-55). The comment there and RFC 9528
 hash message_1 before it enters TH_2; the code feeds message_1 itself, without a frame. So the input
 of TH_2 determines its parts only up to bytes after the last item of message_1, which the decoder
 ignores; the inputs of TH_3 and TH_4 are framed and determine theirs.
 */
module EdhocTranscripts {
  import opened Bytes
  import opened Blocks
  import opened Wire
  import opened Values
  import opened Encoding
  import opened Decoding
  import opened RoundTrip
  import opened Canonical
  import opened Locality
  import opened Guarantees
  import opened EdhocMessages
  import opened EdhocKeys
  import opened EdhocAuth
  import opened Edhoc

  /** The inputs of TH_2, and of TH_3 and TH_4. */
  function Input2(message1: Bstr, gy: Bstr, cr: Bstr): Bstr {
    message1 + Cbor(ByteString(gy)) + EncodeConnectionID(cr)
  }

  function InputNext(th: Bstr, ciphertext: Bstr): Bstr {
    Cbor(ByteString(th)) + Cbor(ByteString(ciphertext))
  }

  lemma InputsAreHashed(c: Crypto, message1: Bstr, gy: Bstr, cr: Bstr, th: Bstr, ciphertext: Bstr)
    ensures TH2(c, message1, gy, cr) == c.hash(Input2(message1, gy, cr))
    ensures NextTH(c, th, ciphertext) == c.hash(InputNext(th, ciphertext))
  {
  }

  // ---------------------------------------------------------------- what follows the items of message_1

  /** The bytes after the four items of message_1. */
  function Tail(data: Bstr): Bstr
    requires DecodeMessage1(data).Success?
  {
    DecodeConnectionID(DecodeOne(DecodedSuites(DecodeOne(data).value.rest).value.rest).value.rest).value.rest
  }

  /** message_1 ends with its last item. */
  predicate SelfDelimiting(data: Bstr) {
    DecodeMessage1(data).Success? && Tail(data) == []
  }

  /** The bytes of the item in front of the rest. */
  function Front(data: Bstr, rest: Bstr): Bstr
    requires |rest| <= |data|
  {
    data[..|data| - |rest|]
  }

  /** The item in front of data is the same, whatever follows it. */
  lemma OneIsLocal(data: Bstr, rest': Bstr)
    requires DecodeOne(data).Success?
    ensures var item := DecodeOne(data).value;
            && |item.rest| < |data| && data == Front(data, item.rest) + item.rest
            && DecodeOne(Front(data, item.rest) + rest') == Success(Item(item.value, rest'))
  {
    hide Decode;
    var n := Decode(data, DEFAULT).next;
    var item := DecodeOne(data).value;
    assert Front(data, item.rest) == data[..n];
    DecodeIsLocal(data, data[..n] + rest', DEFAULT);
    assert (data[..n] + rest')[n..] == rest';
  }

  lemma SuitesAreLocal(data: Bstr, rest': Bstr)
    requires DecodedSuites(data).Success?
    ensures var s := DecodedSuites(data).value;
            && |s.rest| < |data| && data == Front(data, s.rest) + s.rest
            && DecodedSuites(Front(data, s.rest) + rest') == Success(s.(rest := rest'))
  {
    hide DecodeOne, SuitesOf;
    OneIsLocal(data, rest');
  }

  lemma ConnectionIDIsLocal(data: Bstr, rest': Bstr)
    requires DecodeConnectionID(data).Success?
    ensures var s := DecodeConnectionID(data).value;
            && |s.rest| < |data| && data == Front(data, s.rest) + s.rest
            && DecodeConnectionID(Front(data, s.rest) + rest') == Success(s.(rest := rest'))
  {
    hide DecodeOne;
    OneIsLocal(data, rest');
  }

  /** The decoder sees message_1 up to its tail, and nothing of the tail. */
  lemma Message1IsLocal(data: Bstr, tail': Bstr)
    requires DecodeMessage1(data).Success?
    ensures |Tail(data)| < |data| && data == Front(data, Tail(data)) + Tail(data)
    ensures var other := Front(data, Tail(data)) + tail';
            DecodeMessage1(other) == DecodeMessage1(data) && Tail(other) == tail'
  {
    hide DecodeOne, DecodedSuites, DecodeConnectionID;
    var r1 := DecodeOne(data).value.rest;
    var r2 := DecodedSuites(r1).value.rest;
    var r3 := DecodeOne(r2).value.rest;
    var r4 := DecodeConnectionID(r3).value.rest;
    ConnectionIDIsLocal(r3, tail');
    OneIsLocal(r2, Front(r3, r4) + tail');
    SuitesAreLocal(r1, Front(r2, r3) + (Front(r3, r4) + tail'));
    OneIsLocal(data, Front(r1, r2) + (Front(r2, r3) + (Front(r3, r4) + tail')));
    FrontsJoin(data, r1, r2, r3, r4, tail');
  }

  lemma FrontsJoin(data: Bstr, r1: Bstr, r2: Bstr, r3: Bstr, r4: Bstr, tail': Bstr)
    requires |r4| <= |r3| <= |r2| <= |r1| <= |data|
    requires data == Front(data, r1) + r1 && r1 == Front(r1, r2) + r2 && r2 == Front(r2, r3) + r3
             && r3 == Front(r3, r4) + r4
    ensures data == Front(data, r4) + r4
    ensures Front(data, r4) + tail' == Front(data, r1) + (Front(r1, r2) + (Front(r2, r3) + (Front(r3, r4) + tail')))
  {
    assert data == Front(data, r1) + (Front(r1, r2) + (Front(r2, r3) + (Front(r3, r4) + r4)));
    assert data[..|data| - |r4|] == Front(data, r1) + (Front(r1, r2) + (Front(r2, r3) + Front(r3, r4)));
  }

  /** Two readings of the front of the same bytes are one reading. */
  lemma SameFront(x: Bstr, y: Bstr, s: Bstr)
    requires x <= s && y <= s && DecodeMessage1(x).Success? && DecodeMessage1(y).Success?
    ensures DecodeMessage1(x) == DecodeMessage1(y)
  {
    hide DecodeMessage1, Tail;
    if |x| <= |y| {
      FrontOfLonger(x, y);
    } else {
      FrontOfLonger(y, x);
    }
  }

  lemma FrontOfLonger(x: Bstr, y: Bstr)
    requires x <= y && DecodeMessage1(x).Success? && DecodeMessage1(y).Success?
    ensures DecodeMessage1(x) == DecodeMessage1(y)
    ensures |Tail(x)| <= |x| && |Tail(y)| <= |y| && Front(x, Tail(x)) == Front(y, Tail(y))
  {
    hide DecodeMessage1, Tail;
    Message1IsLocal(y, []);
    Message1IsLocal(x, Tail(x) + y[|x|..]);
    assert Front(x, Tail(x)) + (Tail(x) + y[|x|..]) == y;
  }

  // ---------------------------------------------------------------- what the input of TH_2 determines

  lemma ConnectionIDFits(cid: Bstr)
    requires |cid| <= MAX_LENGTH
    ensures var v := ConnectionIDValue(cid);
            Enc(v, CORE_DETERMINISTIC).Ok() && Sized(v) && Fits(v, CORE_DETERMINISTIC, WIDE, 0, Root)
            && Norm(v, CORE_DETERMINISTIC) == v
  {
  }

  lemma ConnectionIDInjective(x: Bstr, y: Bstr)
    requires |x| <= MAX_LENGTH && |y| <= MAX_LENGTH && EncodeConnectionID(x) == EncodeConnectionID(y)
    ensures x == y
  {
    ConnectionIDFits(x);
    ConnectionIDFits(y);
    hide Enc, Norm, Fits;
    EncodingsArePrefixFree(ConnectionIDValue(x), ConnectionIDValue(y), CORE_DETERMINISTIC, WIDE);
    assert |x| == 1 && x[0] < 24 ==> x == [x[0]];
    assert |y| == 1 && y[0] < 24 ==> y == [y[0]];
  }

  /** G_Y and C_R, framed one after the other, are determined. */
  lemma DataIsInjective(gy: Bstr, cr: Bstr, gy': Bstr, cr': Bstr)
    requires |gy| <= MAX_LENGTH && |cr| <= MAX_LENGTH && |gy'| <= MAX_LENGTH && |cr'| <= MAX_LENGTH
    requires Cbor(ByteString(gy)) + EncodeConnectionID(cr) == Cbor(ByteString(gy')) + EncodeConnectionID(cr')
    ensures gy == gy' && cr == cr'
  {
    var a, b, a', b' := Cbor(ByteString(gy)), EncodeConnectionID(cr), Cbor(ByteString(gy')), EncodeConnectionID(cr');
    hide Cbor, EncodeConnectionID;
    assert a == (a + b)[..|a|] && a' == (a' + b')[..|a'|];
    if |a| <= |a'| {
      BstrPrefixFree(gy, gy');
    } else {
      BstrPrefixFree(gy', gy);
    }
    assert b == (a + b)[|a|..] && b' == (a' + b')[|a'|..];
    ConnectionIDInjective(cr, cr');
  }

  /** The parts that enter TH_2 have lengths an int can hold. */
  predicate SizedParts(gy: Bstr, cr: Bstr) { |gy| <= MAX_LENGTH && |cr| <= MAX_LENGTH }

  /**
   Equal inputs of TH_2 have equal parts if and only if the two message_1 have one length. That is so
   if both end with their last item; and if both can be decoded, they decode alike in any case.
   */
  lemma Input2IsInjective(m: Bstr, gy: Bstr, cr: Bstr, m': Bstr, gy': Bstr, cr': Bstr)
    requires SizedParts(gy, cr) && SizedParts(gy', cr') && Input2(m, gy, cr) == Input2(m', gy', cr')
    ensures (m == m' && gy == gy' && cr == cr') <==> |m| == |m'|
    ensures DecodeMessage1(m).Success? && DecodeMessage1(m').Success? ==> DecodeMessage1(m) == DecodeMessage1(m')
    ensures SelfDelimiting(m) && SelfDelimiting(m') ==> m == m' && gy == gy' && cr == cr'
  {
    var d, d' := Cbor(ByteString(gy)) + EncodeConnectionID(cr), Cbor(ByteString(gy')) + EncodeConnectionID(cr');
    hide Cbor, EncodeConnectionID, DecodeMessage1, Tail;
    var s := Input2(m, gy, cr);
    assert s == m + d && s == m' + d';
    if |m| == |m'| {
      assert m == s[..|m|] && m' == s[..|m|] && d == s[|m|..] && d' == s[|m|..];
      DataIsInjective(gy, cr, gy', cr');
    }
    if DecodeMessage1(m).Success? && DecodeMessage1(m').Success? {
      SameFront(m, m', s);
      if SelfDelimiting(m) && SelfDelimiting(m') {
        SelfDelimitingLength(m, m', s);
      }
    }
  }

  lemma SelfDelimitingLength(x: Bstr, y: Bstr, s: Bstr)
    requires x <= s && y <= s && SelfDelimiting(x) && SelfDelimiting(y)
    ensures |x| == |y|
  {
    if |x| <= |y| {
      NothingBehind(x, y);
    } else {
      NothingBehind(y, x);
    }
  }

  lemma NothingBehind(x: Bstr, y: Bstr)
    requires x <= y && SelfDelimiting(x) && SelfDelimiting(y)
    ensures |x| == |y|
  {
    hide DecodeMessage1, Tail;
    Message1IsLocal(x, y[|x|..]);
    assert Front(x, Tail(x)) + y[|x|..] == y;
  }

  // ---------------------------------------------------------------- where it is not determined

  /** A connection identifier that holds a framed share and another connection identifier. */
  function LongID(gy': Bstr, cr': Bstr): Bstr { Cbor(ByteString(gy')) + EncodeConnectionID(cr') }

  /** message_1 followed by the share and the head of that identifier. */
  function Followed(m: Bstr, gy: Bstr, gy': Bstr, cr': Bstr): Bstr {
    m + Cbor(ByteString(gy)) + HeadBytes(MAJOR_BYTES, Len64(|LongID(gy', cr')|))
  }

  lemma LongIDBytes(gy': Bstr, cr': Bstr)
    ensures EncodeConnectionID(LongID(gy', cr')) == HeadBytes(MAJOR_BYTES, Len64(|LongID(gy', cr')|)) + LongID(gy', cr')
  {
    hide HeadBytes;
    assert |HeadBytes(MAJOR_BYTES, Len64(|gy'|))| > 0;
    assert |EncodeConnectionID(cr')| > 0;
  }

  /**
   Every message_1 that decodes has longer companions with bytes behind its last item that decode to
   the same content and, with other shares and identifiers, have the same TH_2, whatever the hash.
   */
  lemma TH2IsNotInjective(c: Crypto, m: Bstr, gy: Bstr, gy': Bstr, cr': Bstr)
    requires DecodeMessage1(m).Success?
    ensures var m' := Followed(m, gy, gy', cr');
            && DecodeMessage1(m') == DecodeMessage1(m) && m' != m && !SelfDelimiting(m')
            && TH2(c, m', gy', cr') == TH2(c, m, gy, LongID(gy', cr'))
  {
    hide Cbor, EncodeConnectionID, DecodeMessage1, Tail, HeadBytes;
    var head := HeadBytes(MAJOR_BYTES, Len64(|LongID(gy', cr')|));
    var m' := Followed(m, gy, gy', cr');
    LongIDBytes(gy', cr');
    assert Input2(m, gy, LongID(gy', cr')) == Input2(m', gy', cr');
    Message1IsLocal(m, Tail(m) + (Cbor(ByteString(gy)) + head));
    assert Front(m, Tail(m)) + (Tail(m) + (Cbor(ByteString(gy)) + head)) == m';
    assert |head| > 0;
  }

  /** Without a message that decodes there are short examples: an empty message_1, and one of one byte. */
  lemma ShortInputsCollide(c: Crypto)
    ensures TH2(c, [0x41], [], [0]) == TH2(c, [], [0x40], [0])
  {
    assert Cbor(ByteString([])) == [0x40] && Cbor(ByteString([0x40])) == [0x41, 0x40];
    assert [0x41] + [0x40] == [] + [0x41, 0x40];
  }

  // ---------------------------------------------------------------- separate derivations

  /** One call of the key derivation. */
  datatype Derivation = Derivation(th: Bstr, name: string, length: nat)

  /** Every call a session makes; the three PRKs it uses for them are equal (edhoc/initiator.go:140-142). */
  function Derivations(s: Session): (d: seq<Derivation>)
    ensures |d| == 10
  {
    [Derivation(s.th2, "K_2e", s.sp.keySize), Derivation(s.th2, "IV_2e", s.sp.nonceLen),
     Derivation(s.th2, "MAC_2", s.sp.tagSize),
     Derivation(s.th3, "K_3e", s.sp.keySize), Derivation(s.th3, "IV_3e", s.sp.nonceLen),
     Derivation(s.th3, "MAC_3", s.sp.tagSize),
     Derivation(s.th4, "K_4", s.sp.keySize), Derivation(s.th4, "IV_4", s.sp.nonceLen),
     Derivation(s.th4, "OSCORE_Master_Secret", 16), Derivation(s.th4, "OSCORE_Master_Salt", 8)]
  }

  function InfoOf(d: Derivation): Value { KdfInfo(d.th, Ascii(d.name), d.length) }

  predicate SizedSession(s: Session) {
    && |s.th2| <= MAX_LENGTH && |s.th3| <= MAX_LENGTH && |s.th4| <= MAX_LENGTH
    && s.sp.keySize <= MAX_LENGTH && s.sp.nonceLen <= MAX_LENGTH && s.sp.tagSize <= MAX_LENGTH
  }

  lemma AsciiInjective(x: string, y: string)
    requires (forall i | 0 <= i < |x| :: x[i] as int < 0x80) && (forall i | 0 <= i < |y| :: y[i] as int < 0x80)
    requires Ascii(x) == Ascii(y)
    ensures x == y
  {
    assert |Ascii(x)| == |x| && |Ascii(y)| == |y|;
    forall i | 0 <= i < |x|
      ensures x[i] == y[i]
    {
      assert Ascii(x)[i] == Ascii(y)[i];
    }
  }

  lemma NamesDiffer(s: Session, t: Session, i: nat, j: nat)
    requires i < 10 && j < 10 && Derivations(s)[i].name == Derivations(t)[j].name
    ensures i == j
  {
    var x, y := Derivations(s)[i].name, Derivations(t)[j].name;
    assert |x| == |y|;
    assert |x| == 4 ==> x[0] == y[0] && x[2] == y[2];
    assert |x| == 5 ==> x[0] == y[0] && x[3] == y[3] && x[4] == y[4];
  }

  lemma NamesAreShort(s: Session, i: nat)
    requires i < 10
    ensures var x := Derivations(s)[i].name; |x| <= 20 && forall k | 0 <= k < |x| :: x[k] as int < 0x80
  {
  }

  /**
   Although one PRK serves all derivations, no two of them have the same input: in one session, or in
   any two, equal inputs mean the same derivation over the same transcript hash.
   */
  lemma DerivationsAreSeparated(s: Session, t: Session, i: nat, j: nat)
    requires SizedSession(s) && SizedSession(t) && i < 10 && j < 10
    ensures CborEncode(InfoOf(Derivations(s)[i])) == CborEncode(InfoOf(Derivations(t)[j])) <==>
            i == j && Derivations(s)[i] == Derivations(t)[j]
  {
    hide CborEncode, Ascii;
    var d, d' := Derivations(s)[i], Derivations(t)[j];
    if CborEncode(InfoOf(d)) == CborEncode(InfoOf(d')) {
      NamesAreShort(s, i);
      NamesAreShort(t, j);
      AsciiLength(d.name);
      AsciiLength(d'.name);
      KdfInfoIsInjective(d.th, Ascii(d.name), d.length, d'.th, Ascii(d'.name), d'.length);
      AsciiInjective(d.name, d'.name);
      NamesDiffer(s, t, i, j);
    }
  }

  lemma AsciiLength(x: string)
    ensures |Ascii(x)| == |x|
  {
  }

  // ---------------------------------------------------------------- exports

  lemma {:induction false} DigitsAre(n: nat)
    ensures forall i | 0 <= i < |Digits(n)| :: '0' <= Digits(n)[i] <= '9'
    ensures |Digits(n)| <= n / 10 + 1
  {
    if n >= 10 {
      DigitsAre(n / 10);
    }
  }

  lemma {:induction false} DigitsInjective(m: nat, n: nat)
    requires Digits(m) == Digits(n)
    ensures m == n
  {
    var x, y := Digits(m), Digits(n);
    assert x[|x| - 1] == ('0' as int + m % 10) as char && y[|y| - 1] == ('0' as int + n % 10) as char;
    if m >= 10 && n >= 10 {
      assert x[..|x| - 1] == Digits(m / 10) && y[..|y| - 1] == Digits(n / 10);
      DigitsInjective(m / 10, n / 10);
    }
  }

  lemma DecimalInjective(m: int, n: int)
    requires Decimal(m) == Decimal(n)
    ensures m == n
  {
    DigitsAre(if m < 0 then -m else m);
    DigitsAre(if n < 0 then -n else n);
    assert (m < 0 <==> Decimal(m)[0] == '-') && (n < 0 <==> Decimal(n)[0] == '-');
    if m < 0 && n < 0 {
      assert Decimal(m)[1..] == Digits(-m) && Decimal(n)[1..] == Digits(-n);
      DigitsInjective(-m, -n);
    } else if m >= 0 && n >= 0 {
      DigitsInjective(m, n);
    }
  }

  function ExporterName(number: int): string { "EDHOC_Exporter_" + Decimal(number) }

  lemma ExporterNameIs(number: I64)
    ensures var x := ExporterName(number);
            |Ascii(x)| == |x| <= MAX_LENGTH && forall k | 0 <= k < |x| :: x[k] as int < 0x80
  {
    var n: int := number;
    DigitsAre(if n < 0 then -n else n);
  }

  /** The input of an export determines the transcript hash, the label number, the context and the length. */
  lemma ExportsAreSeparated(th: Bstr, number: I64, context: Bstr, length: nat,
                            th': Bstr, number': I64, context': Bstr, length': nat)
    requires |th| <= MAX_LENGTH && |context| <= MAX_LENGTH && length <= MAX_LENGTH
    requires |th'| <= MAX_LENGTH && |context'| <= MAX_LENGTH && length' <= MAX_LENGTH
    requires CborEncode(ExporterInfo(th, number, context, length)) ==
             CborEncode(ExporterInfo(th', number', context', length'))
    ensures th == th' && number == number' && context == context' && length == length'
  {
    hide CborEncode, Ascii, Decimal;
    var x, y := ExporterInfo(th, number, context, length).items, ExporterInfo(th', number', context', length').items;
    ExporterNameIs(number);
    ExporterNameIs(number');
    FrameIsInjective(x, y);
    assert x[0] == y[0] && x[1] == y[1] && x[2] == y[2] && x[3] == y[3];
    AsciiInjective(ExporterName(number), ExporterName(number'));
    assert ExporterName(number)[15..] == Decimal(number) && ExporterName(number')[15..] == Decimal(number');
    DecimalInjective(number, number');
  }

  /** No export has the input of a derivation of a session. */
  lemma ExportsAreNotDerivations(s: Session, i: nat, th: Bstr, number: I64, context: Bstr, length: nat)
    requires SizedSession(s) && i < 10
    requires |th| <= MAX_LENGTH && |context| <= MAX_LENGTH && length <= MAX_LENGTH
    ensures CborEncode(ExporterInfo(th, number, context, length)) != CborEncode(InfoOf(Derivations(s)[i]))
  {
    hide CborEncode, Ascii, Decimal;
    if CborEncode(ExporterInfo(th, number, context, length)) == CborEncode(InfoOf(Derivations(s)[i])) {
      ExporterNameIs(number);
      NamesAreShort(s, i);
      AsciiLength(Derivations(s)[i].name);
      FrameIsInjective(ExporterInfo(th, number, context, length).items, InfoOf(Derivations(s)[i]).items);
    }
  }
}
