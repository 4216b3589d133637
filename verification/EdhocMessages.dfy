/**
 The EDHOC messages (edhoc/message.go): concatenations of CBOR items that the other side
 takes apart again, one item at a time.
 */
module EdhocMessages {
  import opened Bytes
  import opened Blocks
  import opened Wire
  import opened Values
  import opened Encoding
  import opened Decoding
  import opened RoundTrip
  import opened Canonical

  type I64 = x: int | -0x8000_0000_0000_0000 <= x < 0x8000_0000_0000_0000

  /** uint64(i). */
  function ToU64(i: I64): U64 { i % 0x1_0000_0000_0000_0000 }

  /** int64(u). */
  function ToI64(u: U64): I64 { if u < 0x8000_0000_0000_0000 then u else u - 0x1_0000_0000_0000_0000 }

  /** A cipher suite number; suites 0 and 2 are supported. */
  type CipherSuite = I64

  /** `Codec` is an encoding error passed on as it is; `Panicked` stands for a panic of the AEAD. */
  datatype EdhocError =
    | Authentication | MessageFormat | StateViolation | UnsupportedSuite
    | KeyGeneration | KeyDerivation | AeadParameters | Codec(cause: EncodeError) | Panicked

  // ---------------------------------------------------------------- single items

  /** cborEncodeValue into an empty buffer. */
  function CborEncode(v: Value): Result<seq<Byte>, EdhocError> {
    var r := Enc(v, CORE_DETERMINISTIC);
    match r.err
    case None => Success(r.out)
    case Some(e) => Failure(Codec(e))
  }

  /** What cborEncodeValue appends for items that always encode. */
  function Cbor(v: Value): seq<Byte> { Enc(v, CORE_DETERMINISTIC).out }

  datatype Item = Item(value: Value, rest: seq<Byte>)

  /** decodeOneValue: every caller turns its error into ErrMessageFormat. */
  function DecodeOne(data: seq<Byte>): Result<Item, EdhocError> {
    if data == [] then Failure(MessageFormat)
    else
      match Decode(data, DEFAULT)
      case Ok(v, next) => Success(Item(v, data[next..]))
      case Err(_, _) => Failure(MessageFormat)
  }

  /** An item that encodes, fits the default limits and is its own normal form comes back. */
  predicate Portable(v: Value) {
    Enc(v, CORE_DETERMINISTIC).Ok() && Sized(v) && Norm(v, CORE_DETERMINISTIC) == v
  }

  lemma DecodeOneOfEncode(v: Value, rest: seq<Byte>)
    requires Portable(v)
    ensures DecodeOne(Cbor(v) + rest) == Success(Item(v, rest)) <==> Fits(v, CORE_DETERMINISTIC, DEFAULT, 0, Root)
  {
    var b := Cbor(v);
    DecodeOfEncode(v, CORE_DETERMINISTIC, DEFAULT, rest);
    assert (b + rest)[|b|..] == rest;
    hide Enc, Norm, Fits, Decode, Sized;
    if Fits(v, CORE_DETERMINISTIC, DEFAULT, 0, Root) {
      assert Decode(b + rest, DEFAULT).next > 0;
    } else if Decode(b + rest, DEFAULT).Ok? {
      assert Decode(b + rest, DEFAULT).next == |b|;
    }
  }

  /** maxByteStringLength of the default options. */
  const MAX_BYTES: nat := 0x100_0000
  /** maxArrayLength of the default options. */
  const MAX_ITEMS: nat := 0x10_0000

  lemma UintItem(n: U64, rest: seq<Byte>)
    ensures DecodeOne(Cbor(Uint(n)) + rest) == Success(Item(Uint(n), rest))
  {
    DecodeOneOfEncode(Uint(n), rest);
  }

  lemma BytesItem(b: seq<Byte>, rest: seq<Byte>)
    requires |b| <= MAX_LENGTH
    ensures DecodeOne(Cbor(ByteString(b)) + rest) == Success(Item(ByteString(b), rest)) <==> |b| <= MAX_BYTES
  {
    DecodeOneOfEncode(ByteString(b), rest);
  }

  /** The last item of a message. */
  lemma LastBytesItem(b: seq<Byte>)
    requires |b| <= MAX_BYTES
    ensures DecodeOne(Cbor(ByteString(b))) == Success(Item(ByteString(b), []))
  {
    BytesItem(b, []);
    assert Cbor(ByteString(b)) + [] == Cbor(ByteString(b));
  }

  // ---------------------------------------------------------------- connection identifiers

  function ConnectionIDValue(cid: seq<Byte>): Value {
    if |cid| == 1 && cid[0] < 24 then Uint(cid[0]) else ByteString(cid)
  }

  function EncodeConnectionID(cid: seq<Byte>): seq<Byte> { Cbor(ConnectionIDValue(cid)) }

  datatype ConnectionID = ConnectionID(cid: seq<Byte>, rest: seq<Byte>)

  function DecodeConnectionID(data: seq<Byte>): Result<ConnectionID, EdhocError> {
    match DecodeOne(data)
    case Failure(e) => Failure(e)
    case Success(item) =>
      match item.value
      case Uint(n) => Success(ConnectionID([n % 0x100], item.rest))
      case ByteString(b) => Success(ConnectionID(b, item.rest))
      case _ => Failure(MessageFormat)
  }

  lemma ConnectionIDRoundTrip(cid: seq<Byte>, rest: seq<Byte>)
    requires |cid| <= MAX_LENGTH
    ensures DecodeConnectionID(EncodeConnectionID(cid) + rest) == Success(ConnectionID(cid, rest))
            <==> |cid| <= MAX_BYTES
  {
    hide DecodeOne, Cbor;
    if |cid| == 1 && cid[0] < 24 {
      UintItem(cid[0], rest);
      assert cid == [cid[0]];
    } else {
      BytesItem(cid, rest);
    }
  }

  // ---------------------------------------------------------------- suites

  function SuiteValues(suites: seq<CipherSuite>): (vs: seq<Value>)
    ensures |vs| == |suites|
    ensures forall i | 0 <= i < |vs| :: vs[i] == Uint(ToU64(suites[i]))
  {
    seq(|suites|, i requires 0 <= i < |suites| => Uint(ToU64(suites[i])))
  }

  /** One suite is written as an integer, any other number of them as an array. */
  function SuitesValue(suites: seq<CipherSuite>): Value {
    if |suites| == 1 then Uint(ToU64(suites[0])) else Array(SuiteValues(suites))
  }

  datatype Suites = Suites(suites: seq<CipherSuite>, selected: CipherSuite, rest: seq<Byte>)

  function SuitesOf(v: Value): Option<seq<CipherSuite>> {
    match v
    case Uint(n) => Some([ToI64(n)])
    case Array(items) =>
      if items == [] || (exists i | 0 <= i < |items| :: !items[i].Uint?) then None
      else Some(seq(|items|, i requires 0 <= i < |items| && items[i].Uint? => ToI64(items[i].n)))
    case _ => None
  }

  function DecodedSuites(data: seq<Byte>): Result<Suites, EdhocError> {
    match DecodeOne(data)
    case Failure(e) => Failure(e)
    case Success(item) =>
      match SuitesOf(item.value)
      case None => Failure(MessageFormat)
      case Some(suites) => Success(Suites(suites, if suites == [] then 0 else suites[0], item.rest))
  }

  /** decodeSuites, with the loop that fills the slice. */
  method DecodeSuites(data: seq<Byte>) returns (r: Result<Suites, EdhocError>)
    ensures r == DecodedSuites(data)
  {
    hide DecodeOne;
    var d := DecodeOne(data);
    if d.Failure? {
      return Failure(d.error);
    }
    var v, rest := d.value.value, d.value.rest;
    match v {
      case Uint(n) =>
        var s := ToI64(n);
        return Success(Suites([s], s, rest));
      case Array(items) =>
        if |items| == 0 {
          return Failure(MessageFormat);
        }
        var suites := new CipherSuite[|items|];
        var i := 0;
        while i < |items|
          invariant i <= |items|
          invariant forall k | 0 <= k < i :: items[k].Uint? && suites[k] == ToI64(items[k].n)
        {
          if !items[i].Uint? {
            return Failure(MessageFormat);
          }
          suites[i] := ToI64(items[i].n);
          i := i + 1;
        }
        assert suites[..] == SuitesOf(v).value;
        return Success(Suites(suites[..], suites[0], rest));
      case _ =>
        return Failure(MessageFormat);
    }
  }

  lemma SuitesOfValue(suites: seq<CipherSuite>)
    ensures SuitesOf(SuitesValue(suites)) == if suites == [] then None else Some(suites)
  {
    if |suites| == 1 {
      assert suites == [suites[0]];
    } else if suites != [] {
      var items := SuiteValues(suites);
      assert SuitesOf(Array(items)).value == suites;
    }
  }

  lemma {:induction false} SuiteItems(items: seq<Value>)
    requires forall i | 0 <= i < |items| :: items[i].Uint?
    ensures EncItems(items, CORE_DETERMINISTIC).Ok() && NormItems(items, CORE_DETERMINISTIC) == items
  {
    if items != [] {
      assert EncInline(items[0], CORE_DETERMINISTIC) == Done(HeadBytes(MAJOR_UINT, items[0].n));
      SuiteItems(items[1..]);
    }
  }

  lemma SuitesPortable(suites: seq<CipherSuite>)
    requires |suites| <= MAX_LENGTH
    ensures Portable(SuitesValue(suites))
    ensures Fits(SuitesValue(suites), CORE_DETERMINISTIC, DEFAULT, 0, Root) <==> |suites| <= MAX_ITEMS
  {
    var v := SuitesValue(suites);
    if |suites| != 1 {
      SuiteItems(v.items);
    }
  }

  lemma SuitesRoundTrip(suites: seq<CipherSuite>, rest: seq<Byte>)
    requires suites != [] && |suites| <= MAX_ITEMS
    ensures DecodedSuites(Cbor(SuitesValue(suites)) + rest) == Success(Suites(suites, suites[0], rest))
  {
    hide SuitesValue, DecodeOne, Cbor, Portable, Fits;
    SuitesPortable(suites);
    SuitesOfValue(suites);
    DecodeOneOfEncode(SuitesValue(suites), rest);
  }

  // ---------------------------------------------------------------- messages

  datatype Message1 = Message1(methodNumber: I64, suites: seq<CipherSuite>, selected: CipherSuite, gx: seq<Byte>,
                               ci: seq<Byte>)
  datatype Message2 = Message2(gy: seq<Byte>, cr: seq<Byte>, ciphertext: seq<Byte>)

  function EncodeMessage1(m: Message1): seq<Byte> {
    Cbor(Uint(ToU64(m.methodNumber))) +
      (Cbor(SuitesValue(m.suites)) + (Cbor(ByteString(m.gx)) + EncodeConnectionID(m.ci)))
  }

  function DecodeMessage1(data: seq<Byte>): Result<Message1, EdhocError> {
    match DecodeOne(data)
    case Failure(e) => Failure(e)
    case Success(first) =>
      if !first.value.Uint? then Failure(MessageFormat)
      else
        match DecodedSuites(first.rest)
        case Failure(e) => Failure(e)
        case Success(s) =>
          match DecodeOne(s.rest)
          case Failure(e) => Failure(e)
          case Success(gx) =>
            if !gx.value.ByteString? then Failure(MessageFormat)
            else
              match DecodeConnectionID(gx.rest)
              case Failure(e) => Failure(e)
              case Success(c) => Success(Message1(ToI64(first.value.n), s.suites, s.selected, gx.value.b, c.cid))
  }

  function EncodeMessage2(m: Message2): seq<Byte> {
    Cbor(ByteString(m.gy)) + (EncodeConnectionID(m.cr) + Cbor(ByteString(m.ciphertext)))
  }

  function DecodeMessage2(data: seq<Byte>): Result<Message2, EdhocError> {
    match DecodeOne(data)
    case Failure(e) => Failure(e)
    case Success(gy) =>
      if !gy.value.ByteString? then Failure(MessageFormat)
      else
        match DecodeConnectionID(gy.rest)
        case Failure(e) => Failure(e)
        case Success(c) =>
          match DecodeBytesItem(c.rest)
          case Failure(e) => Failure(e)
          case Success(ct) => Success(Message2(gy.value.b, c.cid, ct))
  }

  /** decodeMessage3, and how message_4 and signatures are read: a byte string, what follows is ignored. */
  function DecodeBytesItem(data: seq<Byte>): Result<seq<Byte>, EdhocError> {
    match DecodeOne(data)
    case Failure(e) => Failure(e)
    case Success(ct) => if ct.value.ByteString? then Success(ct.value.b) else Failure(MessageFormat)
  }

  /** The conditions under which the parts of a message come back. */
  predicate Message1Fits(m: Message1) {
    0 < |m.suites| <= MAX_ITEMS && |m.gx| <= MAX_BYTES && |m.ci| <= MAX_BYTES
  }

  lemma Message1RoundTrip(m: Message1)
    requires Message1Fits(m)
    ensures DecodeMessage1(EncodeMessage1(m)) == Success(m.(selected := m.suites[0]))
  {
    hide DecodeOne, Cbor, DecodedSuites, DecodeConnectionID, EncodeConnectionID, SuitesValue;
    var tail := Cbor(ByteString(m.gx)) + EncodeConnectionID(m.ci);
    UintItem(ToU64(m.methodNumber), Cbor(SuitesValue(m.suites)) + tail);
    SuitesRoundTrip(m.suites, tail);
    BytesItem(m.gx, EncodeConnectionID(m.ci));
    ConnectionIDRoundTrip(m.ci, []);
    assert EncodeConnectionID(m.ci) + [] == EncodeConnectionID(m.ci);
  }

  predicate Message2Fits(m: Message2) {
    |m.gy| <= MAX_BYTES && |m.cr| <= MAX_BYTES && |m.ciphertext| <= MAX_BYTES
  }

  lemma Message2RoundTrip(m: Message2)
    requires Message2Fits(m)
    ensures DecodeMessage2(EncodeMessage2(m)) == Success(m)
  {
    hide DecodeOne, Cbor, DecodeConnectionID, EncodeConnectionID;
    BytesItem(m.gy, EncodeConnectionID(m.cr) + Cbor(ByteString(m.ciphertext)));
    ConnectionIDRoundTrip(m.cr, Cbor(ByteString(m.ciphertext)));
    LastBytesItem(m.ciphertext);
  }
}
