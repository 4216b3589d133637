/**
 What one side seals and signs, the other opens and verifies; and the CBOR frames around
 the inputs of the key derivation, the transcript hash and the signature are injective.
 */
module EdhocAuth {
  import opened Bytes
  import opened Blocks
  import opened Wire
  import opened KeyOrder
  import opened Values
  import opened Encoding
  import opened Decoding
  import opened RoundTrip
  import opened Canonical
  import opened EdhocMessages
  import opened EdhocKeys
  import C = Ccm

  // ---------------------------------------------------------------- frames

  /** Decode options without practical limits: every sized flat value fits them. */
  const WIDE := DEFAULT.(maxByteStringLength := 0x7fff_ffff_ffff_ffff, maxArrayLength := 0x7fff_ffff_ffff_ffff)

  predicate Flat(v: Value) { v.Uint? || v.ByteString? || v.TextString? }

  lemma {:induction false} FlatItems(items: seq<Value>)
    requires forall i | 0 <= i < |items| :: Flat(items[i])
    ensures EncItems(items, CORE_DETERMINISTIC).Ok() && NormItems(items, CORE_DETERMINISTIC) == items
  {
    hide HeadBytes, StringBytes;
    if items != [] {
      assert EncInline(items[0], CORE_DETERMINISTIC).Ok();
      FlatItems(items[1..]);
    }
  }

  lemma FlatArray(items: seq<Value>)
    requires forall i | 0 <= i < |items| :: Flat(items[i])
    ensures Enc(Array(items), CORE_DETERMINISTIC).Ok() && Norm(Array(items), CORE_DETERMINISTIC) == Array(items)
    ensures Sized(Array(items)) ==> Fits(Array(items), CORE_DETERMINISTIC, WIDE, 0, Root)
  {
    FlatItems(items);
    if Sized(Array(items)) {
      forall i | 0 <= i < |items|
        ensures Fits(items[i], CORE_DETERMINISTIC, WIDE, 1, Element)
      {
        FlatFits(items[i]);
      }
    }
  }

  lemma FlatFits(v: Value)
    requires Flat(v) && Sized(v)
    ensures Fits(v, CORE_DETERMINISTIC, WIDE, 1, Element)
  {
  }

  /** Frames of flat items are injective: the bytes determine the items. */
  lemma FrameIsInjective(x: seq<Value>, y: seq<Value>)
    requires (forall i | 0 <= i < |x| :: Flat(x[i])) && (forall i | 0 <= i < |y| :: Flat(y[i]))
    requires Sized(Array(x)) && Sized(Array(y))
    requires CborEncode(Array(x)) == CborEncode(Array(y))
    ensures x == y
  {
    hide Enc, Norm, Fits, Sized;
    FlatArray(x);
    FlatArray(y);
    EncodingsAreCanonical(Array(x), Array(y), CORE_DETERMINISTIC, WIDE);
  }

  /** The input of the key derivation determines transcript hash, label and length. */
  lemma KdfInfoIsInjective(th: Bstr, name: Bstr, length: nat, th': Bstr, name': Bstr, length': nat)
    requires |th| <= MAX_LENGTH && |name| <= MAX_LENGTH && length <= MAX_LENGTH
    requires |th'| <= MAX_LENGTH && |name'| <= MAX_LENGTH && length' <= MAX_LENGTH
    requires CborEncode(KdfInfo(th, name, length)) == CborEncode(KdfInfo(th', name', length'))
    ensures th == th' && name == name' && length == length'
  {
    hide CborEncode;
    var x, y := KdfInfo(th, name, length).items, KdfInfo(th', name', length').items;
    FrameIsInjective(x, y);
    assert x[0] == y[0] && x[1] == y[1] && x[2] == y[2];
  }

  /** The signed data determines credential, transcript hash and MAC. */
  lemma SignStructIsInjective(idCred: Bstr, th: Bstr, mac: Bstr, idCred': Bstr, th': Bstr, mac': Bstr)
    requires |idCred| <= MAX_LENGTH && |th| <= MAX_LENGTH && |mac| <= MAX_LENGTH
    requires |idCred'| <= MAX_LENGTH && |th'| <= MAX_LENGTH && |mac'| <= MAX_LENGTH
    requires SignStruct(idCred, th, mac) == SignStruct(idCred', th', mac')
    ensures idCred == idCred' && th == th' && mac == mac'
  {
    hide CborEncode;
    var x, y := SignStructValue(idCred, th, mac).items, SignStructValue(idCred', th', mac').items;
    assert |Ascii("Signature1")| == 10;
    FrameIsInjective(x, y);
    assert x[1] == y[1] && x[2] == y[2] && x[3] == y[3];
  }

  lemma StringOut(b: Bstr)
    requires |b| <= MAX_LENGTH
    ensures Enc(ByteString(b), CORE_DETERMINISTIC).Ok() && Sized(ByteString(b))
    ensures Fits(ByteString(b), CORE_DETERMINISTIC, WIDE, 0, Root)
    ensures Norm(ByteString(b), CORE_DETERMINISTIC) == ByteString(b)
  {
  }

  lemma BstrPrefixFree(x: Bstr, y: Bstr)
    requires |x| <= MAX_LENGTH && |y| <= MAX_LENGTH
    requires Cbor(ByteString(x)) <= Cbor(ByteString(y))
    ensures x == y
  {
    StringOut(x);
    StringOut(y);
    hide Enc, Norm, Fits;
    EncodingsArePrefixFree(ByteString(x), ByteString(y), CORE_DETERMINISTIC, WIDE);
  }

  /** The input of TH_3 and of TH_4 determines the hash before it and the ciphertext. */
  lemma TranscriptInputIsInjective(th: Bstr, ct: Bstr, th': Bstr, ct': Bstr)
    requires |th| <= MAX_LENGTH && |ct| <= MAX_LENGTH && |th'| <= MAX_LENGTH && |ct'| <= MAX_LENGTH
    requires Cbor(ByteString(th)) + Cbor(ByteString(ct)) == Cbor(ByteString(th')) + Cbor(ByteString(ct'))
    ensures th == th' && ct == ct'
  {
    var a, b, a', b' := Cbor(ByteString(th)), Cbor(ByteString(ct)), Cbor(ByteString(th')), Cbor(ByteString(ct'));
    hide Cbor;
    assert a == (a + b)[..|a|] && a' == (a' + b')[..|a'|];
    if |a| <= |a'| {
      BstrPrefixFree(th, th');
    } else {
      BstrPrefixFree(th', th);
    }
    assert b == (a + b)[|a|..] && b' == (a' + b')[|a'|..];
    BstrPrefixFree(ct, ct');
  }

  // ---------------------------------------------------------------- honest key derivation

  lemma HonestKdf(c: Crypto, prk: Bstr, th: Bstr, name: string, length: nat)
    requires HonestCrypto(c) && length <= MAX_EXPAND
    ensures Kdf(c, prk, th, name, length).Success?
  {
    hide Enc;
    FlatArray(KdfInfo(th, Ascii(name), length).items);
  }

  lemma HonestChannel(c: Crypto, suite: CipherSuite, prk: Bstr, th: Bstr, keyLabel: string, ivLabel: string)
    requires HonestCrypto(c)
    ensures var ch := ChannelFor(c, ParamsOf(suite), prk, th, keyLabel, ivLabel);
            ch.Success? && ch.value.aead.MaxMessageLen() == 0xffff && ch.value.aead.tagSize == 8
  {
    hide Enc, Kdf;
    HonestKdf(c, prk, th, keyLabel, 16);
    HonestKdf(c, prk, th, ivLabel, 13);
    assert c.aes(Kdf(c, prk, th, keyLabel, 16).value).Some?;
    FlatArray([ByteString(th)]);
    assert Pow256(2) == 0x1_0000;
  }

  // ---------------------------------------------------------------- honest authentication

  /** The raw public key map and the token are their own normal forms. */
  lemma IdCredPortable(c: Crypto, cfg: Config)
    requires HonestCrypto(c) && cfg.HasKeys() && (IsCwt(cfg.credential) ==> |cfg.credential.value.cwt| <= MAX_CWT)
    ensures var v := IdCredValue(c, cfg); Portable(v) && Fits(v, CORE_DETERMINISTIC, DEFAULT, 0, Root)
    ensures |Cbor(IdCredValue(c, cfg))| <= MAX_CWT + 9
  {
    if !IsCwt(cfg.credential) {
      RawKeyMap(c.rawPublic(c.publicOf(cfg.privateKey.value)));
    }
  }

  lemma RawKeyMap(b: Bstr)
    requires |b| <= 133
    ensures var v := Map([MapEntry(Uint(4), ByteString(b))]);
            Portable(v) && Fits(v, CORE_DETERMINISTIC, DEFAULT, 0, Root) && |Cbor(v)| <= 200
  {
    var m := MapEntry(Uint(4), ByteString(b));
    var e := CORE_DETERMINISTIC;
    assert EncInline(m.key, e) == Done([4]);
    assert EncInline(m.value, e) == Done(StringBytes(MAJOR_BYTES, b));
    assert EncEntry(m, e) == Done([4] + StringBytes(MAJOR_BYTES, b));
    assert [m][1..] == [];
    assert EncPairs([m], e) == Then(EncEntry(m, e), Done([]));
    OneEntryNorm(m, e);
    assert Sized(ByteString(b)) && Sized(Uint(4));
    assert SizedEntry(m);
  }

  /** A map of one entry is not sorted. */
  lemma OneEntryNorm(m: MapEntry, e: EncodeOpts)
    requires Norm(m.key, e) == m.key && Norm(m.value, e) == m.value
    ensures Norm(Map([m]), e) == Map([m])
  {
    IotaOne();
    assert [0][1..] == [];
    assert NormOrdered([m], [0], e) == [NormEntry(m, e)];
  }

  lemma IotaOne()
    ensures Iota(1) == [0]
  {
  }

  lemma HonestSignStruct(idCred: Bstr, th: Bstr, mac: Bstr)
    ensures SignStruct(idCred, th, mac).Success?
  {
    hide Enc;
    FlatArray(SignStructValue(idCred, th, mac).items);
  }

  lemma ShortString(b: Bstr)
    requires |b| <= 0xffff
    ensures Enc(ByteString(b), CORE_DETERMINISTIC).Ok() && |Cbor(ByteString(b))| <= |b| + 3
  {
  }

  /** The plaintext of an authenticated message, taken apart. */
  lemma PlaintextParts(idCred: Value, signature: Bstr)
    requires Portable(idCred) && Fits(idCred, CORE_DETERMINISTIC, DEFAULT, 0, Root) && |signature| <= MAX_BYTES
    ensures var tail := Cbor(ByteString(signature));
            && DecodeOne(Cbor(idCred) + tail) == Success(Item(idCred, tail))
            && DecodeBytesItem(tail) == Success(signature)
  {
    hide Enc, DecodeOne, Fits, Cbor;
    DecodeOneOfEncode(idCred, Cbor(ByteString(signature)));
    LastBytesItem(signature);
  }

  /** The other side finds the key the message was signed with. */
  lemma HonestPeerKey(c: Crypto, me: Config, other: Config)
    requires KnowsPeer(c, other, me)
    ensures PeerKey(c, other, IdCredValue(c, me)) == Success(c.publicOf(me.privateKey.value))
  {
  }

  /** What an honest party signs over a transcript its peer accepts over the same transcript. */
  lemma AuthIsAccepted(c: Crypto, me: Config, other: Config, suite: CipherSuite, prk: Bstr, th: Bstr,
                       macLabel: string, entropy: Bstr)
    requires HonestCrypto(c) && KnowsPeer(c, other, me) && Signs(c, me)
    ensures var p := AuthPlaintext(c, me, ParamsOf(suite), prk, th, macLabel, entropy);
            && p.Success? && |p.value| <= 0xffff
            && CheckAuth(c, other, ParamsOf(suite), prk, th, macLabel, p.value) == Success(())
  {
    hide Enc, Kdf, SignStruct, DecodeOne, DecodeBytesItem, Fits, Portable, IdCredValue, PeerKey, Cbor;
    var v := IdCredValue(c, me);
    IdCredPortable(c, me);
    HonestKdf(c, prk, th, macLabel, 8);
    var idCred := CborEncode(v);
    PortableEncodes(v);
    var mac := Kdf(c, prk, th, macLabel, 8).value;
    HonestSignStruct(idCred.value, th, mac);
    var signed := SignStruct(idCred.value, th, mac).value;
    var signature := c.sign(me.privateKey.value, signed, entropy).value;
    ShortString(signature);
    PortableEncodes(ByteString(signature));
    PlaintextParts(v, signature);
    HonestPeerKey(c, me, other);
  }

  lemma PortableEncodes(v: Value)
    ensures Enc(v, CORE_DETERMINISTIC).Ok() ==> CborEncode(v) == Success(Cbor(v))
    ensures Portable(v) ==> Enc(v, CORE_DETERMINISTIC).Ok()
  {
  }
}
