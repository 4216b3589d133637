/**
 The bytes of EDHOC (edhoc/keyschedule.go, edhoc/message.go and what both parties do with them): what is
 hashed, signed, expanded and sent, written out, and which derivation each operation uses.
 */
module EdhocFormat {
  import opened Bytes
  import opened Blocks
  import opened Wire
  import opened Values
  import opened Encoding
  import opened RoundTrip
  import opened Canonical
  import opened EdhocMessages
  import opened EdhocKeys
  import opened EdhocAuth
  import opened Edhoc
  import opened EdhocTranscripts
  import C = Ccm

  // ---------------------------------------------------------------- strings and arrays

  /** A byte string behind its length in one, two or three bytes. */
  lemma BstrForm(b: Bstr)
    ensures |b| < 24 ==> Cbor(ByteString(b)) == [0x40 + |b|] + b
    ensures 24 <= |b| < 0x100 ==> Cbor(ByteString(b)) == [0x58, |b|] + b
    ensures 0x100 <= |b| < 0x1_0000 ==> Cbor(ByteString(b)) == [0x59, |b| / 0x100, |b| % 0x100] + b
  {
    hide HeadBytes;
    BstrHead(|b|);
  }

  lemma BstrHead(n: nat)
    ensures n < 24 ==> HeadBytes(MAJOR_BYTES, Len64(n)) == [0x40 + n]
    ensures 24 <= n < 0x100 ==> HeadBytes(MAJOR_BYTES, Len64(n)) == [0x58, n]
    ensures 0x100 <= n < 0x1_0000 ==> HeadBytes(MAJOR_BYTES, Len64(n)) == [0x59, n / 0x100, n % 0x100]
  {
    hide BE;
    if n < 0x100 {
      OneByteBE(n);
    }
    if n < 0x1_0000 {
      TwoByteBE(n);
    }
  }

  lemma OneByteBE(n: Byte)
    ensures BE(n, 1) == [n]
  {
  }

  lemma TwoByteBE(n: nat)
    requires n < 0x1_0000
    ensures BE(n, 2) == [n / 0x100, n % 0x100]
  {
    OneByteBE(n / 0x100);
    BELast(n, 1);
  }

  lemma BELast(n: nat, k: nat)
    ensures BE(n, k + 1) == BE(n / 0x100, k) + [n % 0x100]
  {
  }

  lemma TstrForm(s: Bstr)
    requires |s| < 24
    ensures Out(TextString(s), CORE_DETERMINISTIC) == [0x60 + |s|] + s
  {
  }

  lemma UintForm(n: nat)
    requires n < 24
    ensures Cbor(Uint(n)) == [n]
  {
  }

  /** An array of up to 23 flat items is its head and they. */
  lemma ArrayForm(items: seq<Value>)
    requires |items| < 24 && forall i | 0 <= i < |items| :: Flat(items[i])
    ensures CborEncode(Array(items)) == Success([0x80 + |items|] + ItemsOut(items, CORE_DETERMINISTIC))
  {
    hide Enc, HeadBytes, Norm, ItemsOut, Flat;
    FlatArray(items);
    ArrayEncodes(items, CORE_DETERMINISTIC);
    ShortHead(MAJOR_ARRAY, |items|);
  }

  lemma ShortHead(major: Major, n: nat)
    requires n < 24
    ensures HeadBytes(major, Len64(n)) == [32 * major + n]
  {
  }

  lemma ThreeItems(a: Value, b: Value, c: Value)
    ensures ItemsOut([a, b, c], CORE_DETERMINISTIC) ==
            Out(a, CORE_DETERMINISTIC) + (Out(b, CORE_DETERMINISTIC) + Out(c, CORE_DETERMINISTIC))
  {
    hide Out;
    assert [a, b, c][1..] == [b, c] && [b, c][1..] == [c] && [c][1..] == [];
    assert ItemsOut([c], CORE_DETERMINISTIC) == Out(c, CORE_DETERMINISTIC) + ItemsOut([], CORE_DETERMINISTIC);
    assert ItemsOut([b, c], CORE_DETERMINISTIC) == Out(b, CORE_DETERMINISTIC) + ItemsOut([c], CORE_DETERMINISTIC);
  }

  lemma FourItems(a: Value, b: Value, c: Value, d: Value)
    ensures ItemsOut([a, b, c, d], CORE_DETERMINISTIC) ==
            Out(a, CORE_DETERMINISTIC)
            + (Out(b, CORE_DETERMINISTIC) + (Out(c, CORE_DETERMINISTIC) + Out(d, CORE_DETERMINISTIC)))
  {
    hide Out;
    assert [a, b, c, d][1..] == [b, c, d];
    ThreeItems(b, c, d);
  }

  // ---------------------------------------------------------------- the key derivation

  const K_2E: Bstr := [0x4b, 0x5f, 0x32, 0x65]
  const IV_2E: Bstr := [0x49, 0x56, 0x5f, 0x32, 0x65]
  const MAC_2: Bstr := [0x4d, 0x41, 0x43, 0x5f, 0x32]
  const K_3E: Bstr := [0x4b, 0x5f, 0x33, 0x65]
  const IV_3E: Bstr := [0x49, 0x56, 0x5f, 0x33, 0x65]
  const MAC_3: Bstr := [0x4d, 0x41, 0x43, 0x5f, 0x33]
  const K_4: Bstr := [0x4b, 0x5f, 0x34]
  const IV_4: Bstr := [0x49, 0x56, 0x5f, 0x34]
  const OSCORE_MASTER_SECRET: Bstr := [0x4f, 0x53, 0x43, 0x4f, 0x52, 0x45, 0x5f, 0x4d, 0x61, 0x73, 0x74, 0x65, 0x72,
                                       0x5f, 0x53, 0x65, 0x63, 0x72, 0x65, 0x74]
  const OSCORE_MASTER_SALT: Bstr := [0x4f, 0x53, 0x43, 0x4f, 0x52, 0x45, 0x5f, 0x4d, 0x61, 0x73, 0x74, 0x65, 0x72, 0x5f,
                                     0x53, 0x61, 0x6c, 0x74]

  lemma Labels()
    ensures Ascii("K_2e") == K_2E && Ascii("IV_2e") == IV_2E && Ascii("MAC_2") == MAC_2
    ensures Ascii("K_3e") == K_3E && Ascii("IV_3e") == IV_3E && Ascii("MAC_3") == MAC_3
    ensures Ascii("K_4") == K_4 && Ascii("IV_4") == IV_4
  {
  }

  lemma OscoreLabels()
    ensures Ascii("OSCORE_Master_Secret") == OSCORE_MASTER_SECRET
    ensures Ascii("OSCORE_Master_Salt") == OSCORE_MASTER_SALT
  {
  }

  /** [th, label, length] in CBOR, for a 32-byte hash, a short label and a short length. */
  function InfoBytes(th: Bstr, text: Bstr, length: nat): Bstr
    requires |text| < 24 && length < 24
  {
    [0x83, 0x58, 0x20] + th + ([0x60 + |text|] + text + [length])
  }

  lemma InfoForm(th: Bstr, text: Bstr, length: nat)
    requires |th| == 32 && |text| < 24 && length < 24
    ensures CborEncode(KdfInfo(th, text, length)) == Success(InfoBytes(th, text, length))
  {
    hide Enc, CborEncode, HeadBytes, StringBytes, ItemsOut;
    ArrayForm(KdfInfo(th, text, length).items);
    ThreeItems(ByteString(th), TextString(text), Uint(length));
    BstrForm(th);
    TstrForm(text);
    UintForm(length);
    OutIsCbor(ByteString(th));
    OutIsCbor(Uint(length));
    assert [0x83] + ([0x58, 0x20] + th + (([0x60 + |text|] + text) + [length])) == InfoBytes(th, text, length);
  }

  lemma OutIsCbor(v: Value)
    requires !v.TextString?
    ensures Out(v, CORE_DETERMINISTIC) == Cbor(v)
  {
  }

  /** The first bytes of the expansion of that, if it is long enough. */
  function Derived(c: Crypto, prk: Bstr, th: Bstr, text: Bstr, length: nat): Option<Bstr>
    requires |text| < 24 && length < 24
  {
    var stream := c.expand(prk, InfoBytes(th, text, length));
    if |stream| < length then None else Some(stream[..length])
  }

  /** The key derivation expands exactly those bytes. */
  lemma KdfIsDerived(c: Crypto, prk: Bstr, th: Bstr, name: string, length: nat)
    requires |th| == 32 && |name| < 24 && length < 24
    ensures |Ascii(name)| == |name|
    ensures var d := Derived(c, prk, th, Ascii(name), length);
            Kdf(c, prk, th, name, length) == if d.None? then Failure(KeyDerivation) else Success(d.value)
  {
    hide CborEncode, InfoBytes;
    AsciiLength(name);
    InfoForm(th, Ascii(name), length);
  }

  /** What the ten derivations of a session expand. */
  lemma DerivationBytes(s: Session)
    requires |s.th2| == |s.th3| == |s.th4| == 32 && s.sp == ParamsOf(s.suite)
    ensures var d := Derivations(s);
            && CborEncode(EdhocTranscripts.InfoOf(d[0])) == Success(InfoBytes(s.th2, K_2E, 16))
            && CborEncode(EdhocTranscripts.InfoOf(d[1])) == Success(InfoBytes(s.th2, IV_2E, 13))
            && CborEncode(EdhocTranscripts.InfoOf(d[2])) == Success(InfoBytes(s.th2, MAC_2, 8))
            && CborEncode(EdhocTranscripts.InfoOf(d[3])) == Success(InfoBytes(s.th3, K_3E, 16))
            && CborEncode(EdhocTranscripts.InfoOf(d[4])) == Success(InfoBytes(s.th3, IV_3E, 13))
            && CborEncode(EdhocTranscripts.InfoOf(d[5])) == Success(InfoBytes(s.th3, MAC_3, 8))
            && CborEncode(EdhocTranscripts.InfoOf(d[6])) == Success(InfoBytes(s.th4, K_4, 16))
            && CborEncode(EdhocTranscripts.InfoOf(d[7])) == Success(InfoBytes(s.th4, IV_4, 13))
            && CborEncode(EdhocTranscripts.InfoOf(d[8])) == Success(InfoBytes(s.th4, OSCORE_MASTER_SECRET, 16))
            && CborEncode(EdhocTranscripts.InfoOf(d[9])) == Success(InfoBytes(s.th4, OSCORE_MASTER_SALT, 8))
  {
    hide CborEncode, InfoBytes, Ascii;
    Labels();
    OscoreLabels();
    InfoForm(s.th2, K_2E, 16);
    InfoForm(s.th2, IV_2E, 13);
    InfoForm(s.th2, MAC_2, 8);
    InfoForm(s.th3, K_3E, 16);
    InfoForm(s.th3, IV_3E, 13);
    InfoForm(s.th3, MAC_3, 8);
    InfoForm(s.th4, K_4, 16);
    InfoForm(s.th4, IV_4, 13);
    InfoForm(s.th4, OSCORE_MASTER_SECRET, 16);
    InfoForm(s.th4, OSCORE_MASTER_SALT, 8);
  }

  // ---------------------------------------------------------------- sealing

  /**
   The ciphertext is the plaintext sealed with AES-CCM-16-64-128 under the key and the nonce derived with these
   labels over th, with [th] in CBOR as additional data.
   */
  ghost predicate Protects(c: Crypto, prk: Bstr, th: Bstr, keyLabel: Bstr, ivLabel: Bstr, plaintext: Bstr,
                           ciphertext: Bstr)
    requires |keyLabel| < 24 && |ivLabel| < 24
  {
    var key, iv := Derived(c, prk, th, keyLabel, 16), Derived(c, prk, th, ivLabel, 13);
    && key.Some? && iv.Some? && c.aes(key.value).Some? && |plaintext| <= 0xffff
    && ciphertext == C.Sealed(C.Ccm(c.aes(key.value).value, 8, 13), iv.value, plaintext, [0x81, 0x58, 0x20] + th)
  }

  lemma ChannelForm(c: Crypto, suite: CipherSuite, prk: Bstr, th: Bstr, keyName: string, ivName: string)
    requires |th| == 32 && |keyName| < 24 && |ivName| < 24
    ensures |Ascii(keyName)| == |keyName| && |Ascii(ivName)| == |ivName|
    ensures var ch := ChannelFor(c, ParamsOf(suite), prk, th, keyName, ivName);
            var key, iv := Derived(c, prk, th, Ascii(keyName), 16), Derived(c, prk, th, Ascii(ivName), 13);
            && (ch.Success? <==> key.Some? && iv.Some? && c.aes(key.value).Some?)
            && (ch.Success? ==>
                  ch.value == Channel(C.Ccm(c.aes(key.value).value, 8, 13), iv.value, [0x81, 0x58, 0x20] + th))
  {
    hide Kdf, CborEncode, Derived, Ascii;
    KdfIsDerived(c, prk, th, keyName, 16);
    KdfIsDerived(c, prk, th, ivName, 13);
    AadForm(th);
  }

  lemma AadForm(th: Bstr)
    requires |th| == 32
    ensures CborEncode(Array([ByteString(th)])) == Success([0x81, 0x58, 0x20] + th)
  {
    hide CborEncode, Out;
    ArrayForm([ByteString(th)]);
    assert [ByteString(th)][1..] == [];
    OutIsCbor(ByteString(th));
    BstrForm(th);
    assert ItemsOut([ByteString(th)], CORE_DETERMINISTIC) == Out(ByteString(th), CORE_DETERMINISTIC) + [];
    assert [0x81] + (([0x58, 0x20] + th) + []) == [0x81, 0x58, 0x20] + th;
  }

  /** Sealing on a channel is that, and opening is its inverse. */
  lemma ChannelProtects(c: Crypto, suite: CipherSuite, prk: Bstr, th: Bstr, keyName: string, ivName: string,
                        plaintext: Bstr, ciphertext: Bstr)
    requires |th| == 32 && |keyName| < 24 && |ivName| < 24
    ensures |Ascii(keyName)| == |keyName| && |Ascii(ivName)| == |ivName|
    ensures var ch := ChannelFor(c, ParamsOf(suite), prk, th, keyName, ivName);
            && (ch.Success? && SealOn(ch.value, plaintext) == Success(ciphertext) <==>
                Protects(c, prk, th, Ascii(keyName), Ascii(ivName), plaintext, ciphertext))
            && (ch.Success? && OpenOn(ch.value, ciphertext) == Success(plaintext) <==>
                Protects(c, prk, th, Ascii(keyName), Ascii(ivName), plaintext, ciphertext))
  {
    hide Ascii, Derived, ChannelFor, C.Sealed, C.Opened;
    ChannelForm(c, suite, prk, th, keyName, ivName);
    var ch := ChannelFor(c, ParamsOf(suite), prk, th, keyName, ivName);
    if ch.Success? {
      OpenUndoesSeal(ch.value, plaintext, ciphertext);
      assert Pow256(2) == 0x1_0000;
    }
  }

  // ---------------------------------------------------------------- signing

  /** [ "Signature1", ID_CRED, th, MAC ] in CBOR. */
  function SignatureInput(idCred: Bstr, th: Bstr, mac: Bstr): Bstr {
    [0x84, 0x6a, 0x53, 0x69, 0x67, 0x6e, 0x61, 0x74, 0x75, 0x72, 0x65, 0x31]
    + (Cbor(ByteString(idCred)) + (Cbor(ByteString(th)) + Cbor(ByteString(mac))))
  }

  /** What is signed and verified. */
  lemma SignStructForm(idCred: Bstr, th: Bstr, mac: Bstr)
    ensures SignStruct(idCred, th, mac) == Success(SignatureInput(idCred, th, mac))
  {
    hide CborEncode, Cbor, Out, Ascii, ItemsOut;
    var items := SignStructValue(idCred, th, mac).items;
    var name := Ascii("Signature1");
    SignatureLabel();
    ArrayForm(items);
    FourItems(TextString(name), ByteString(idCred), ByteString(th), ByteString(mac));
    TstrForm(name);
    OutIsCbor(ByteString(idCred));
    OutIsCbor(ByteString(th));
    OutIsCbor(ByteString(mac));
    var tail := Cbor(ByteString(idCred)) + (Cbor(ByteString(th)) + Cbor(ByteString(mac)));
    assert [0x84] + (([0x6a] + name) + tail) == SignatureInput(idCred, th, mac);
  }

  lemma SignatureLabel()
    ensures Ascii("Signature1") == [0x53, 0x69, 0x67, 0x6e, 0x61, 0x74, 0x75, 0x72, 0x65, 0x31]
  {
  }

  /** The item that identifies a credential: the token, or { 4: raw public key }. */
  function IdCredBytes(c: Crypto, cfg: Config): Bstr
    requires cfg.HasKeys()
  {
    if IsCwt(cfg.credential) then Cbor(ByteString(cfg.credential.value.cwt))
    else [0xa1, 0x04] + Cbor(ByteString(c.rawPublic(c.publicOf(cfg.privateKey.value))))
  }

  lemma IdCredForm(c: Crypto, cfg: Config)
    requires cfg.HasKeys()
    ensures CborEncode(IdCredValue(c, cfg)) == Success(IdCredBytes(c, cfg))
  {
    if !IsCwt(cfg.credential) {
      RawKeyForm(c.rawPublic(c.publicOf(cfg.privateKey.value)));
    }
  }

  lemma RawKeyForm(b: Bstr)
    ensures CborEncode(Map([MapEntry(Uint(4), ByteString(b))])) == Success([0xa1, 0x04] + Cbor(ByteString(b)))
  {
    var m, e := MapEntry(Uint(4), ByteString(b)), CORE_DETERMINISTIC;
    hide StringBytes, MapBody;
    assert EncInline(m.key, e) == Done([4]) && EncInline(m.value, e) == Done(StringBytes(MAJOR_BYTES, b));
    assert EncEntry(m, e) == Done([4] + StringBytes(MAJOR_BYTES, b));
    assert [m][1..] == [];
    assert EncPairs([m], e) == Then(EncEntry(m, e), Done([]));
    OneEntryBody(m, e);
    ShortHead(MAJOR_MAP, 1);
    assert Enc(Map([m]), e) == Then(Done([0xa1]), MapBody([m], e));
    assert [0xa1] + (([4] + StringBytes(MAJOR_BYTES, b)) + []) == [0xa1, 0x04] + StringBytes(MAJOR_BYTES, b);
  }

  lemma OneEntryBody(m: MapEntry, e: EncodeOpts)
    ensures MapBody([m], e) == EncPairs([m], e)
  {
    hide EncPairs;
  }

  /** The plaintext is ID_CRED and a signature of this party, over the MAC derived with the label over th. */
  ghost predicate Signed(c: Crypto, cfg: Config, prk: Bstr, th: Bstr, macLabel: Bstr, entropy: Bstr, plaintext: Bstr)
    requires cfg.HasKeys() && |macLabel| < 24
  {
    var mac := Derived(c, prk, th, macLabel, 8);
    && mac.Some?
    && var signature := c.sign(cfg.privateKey.value, SignatureInput(IdCredBytes(c, cfg), th, mac.value), entropy);
    && signature.Some? && plaintext == IdCredBytes(c, cfg) + Cbor(ByteString(signature.value))
  }

  lemma AuthIsSigned(c: Crypto, cfg: Config, suite: CipherSuite, prk: Bstr, th: Bstr, macName: string, entropy: Bstr,
                     plaintext: Bstr)
    requires cfg.HasKeys() && |th| == 32 && |macName| < 24
    ensures |Ascii(macName)| == |macName|
    ensures AuthPlaintext(c, cfg, ParamsOf(suite), prk, th, macName, entropy) == Success(plaintext) <==>
            Signed(c, cfg, prk, th, Ascii(macName), entropy, plaintext)
  {
    hide Kdf, Derived, SignStruct, SignatureInput, IdCredBytes, IdCredValue, Ascii;
    KdfIsDerived(c, prk, th, macName, 8);
    IdCredForm(c, cfg);
    var mac := Derived(c, prk, th, Ascii(macName), 8);
    if mac.Some? {
      SignStructForm(IdCredBytes(c, cfg), th, mac.value);
    }
    forall b: Bstr
      ensures CborEncode(ByteString(b)) == Success(Cbor(ByteString(b)))
    {
    }
  }

  /** The plaintext is an item and a signature that verifies, under the peer's key, over that item written again. */
  ghost predicate Checked(c: Crypto, cfg: Config, prk: Bstr, th: Bstr, macLabel: Bstr, plaintext: Bstr)
    requires cfg.HasKeys() && |macLabel| < 24
  {
    var mac, idCred := Derived(c, prk, th, macLabel, 8), DecodeOne(plaintext);
    && mac.Some? && idCred.Success?
    && var signature, key := DecodeBytesItem(idCred.value.rest), PeerKey(c, cfg, idCred.value.value);
    && signature.Success? && key.Success? && CborEncode(idCred.value.value).Success?
    && c.verify(key.value, SignatureInput(Cbor(idCred.value.value), th, mac.value), signature.value)
  }

  lemma CheckIsChecked(c: Crypto, cfg: Config, suite: CipherSuite, prk: Bstr, th: Bstr, macName: string,
                       plaintext: Bstr)
    requires cfg.HasKeys() && |th| == 32 && |macName| < 24
    ensures |Ascii(macName)| == |macName|
    ensures CheckAuth(c, cfg, ParamsOf(suite), prk, th, macName, plaintext) == Success(()) <==>
            Checked(c, cfg, prk, th, Ascii(macName), plaintext)
  {
    hide Kdf, Derived, SignStruct, SignatureInput, DecodeOne, DecodeBytesItem, PeerKey, Ascii, Enc;
    KdfIsDerived(c, prk, th, macName, 8);
    var mac, idCred := Derived(c, prk, th, Ascii(macName), 8), DecodeOne(plaintext);
    if mac.Some? && idCred.Success? {
      SignStructForm(Cbor(idCred.value.value), th, mac.value);
    }
  }

  // ---------------------------------------------------------------- which derivation is used where

  /** The session has its keys and the parameters of its suite. */
  predicate Suited(s: Session) { s.cfg.HasKeys() && s.sp == ParamsOf(s.suite) }

  /** CIPHERTEXT_2 is sealed with K_2e and IV_2e around a signature over MAC_2, all over TH_2. */
  lemma Message2Derivations(c: Crypto, s: Session, entropy: Bstr, ciphertext: Bstr)
    requires Suited(s) && |s.th2| == 32
    ensures SealMessage2(c, s, entropy) == Success(ciphertext) <==>
            exists p: Bstr :: Signed(c, s.cfg, s.prk3e2m, s.th2, MAC_2, entropy, p)
                              && Protects(c, s.prk2e, s.th2, K_2E, IV_2E, p, ciphertext)
    ensures OpenMessage2(c, s, ciphertext) == Success(()) <==>
            exists p: Bstr :: Protects(c, s.prk2e, s.th2, K_2E, IV_2E, p, ciphertext)
                              && Checked(c, s.cfg, s.prk3e2m, s.th2, MAC_2, p)
  {
    hide ChannelFor, SealOn, OpenOn, AuthPlaintext, CheckAuth, Signed, Checked, Protects, Ascii;
    Labels();
    forall p: Bstr
      ensures AuthPlaintext(c, s.cfg, s.sp, s.prk3e2m, s.th2, "MAC_2", entropy) == Success(p) <==>
              Signed(c, s.cfg, s.prk3e2m, s.th2, MAC_2, entropy, p)
      ensures var ch := ChannelFor(c, s.sp, s.prk2e, s.th2, "K_2e", "IV_2e");
              && (ch.Success? && SealOn(ch.value, p) == Success(ciphertext) <==>
                  Protects(c, s.prk2e, s.th2, K_2E, IV_2E, p, ciphertext))
              && (ch.Success? && OpenOn(ch.value, ciphertext) == Success(p) <==>
                  Protects(c, s.prk2e, s.th2, K_2E, IV_2E, p, ciphertext))
      ensures CheckAuth(c, s.cfg, s.sp, s.prk3e2m, s.th2, "MAC_2", p) == Success(()) <==>
              Checked(c, s.cfg, s.prk3e2m, s.th2, MAC_2, p)
    {
      AuthIsSigned(c, s.cfg, s.suite, s.prk3e2m, s.th2, "MAC_2", entropy, p);
      ChannelProtects(c, s.suite, s.prk2e, s.th2, "K_2e", "IV_2e", p, ciphertext);
      CheckIsChecked(c, s.cfg, s.suite, s.prk3e2m, s.th2, "MAC_2", p);
    }
  }

  /** CIPHERTEXT_3 is sealed with K_3e and IV_3e around a signature over MAC_3, all over TH_3. */
  lemma Message3Derivations(c: Crypto, s: Session, entropy: Bstr, ciphertext: Bstr)
    requires Suited(s) && |s.th3| == 32
    ensures SealMessage3(c, s, entropy) == Success(ciphertext) <==>
            exists p: Bstr :: Signed(c, s.cfg, s.prk4e3m, s.th3, MAC_3, entropy, p)
                              && Protects(c, s.prk3e2m, s.th3, K_3E, IV_3E, p, ciphertext)
    ensures OpenMessage3(c, s, ciphertext) == Success(()) <==>
            exists p: Bstr :: Protects(c, s.prk3e2m, s.th3, K_3E, IV_3E, p, ciphertext)
                              && Checked(c, s.cfg, s.prk4e3m, s.th3, MAC_3, p)
  {
    hide ChannelFor, SealOn, OpenOn, AuthPlaintext, CheckAuth, Signed, Checked, Protects, Ascii;
    Labels();
    forall p: Bstr
      ensures AuthPlaintext(c, s.cfg, s.sp, s.prk4e3m, s.th3, "MAC_3", entropy) == Success(p) <==>
              Signed(c, s.cfg, s.prk4e3m, s.th3, MAC_3, entropy, p)
      ensures var ch := ChannelFor(c, s.sp, s.prk3e2m, s.th3, "K_3e", "IV_3e");
              && (ch.Success? && SealOn(ch.value, p) == Success(ciphertext) <==>
                  Protects(c, s.prk3e2m, s.th3, K_3E, IV_3E, p, ciphertext))
              && (ch.Success? && OpenOn(ch.value, ciphertext) == Success(p) <==>
                  Protects(c, s.prk3e2m, s.th3, K_3E, IV_3E, p, ciphertext))
      ensures CheckAuth(c, s.cfg, s.sp, s.prk4e3m, s.th3, "MAC_3", p) == Success(()) <==>
              Checked(c, s.cfg, s.prk4e3m, s.th3, MAC_3, p)
    {
      AuthIsSigned(c, s.cfg, s.suite, s.prk4e3m, s.th3, "MAC_3", entropy, p);
      ChannelProtects(c, s.suite, s.prk3e2m, s.th3, "K_3e", "IV_3e", p, ciphertext);
      CheckIsChecked(c, s.cfg, s.suite, s.prk4e3m, s.th3, "MAC_3", p);
    }
  }

  /** message_4 is nothing, sealed with K_4 and IV_4 over TH_4, as a byte string. */
  lemma Message4Derivations(c: Crypto, s: Session, msg: Bstr)
    requires Suited(s) && |s.th4| == 32
    ensures CreateMessage4(c, s) == Success(msg) <==>
            s.phase.Complete?
            && exists ct: Bstr :: Protects(c, s.prk4e3m, s.th4, K_4, IV_4, [], ct) && msg == Cbor(ByteString(ct))
    ensures ProcessMessage4(c, s, msg) == Success(()) <==>
            && s.phase.Complete? && DecodeBytesItem(msg).Success?
            && exists p: Bstr :: Protects(c, s.prk4e3m, s.th4, K_4, IV_4, p, DecodeBytesItem(msg).value)
  {
    hide ChannelFor, SealOn, OpenOn, Protects, Ascii, DecodeBytesItem;
    Labels();
    var ch := ChannelFor(c, s.sp, s.prk4e3m, s.th4, "K_4", "IV_4");
    forall p: Bstr, ct: Bstr
      ensures ch.Success? && SealOn(ch.value, p) == Success(ct) <==> Protects(c, s.prk4e3m, s.th4, K_4, IV_4, p, ct)
      ensures ch.Success? && OpenOn(ch.value, ct) == Success(p) <==> Protects(c, s.prk4e3m, s.th4, K_4, IV_4, p, ct)
    {
      ChannelProtects(c, s.suite, s.prk4e3m, s.th4, "K_4", "IV_4", p, ct);
    }
  }

  /** The OSCORE context: 16 and 8 derived bytes, the own identifier for sending and the peer's for receiving. */
  lemma OscoreDerivations(c: Crypto, s: Session, secret: Bstr, salt: Bstr, sender: Bstr, recipient: Bstr)
    requires |s.th4| == 32
    ensures ExportOscore(c, s) == Success(OscoreContext(secret, salt, sender, recipient)) <==>
            && s.phase.Complete?
            && Derived(c, s.prk4e3m, s.th4, OSCORE_MASTER_SECRET, 16) == Some(secret)
            && Derived(c, s.prk4e3m, s.th4, OSCORE_MASTER_SALT, 8) == Some(salt)
            && sender == s.connectionID && recipient == s.peerConnID
  {
    hide Kdf, Derived, Ascii;
    OscoreLabels();
    KdfIsDerived(c, s.prk4e3m, s.th4, "OSCORE_Master_Secret", 16);
    KdfIsDerived(c, s.prk4e3m, s.th4, "OSCORE_Master_Salt", 8);
  }

  // ---------------------------------------------------------------- exports

  /** [th, "EDHOC_Exporter_" and the number, context, length] in CBOR. */
  function ExportBytes(th: Bstr, number: int, context: Bstr, length: nat): Bstr {
    var text := [0x45, 0x44, 0x48, 0x4f, 0x43, 0x5f, 0x45, 0x78, 0x70, 0x6f, 0x72, 0x74, 0x65, 0x72, 0x5f]
                 + Ascii(Decimal(number));
    [0x84] + (Cbor(ByteString(th)) + ((HeadBytes(MAJOR_TEXT, Len64(|text|)) + text)
                                      + (Cbor(ByteString(context)) + HeadBytes(MAJOR_UINT, Len64(length)))))
  }

  /** The number a string of decimal digits denotes. */
  function DigitValue(s: string): int {
    if s == "" then 0 else 10 * DigitValue(s[..|s| - 1]) + (s[|s| - 1] as int - '0' as int)
  }

  lemma {:induction false} DigitsDenote(n: nat)
    ensures DigitValue(Digits(n)) == n
    ensures Digits(n)[0] == '0' ==> n == 0
    ensures forall i | 0 <= i < |Digits(n)| :: '0' <= Digits(n)[i] <= '9'
  {
    if n >= 10 {
      DigitsDenote(n / 10);
      var s := Digits(n);
      assert s[..|s| - 1] == Digits(n / 10) && s[0] == Digits(n / 10)[0];
    }
  }

  /** A number is written as its digits in base ten, without leading zeros, behind a sign if it is negative. */
  lemma DecimalDenotes(n: int)
    ensures n >= 0 ==> DigitValue(Decimal(n)) == n && (Decimal(n)[0] == '0' ==> n == 0)
    ensures n < 0 ==> Decimal(n)[0] == '-' && DigitValue(Decimal(n)[1..]) == -n && Decimal(n)[1] != '0'
  {
    if n >= 0 {
      DigitsDenote(n);
    } else {
      DigitsDenote(-n);
      assert Decimal(n)[1..] == Digits(-n);
    }
  }

  lemma ExporterForm(th: Bstr, number: int, context: Bstr, length: nat)
    ensures CborEncode(ExporterInfo(th, number, context, length)) == Success(ExportBytes(th, number, context, length))
  {
    hide CborEncode, Cbor, Out, HeadBytes, Decimal;
    var text := Ascii("EDHOC_Exporter_" + Decimal(number));
    ExporterLabel(number);
    ArrayForm(ExporterInfo(th, number, context, length).items);
    FourItems(ByteString(th), TextString(text), ByteString(context), Uint(Len64(length)));
    OutIsCbor(ByteString(th));
    OutIsCbor(ByteString(context));
    UintOut(Len64(length));
    TextOut(text);
  }

  lemma UintOut(n: U64)
    ensures Out(Uint(n), CORE_DETERMINISTIC) == HeadBytes(MAJOR_UINT, n)
  {
  }

  lemma TextOut(s: Bstr)
    ensures Out(TextString(s), CORE_DETERMINISTIC) == HeadBytes(MAJOR_TEXT, Len64(|s|)) + s
  {
  }

  lemma ExporterLabel(number: int)
    ensures Ascii("EDHOC_Exporter_" + Decimal(number)) ==
            [0x45, 0x44, 0x48, 0x4f, 0x43, 0x5f, 0x45, 0x78, 0x70, 0x6f, 0x72, 0x74, 0x65, 0x72, 0x5f]
            + Ascii(Decimal(number))
  {
    hide Decimal;
    var d := Decimal(number);
    assert Ascii("EDHOC_Exporter_" + d) == Ascii("EDHOC_Exporter_") + Ascii(d);
    assert Ascii("EDHOC_Exporter_") ==
           [0x45, 0x44, 0x48, 0x4f, 0x43, 0x5f, 0x45, 0x78, 0x70, 0x6f, 0x72, 0x74, 0x65, 0x72, 0x5f];
  }

  /** An export is the front of the expansion of exactly those bytes. */
  lemma ExportIsDerived(c: Crypto, s: Session, number: int, context: Bstr, length: nat)
    ensures var stream := c.expand(s.prk4e3m, ExportBytes(s.th4, number, context, length));
            Export(c, s, number, context, length) ==
            if !s.phase.Complete? then Failure(StateViolation)
            else if |stream| < length then Failure(KeyDerivation) else Success(stream[..length])
  {
    hide CborEncode, ExportBytes, ExporterInfo;
    ExporterForm(s.th4, number, context, length);
  }

  // ---------------------------------------------------------------- hashes and messages

  /** A connection identifier: one byte below 24 as an integer, anything else as a byte string. */
  lemma ConnectionIDForm(cid: Bstr)
    ensures EncodeConnectionID(cid) == if |cid| == 1 && cid[0] < 24 then cid else Cbor(ByteString(cid))
  {
  }

  /** What TH_2, TH_3 and TH_4 hash; shares have 32 bytes or 65. */
  lemma HashForms(c: Crypto, message1: Bstr, gy: Bstr, cr: Bstr, th: Bstr, ciphertext: Bstr)
    requires 24 <= |gy| < 0x100 && |th| == 32
    ensures TH2(c, message1, gy, cr) ==
            c.hash(message1 + ([0x58, |gy|] + gy) + (if |cr| == 1 && cr[0] < 24 then cr else Cbor(ByteString(cr))))
    ensures NextTH(c, th, ciphertext) == c.hash([0x58, 0x20] + th + Cbor(ByteString(ciphertext)))
  {
    hide Cbor, EncodeConnectionID;
    BstrForm(gy);
    BstrForm(th);
    ConnectionIDForm(cr);
  }

  /** message_1 and message_2: method or share, suites, share, identifier, ciphertext, in this order. */
  lemma MessageForms(ci: Bstr, gx: Bstr, selected: CipherSuite, cr: Bstr, gy: Bstr, ciphertext: Bstr)
    requires 24 <= |gx| < 0x100 && 24 <= |gy| < 0x100
    ensures EncodeMessage1(Message1(0, [SUITE_0], selected, gx, ci)) ==
            [0x00, 0x00, 0x58, |gx|] + gx + EncodeConnectionID(ci)
    ensures EncodeMessage1(Message1(0, [SUITE_0, SUITE_2], selected, gx, ci)) ==
            [0x00, 0x82, 0x00, 0x02, 0x58, |gx|] + gx + EncodeConnectionID(ci)
    ensures EncodeMessage2(Message2(gy, cr, ciphertext)) ==
            [0x58, |gy|] + gy + EncodeConnectionID(cr) + Cbor(ByteString(ciphertext))
  {
    hide EncodeConnectionID, Enc;
    BstrForm(gx);
    BstrForm(gy);
    UintForm(0);
    TwoSuites();
    var share := [0x58, |gx|] + gx + EncodeConnectionID(ci);
    assert [0x00] + ([0x00] + share) == [0x00, 0x00, 0x58, |gx|] + gx + EncodeConnectionID(ci);
    assert [0x00] + ([0x82, 0x00, 0x02] + share)
        == [0x00, 0x82, 0x00, 0x02, 0x58, |gx|] + gx + EncodeConnectionID(ci);
  }

  lemma TwoSuites()
    ensures Cbor(SuitesValue([SUITE_0, SUITE_2])) == [0x82, 0x00, 0x02]
  {
    hide Enc;
    var a, b := Uint(0), Uint(2);
    assert SuiteValues([SUITE_0, SUITE_2]) == [a, b];
    ArrayForm([a, b]);
    assert [a, b][1..] == [b] && [b][1..] == [];
    OutIsCbor(a);
    OutIsCbor(b);
    UintForm(0);
    UintForm(2);
    assert ItemsOut([b], CORE_DETERMINISTIC) == Out(b, CORE_DETERMINISTIC) + ItemsOut([], CORE_DETERMINISTIC);
    assert ItemsOut([a, b], CORE_DETERMINISTIC) == Out(a, CORE_DETERMINISTIC) + ItemsOut([b], CORE_DETERMINISTIC);
  }

  /** The two suites: 16-byte keys, 8-byte tags and MACs, 13-byte nonces, and X25519 for 0 and P-256 for 2. */
  lemma SuiteForms(suite: CipherSuite)
    ensures IsSupported(suite) <==> suite == 0 || suite == 2
    ensures ParamsOf(0) == SuiteParams(16, 8, 13, 32, X25519) && ParamsOf(2) == SuiteParams(16, 8, 13, 32, P256)
  {
  }

  /** The identifier of a new session: the configured one, or one random byte brought below 24. */
  lemma IdentifierForms(cfg: Config, random: Option<Byte>)
    ensures NewInitiator(cfg, random).Success? ==>
              var s := NewInitiator(cfg, random).value;
              && (cfg.connectionID.Some? ==> s.connectionID == cfg.connectionID.value)
              && (cfg.connectionID.None? ==> random.Some? && s.connectionID == [random.value % 24])
              && s.suite == cfg.suites[0] && s.sp == ParamsOf(s.suite) && (s.suite == 0 || s.suite == 2)
    ensures NewResponder(cfg, random).Success? ==>
              var s := NewResponder(cfg, random).value;
              && (cfg.connectionID.Some? ==> s.connectionID == cfg.connectionID.value)
              && (cfg.connectionID.None? ==> random.Some? && s.connectionID == [random.value % 24])
              && cfg.suites != [] && forall i | 0 <= i < |cfg.suites| :: cfg.suites[i] == 0 || cfg.suites[i] == 2
  {
  }
}
