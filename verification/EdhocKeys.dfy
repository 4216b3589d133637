/**
 Key schedule, message protection and message authentication of EDHOC
 (edhoc/keyschedule.go and the parts of initiator.go and responder.go that both share).
 The primitives are a parameter; what the protocol needs of them is `HonestCrypto`.
 */
module EdhocKeys {
  import opened Bytes
  import opened Blocks
  import opened Wire
  import opened KeyOrder
  import opened Values
  import opened Encoding
  import opened Decoding
  import opened RoundTrip
  import opened Canonical
  import opened EdhocMessages
  import C = Ccm

  /** ecdh.Curve; `NoCurve` is the nil interface. */
  datatype Curve = NoCurve | X25519 | P256

  datatype SuiteParams = SuiteParams(keySize: nat, tagSize: nat, nonceLen: nat, hashSize: nat, curve: Curve)

  const SUITE_0: CipherSuite := 0
  const SUITE_2: CipherSuite := 2

  const NO_PARAMS := SuiteParams(0, 0, 0, 0, NoCurve)

  function ParamsOf(suite: CipherSuite): SuiteParams {
    SuiteParams(16, 8, 13, 32, if suite == SUITE_2 then P256 else X25519)
  }

  predicate IsSupported(suite: CipherSuite) { suite == SUITE_0 || suite == SUITE_2 }

  type Bstr = seq<Byte>

  /**
   The primitives. `aes` is None on a bad key size, `expand` is the output stream of
   HKDF-Expand, `dhShared` and `sign` are None when the library reports an error, and
   `cwtKey` is extractPublicKeyFromCWT. Keys are byte strings.
   */
  datatype Crypto = Crypto(
    aes: Bstr -> Option<Block -> Block>,
    hash: Bstr -> Bstr,
    extract: Bstr -> Bstr,
    expand: (Bstr, Bstr) -> Bstr,
    dhPublic: (Curve, Bstr) -> Bstr,
    dhAccepts: (Curve, Bstr) -> bool,
    dhShared: (Curve, Bstr, Bstr) -> Option<Bstr>,
    publicOf: Bstr -> Bstr,
    rawPublic: Bstr -> Bstr,
    sign: (Bstr, Bstr, Bstr) -> Option<Bstr>,
    verify: (Bstr, Bstr, Bstr) -> bool,
    cwtKey: (Bstr, Bstr) -> Result<Bstr, EdhocError>)

  // ---------------------------------------------------------------- transcript hashes

  function TH2(c: Crypto, message1: Bstr, gy: Bstr, cr: Bstr): Bstr {
    c.hash(message1 + Cbor(ByteString(gy)) + EncodeConnectionID(cr))
  }

  /** TH_3 from TH_2 and CIPHERTEXT_2, and TH_4 from TH_3 and CIPHERTEXT_3. */
  function NextTH(c: Crypto, th: Bstr, ciphertext: Bstr): Bstr {
    c.hash(Cbor(ByteString(th)) + Cbor(ByteString(ciphertext)))
  }

  // ---------------------------------------------------------------- key derivation

  function Ascii(s: string): Bstr { seq(|s|, i requires 0 <= i < |s| => s[i] as int % 0x100) }

  function HkdfExpand(c: Crypto, prk: Bstr, info: Bstr, length: nat): (r: Result<Bstr, EdhocError>)
    ensures r.Success? ==> |r.value| == length
  {
    var stream := c.expand(prk, info);
    if |stream| < length then Failure(KeyDerivation) else Success(stream[..length])
  }

  function KdfInfo(th: Bstr, name: Bstr, length: nat): Value {
    Array([ByteString(th), TextString(name), Uint(Len64(length))])
  }

  /** edhocKDF. */
  function Kdf(c: Crypto, prk: Bstr, th: Bstr, name: string, length: nat): (r: Result<Bstr, EdhocError>)
    ensures r.Success? ==> |r.value| == length
  {
    var info :- CborEncode(KdfInfo(th, Ascii(name), length));
    HkdfExpand(c, prk, info, length)
  }

  // ---------------------------------------------------------------- protection

  /** An AEAD with the nonce and the additional data of one message. */
  datatype Channel = Channel(aead: C.Ccm, iv: Bstr, aad: Bstr) {
    predicate Valid() { aead.Valid() && |iv| == aead.nonceLen }
  }

  function ChannelFor(c: Crypto, sp: SuiteParams, prk: Bstr, th: Bstr, keyLabel: string, ivLabel: string)
    : (r: Result<Channel, EdhocError>)
    ensures r.Success? ==> r.value.Valid()
  {
    var k :- Kdf(c, prk, th, keyLabel, sp.keySize);
    var iv :- Kdf(c, prk, th, ivLabel, sp.nonceLen);
    match C.New(c.aes(k), sp.tagSize, sp.nonceLen)
    case Failure(_) => Failure(AeadParameters)
    case Success(aead) =>
      var aad :- CborEncode(Array([ByteString(th)]));
      Success(Channel(aead, iv, aad))
  }

  function SealOn(ch: Channel, plaintext: Bstr): Result<Bstr, EdhocError>
    requires ch.Valid()
  {
    if |plaintext| > ch.aead.MaxMessageLen() then Failure(Panicked)
    else Success(C.Sealed(ch.aead, ch.iv, plaintext, ch.aad))
  }

  function OpenOn(ch: Channel, ciphertext: Bstr): Result<Bstr, EdhocError>
    requires ch.Valid()
  {
    match C.Opened(ch.aead, ch.iv, ciphertext, ch.aad)
    case Success(p) => Success(p)
    case Failure(_) => Failure(Authentication)
  }

  /** What is opened on a channel is what was sealed on it. */
  lemma OpenUndoesSeal(ch: Channel, plaintext: Bstr, ciphertext: Bstr)
    requires ch.Valid()
    ensures OpenOn(ch, ciphertext) == Success(plaintext) <==> SealOn(ch, plaintext) == Success(ciphertext)
  {
    C.OpenIsExact(ch.aead, ch.iv, ciphertext, ch.aad, plaintext);
  }

  // ---------------------------------------------------------------- authentication

  datatype Credential = RPK | CWT(cwt: Bstr)

  datatype Config = Config(
    suites: seq<CipherSuite>,
    privateKey: Option<Bstr>,
    peerPublic: Option<Bstr>,
    connectionID: Option<Bstr>,
    credential: Option<Credential>,
    peerCredential: Option<Credential>,
    issuerKey: Option<Bstr>)
  {
    predicate HasKeys() { privateKey.Some? && peerPublic.Some? }
  }

  predicate IsCwt(credential: Option<Credential>) { credential.Some? && credential.value.CWT? }

  /** The item that identifies the credential: the token, or a map with the raw public key. */
  function IdCredValue(c: Crypto, cfg: Config): Value
    requires cfg.HasKeys()
  {
    if IsCwt(cfg.credential) then ByteString(cfg.credential.value.cwt)
    else Map([MapEntry(Uint(4), ByteString(c.rawPublic(c.publicOf(cfg.privateKey.value))))])
  }

  function SignStructValue(idCred: Bstr, th: Bstr, mac: Bstr): Value {
    Array([TextString(Ascii("Signature1")), ByteString(idCred), ByteString(th), ByteString(mac)])
  }

  /** buildSignStruct. */
  function SignStruct(idCred: Bstr, th: Bstr, mac: Bstr): Result<Bstr, EdhocError> {
    CborEncode(SignStructValue(idCred, th, mac))
  }

  /** ID_CRED and the signature: the plaintext of message_2 and of message_3. */
  function AuthPlaintext(c: Crypto, cfg: Config, sp: SuiteParams, prk: Bstr, th: Bstr, macLabel: string, entropy: Bstr)
    : Result<Bstr, EdhocError>
    requires cfg.HasKeys()
  {
    var idCred :- CborEncode(IdCredValue(c, cfg));
    var mac :- Kdf(c, prk, th, macLabel, sp.tagSize);
    var signed :- SignStruct(idCred, th, mac);
    match c.sign(cfg.privateKey.value, signed, entropy)
    case None => Failure(UnsupportedSuite)
    case Some(signature) =>
      var sigEnc :- CborEncode(ByteString(signature));
      Success(idCred + sigEnc)
  }

  /** The key a credential is verified with. */
  function PeerKey(c: Crypto, cfg: Config, idCred: Value): Result<Bstr, EdhocError>
    requires cfg.HasKeys()
  {
    if !IsCwt(cfg.peerCredential) then Success(cfg.peerPublic.value)
    else if !idCred.ByteString? then Failure(MessageFormat)
    else c.cwtKey(idCred.b, if cfg.issuerKey.Some? then cfg.issuerKey.value else cfg.peerPublic.value)
  }

  /** verifyResponderSignature and verifyInitiatorSignature. */
  function CheckAuth(c: Crypto, cfg: Config, sp: SuiteParams, prk: Bstr, th: Bstr, macLabel: string, plaintext: Bstr)
    : Result<(), EdhocError>
    requires cfg.HasKeys()
  {
    var idCred :- DecodeOne(plaintext);
    var signature :- DecodeBytesItem(idCred.rest);
    var mac :- Kdf(c, prk, th, macLabel, sp.tagSize);
    var idCredEnc :- CborEncode(idCred.value);
    var signed :- SignStruct(idCredEnc, th, mac);
    var key :- PeerKey(c, cfg, idCred.value);
    if c.verify(key, signed, signature) then Success(()) else Failure(Authentication)
  }

  // ---------------------------------------------------------------- what honest parties rely on

  /** 255 blocks of a 32-byte hash. */
  const MAX_EXPAND: nat := 8160

  /** Diffie-Hellman commutes, signatures verify, keys and hashes have lengths the codec takes. */
  ghost predicate HonestCrypto(c: Crypto) {
    && (forall k: Bstr :: |k| == 16 ==> c.aes(k).Some?)
    && (forall prk: Bstr, info: Bstr :: |c.expand(prk, info)| == MAX_EXPAND)
    && (forall m: Bstr :: |c.hash(m)| == 32)
    && (forall curve: Curve, x: Bstr :: !curve.NoCurve? ==>
          c.dhAccepts(curve, c.dhPublic(curve, x)) && |c.dhPublic(curve, x)| <= 133)
    && (forall curve: Curve, x: Bstr, y: Bstr :: !curve.NoCurve? ==>
          && c.dhShared(curve, x, c.dhPublic(curve, y)).Some?
          && c.dhShared(curve, x, c.dhPublic(curve, y)) == c.dhShared(curve, y, c.dhPublic(curve, x)))
    && (forall k: Bstr, m: Bstr, entropy: Bstr :: c.sign(k, m, entropy).Some? ==>
          && c.verify(c.publicOf(k), m, c.sign(k, m, entropy).value)
          && |c.sign(k, m, entropy).value| <= 132)
    && (forall k: Bstr :: |c.rawPublic(k)| <= 133)
  }

  /** The signer type is one the library handles. */
  ghost predicate Signs(c: Crypto, cfg: Config)
    requires cfg.HasKeys()
  {
    forall m: Bstr, entropy: Bstr :: c.sign(cfg.privateKey.value, m, entropy).Some?
  }

  /** Longest token that leaves room for the signature in a message of two length bytes. */
  const MAX_CWT: nat := 65000

  /** The peer of `other` is the party configured by `cfg`. */
  ghost predicate KnowsPeer(c: Crypto, other: Config, cfg: Config) {
    && other.HasKeys() && cfg.HasKeys()
    && (IsCwt(other.peerCredential) <==> IsCwt(cfg.credential))
    && (if IsCwt(cfg.credential)
        then |cfg.credential.value.cwt| <= MAX_CWT
             && c.cwtKey(cfg.credential.value.cwt, if other.issuerKey.Some? then other.issuerKey.value
                         else other.peerPublic.value)
                == Success(c.publicOf(cfg.privateKey.value))
        else other.peerPublic.value == c.publicOf(cfg.privateKey.value))
  }
}
