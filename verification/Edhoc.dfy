/**
 The two EDHOC state machines (edhoc/initiator.go, edhoc/responder.go, edhoc/context.go):
 each call as a function from session to session. The objects whose methods carry the calls
 out field by field are in `EdhocParties`.
 */
module Edhoc {
  import opened Bytes
  import opened Blocks
  import opened Values
  import opened Encoding
  import opened EdhocMessages
  import opened EdhocKeys

  /** `Sent` is initiatorStateSentMsg1 or responderStateSentMsg2. */
  datatype Phase = Init | Sent | Complete

  /** The fields of an Initiator or a Responder; only the responder stores ciphertext2. */
  datatype Session = Session(
    cfg: Config, suite: CipherSuite, sp: SuiteParams, phase: Phase,
    ephPriv: Bstr, connectionID: Bstr, peerConnID: Bstr,
    message1: Bstr, th2: Bstr, th3: Bstr, th4: Bstr, prk2e: Bstr, prk3e2m: Bstr, prk4e3m: Bstr,
    ciphertext2: Bstr)

  /** What a call leaves behind and what it returns; a failed call may have written fields. */
  datatype Outcome<+T> = Outcome(session: Session, result: Result<T, EdhocError>)

  function NewSession(cfg: Config, suite: CipherSuite, sp: SuiteParams, connectionID: Bstr): Session {
    Session(cfg, suite, sp, Init, [], connectionID, [], [], [], [], [], [], [], [], [])
  }

  /** The configured connection identifier, or one random byte below 24. */
  function ChooseConnectionID(cfg: Config, random: Option<Byte>): Result<Bstr, EdhocError> {
    match cfg.connectionID
    case Some(cid) => Success(cid)
    case None => if random.None? then Failure(KeyGeneration) else Success([random.value % 24])
  }

  // ---------------------------------------------------------------- initiator

  function NewInitiator(cfg: Config, random: Option<Byte>): (r: Result<Session, EdhocError>)
    ensures r.Success? ==> r.value.cfg.HasKeys()
  {
    if cfg.suites == [] || !IsSupported(cfg.suites[0]) then Failure(UnsupportedSuite)
    else if !cfg.HasKeys() then Failure(StateViolation)
    else
      var cid :- ChooseConnectionID(cfg, random);
      Success(NewSession(cfg, cfg.suites[0], ParamsOf(cfg.suites[0]), cid))
  }

  /** `eph` is the generated private key, None when the generator fails. */
  function CreateMessage1(c: Crypto, s: Session, eph: Option<Bstr>): Outcome<Bstr> {
    if !s.phase.Init? then Outcome(s, Failure(StateViolation))
    else if eph.None? then Outcome(s, Failure(KeyGeneration))
    else
      var raw := EncodeMessage1(Message1(0, s.cfg.suites, s.suite, c.dhPublic(s.sp.curve, eph.value), s.connectionID));
      Outcome(s.(ephPriv := eph.value, message1 := raw, phase := Sent), Success(raw))
  }

  function DecryptMessage2(c: Crypto, s: Session, ciphertext: Bstr): Result<Bstr, EdhocError> {
    var ch :- ChannelFor(c, s.sp, s.prk2e, s.th2, "K_2e", "IV_2e");
    OpenOn(ch, ciphertext)
  }

  /** decryptMessage2, then verifyResponderSignature. */
  function OpenMessage2(c: Crypto, s: Session, ciphertext: Bstr): Result<(), EdhocError>
    requires s.cfg.HasKeys()
  {
    var plaintext :- DecryptMessage2(c, s, ciphertext);
    CheckAuth(c, s.cfg, s.sp, s.prk3e2m, s.th2, "MAC_2", plaintext)
  }

  /** encryptMessage3. */
  function SealMessage3(c: Crypto, s: Session, entropy: Bstr): Result<Bstr, EdhocError>
    requires s.cfg.HasKeys()
  {
    var plaintext :- AuthPlaintext(c, s.cfg, s.sp, s.prk4e3m, s.th3, "MAC_3", entropy);
    var ch :- ChannelFor(c, s.sp, s.prk3e2m, s.th3, "K_3e", "IV_3e");
    SealOn(ch, plaintext)
  }

  /** The keys and the transcript hash once the other side's share is known. */
  function WithKeys(s: Session, prk: Bstr, th2: Bstr): Session {
    s.(prk2e := prk, prk3e2m := prk, prk4e3m := prk, th2 := th2)
  }

  /** ProcessMessage2 once the keys and TH_2 are derived. */
  function FinishMessage2(c: Crypto, s: Session, ciphertext: Bstr, entropy: Bstr): (o: Outcome<Bstr>)
    requires s.cfg.HasKeys()
    ensures o.session.cfg == s.cfg
  {
    match OpenMessage2(c, s, ciphertext)
    case Failure(e) => Outcome(s, Failure(e))
    case Success(_) =>
      var s1 := s.(th3 := NextTH(c, s.th2, ciphertext));
      match SealMessage3(c, s1, entropy)
      case Failure(e) => Outcome(s1, Failure(e))
      case Success(ct) =>
        Outcome(s1.(th4 := NextTH(c, s1.th3, ct), phase := Complete), Success(Cbor(ByteString(ct))))
  }

  function ProcessMessage2(c: Crypto, s: Session, msg: Bstr, entropy: Bstr): (o: Outcome<Bstr>)
    requires s.cfg.HasKeys()
    ensures o.session.cfg == s.cfg
  {
    if !s.phase.Sent? then Outcome(s, Failure(StateViolation))
    else
      match DecodeMessage2(msg)
      case Failure(e) => Outcome(s, Failure(e))
      case Success(m) =>
        var s1 := s.(peerConnID := m.cr);
        if !c.dhAccepts(s.sp.curve, m.gy) then Outcome(s1, Failure(MessageFormat))
        else
          match c.dhShared(s.sp.curve, s.ephPriv, m.gy)
          case None => Outcome(s1, Failure(Authentication))
          case Some(shared) =>
            var s2 := WithKeys(s1, c.extract(shared), TH2(c, s.message1, m.gy, m.cr));
            FinishMessage2(c, s2, m.ciphertext, entropy)
  }

  function ProcessMessage4(c: Crypto, s: Session, msg: Bstr): Result<(), EdhocError> {
    if !s.phase.Complete? then Failure(StateViolation)
    else
      var ct :- DecodeBytesItem(msg);
      var ch :- ChannelFor(c, s.sp, s.prk4e3m, s.th4, "K_4", "IV_4");
      var _ :- OpenOn(ch, ct);
      Success(())
  }

  // ---------------------------------------------------------------- responder

  function NewResponder(cfg: Config, random: Option<Byte>): (r: Result<Session, EdhocError>)
    ensures r.Success? ==> r.value.cfg.HasKeys()
  {
    if cfg.suites == [] || (exists i | 0 <= i < |cfg.suites| :: !IsSupported(cfg.suites[i]))
      then Failure(UnsupportedSuite)
    else if !cfg.HasKeys() then Failure(StateViolation)
    else
      var cid :- ChooseConnectionID(cfg, random);
      Success(NewSession(cfg, SUITE_0, NO_PARAMS, cid))
  }

  /** negotiateSuite: the first proposed suite that is in the responder's list. */
  function Negotiated(own: seq<CipherSuite>, proposed: seq<CipherSuite>): Option<CipherSuite> {
    if proposed == [] then None
    else if proposed[0] in own then Some(proposed[0])
    else Negotiated(own, proposed[1..])
  }

  /** encryptMessage2. */
  function SealMessage2(c: Crypto, s: Session, entropy: Bstr): Result<Bstr, EdhocError>
    requires s.cfg.HasKeys()
  {
    var plaintext :- AuthPlaintext(c, s.cfg, s.sp, s.prk3e2m, s.th2, "MAC_2", entropy);
    var ch :- ChannelFor(c, s.sp, s.prk2e, s.th2, "K_2e", "IV_2e");
    SealOn(ch, plaintext)
  }

  /** ProcessMessage1 once the other side's share gx is accepted. */
  function AnswerMessage1(c: Crypto, s: Session, gx: Bstr, eph: Option<Bstr>, entropy: Bstr): (o: Outcome<Bstr>)
    requires s.cfg.HasKeys()
    ensures o.session.cfg == s.cfg
  {
    if eph.None? then Outcome(s, Failure(KeyGeneration))
    else
      var s1 := s.(ephPriv := eph.value);
      match c.dhShared(s.sp.curve, eph.value, gx)
      case None => Outcome(s1, Failure(Authentication))
      case Some(shared) =>
        var gy := c.dhPublic(s.sp.curve, eph.value);
        var s2 := WithKeys(s1, c.extract(shared), TH2(c, s.message1, gy, s.connectionID));
        match SealMessage2(c, s2, entropy)
        case Failure(e) => Outcome(s2, Failure(e))
        case Success(ct) =>
          Outcome(s2.(ciphertext2 := ct, th3 := NextTH(c, s2.th2, ct), phase := Sent),
                  Success(EncodeMessage2(Message2(gy, s2.connectionID, ct))))
  }

  function ProcessMessage1(c: Crypto, s: Session, msg: Bstr, eph: Option<Bstr>, entropy: Bstr): (o: Outcome<Bstr>)
    requires s.cfg.HasKeys()
    ensures o.session.cfg == s.cfg
  {
    if !s.phase.Init? then Outcome(s, Failure(StateViolation))
    else
      match DecodeMessage1(msg)
      case Failure(e) => Outcome(s, Failure(e))
      case Success(m) =>
        if m.methodNumber != 0 then Outcome(s, Failure(UnsupportedSuite))
        else
          match Negotiated(s.cfg.suites, m.suites)
          case None => Outcome(s, Failure(UnsupportedSuite))
          case Some(suite) =>
            var s1 := s.(suite := suite, sp := ParamsOf(suite));
            if !c.dhAccepts(s1.sp.curve, m.gx) then Outcome(s1, Failure(MessageFormat))
            else
              AnswerMessage1(c, s1.(peerConnID := m.ci, message1 := msg), m.gx, eph, entropy)
  }

  /** The opening of message_3 and verifyInitiatorSignature. */
  function OpenMessage3(c: Crypto, s: Session, ciphertext: Bstr): Result<(), EdhocError>
    requires s.cfg.HasKeys()
  {
    var ch :- ChannelFor(c, s.sp, s.prk3e2m, s.th3, "K_3e", "IV_3e");
    var plaintext :- OpenOn(ch, ciphertext);
    CheckAuth(c, s.cfg, s.sp, s.prk4e3m, s.th3, "MAC_3", plaintext)
  }

  function ProcessMessage3(c: Crypto, s: Session, msg: Bstr): (o: Outcome<()>)
    requires s.cfg.HasKeys()
    ensures o.session.cfg == s.cfg
  {
    if !s.phase.Sent? then Outcome(s, Failure(StateViolation))
    else
      match DecodeBytesItem(msg)
      case Failure(e) => Outcome(s, Failure(e))
      case Success(ct) =>
        match OpenMessage3(c, s, ct)
        case Failure(e) => Outcome(s, Failure(e))
        case Success(_) => Outcome(s.(th4 := NextTH(c, s.th3, ct), phase := Complete), Success(()))
  }

  function CreateMessage4(c: Crypto, s: Session): Result<Bstr, EdhocError> {
    if !s.phase.Complete? then Failure(StateViolation)
    else
      var ch :- ChannelFor(c, s.sp, s.prk4e3m, s.th4, "K_4", "IV_4");
      var ct :- SealOn(ch, []);
      CborEncode(ByteString(ct))
  }

  // ---------------------------------------------------------------- exporters

  function Digits(n: nat): (s: string)
    ensures s != ""
  {
    if n < 10 then [('0' as int + n) as char] else Digits(n / 10) + [('0' as int + n % 10) as char]
  }

  /** %d. */
  function Decimal(n: int): string { if n < 0 then "-" + Digits(-n) else Digits(n) }

  function ExporterInfo(th4: Bstr, number: int, context: Bstr, length: nat): Value {
    Array([ByteString(th4), TextString(Ascii("EDHOC_Exporter_" + Decimal(number))), ByteString(context),
           Uint(Len64(length))])
  }

  function Export(c: Crypto, s: Session, number: int, context: Bstr, length: nat): Result<Bstr, EdhocError> {
    if !s.phase.Complete? then Failure(StateViolation)
    else
      var info :- CborEncode(ExporterInfo(s.th4, number, context, length));
      HkdfExpand(c, s.prk4e3m, info, length)
  }

  datatype OscoreContext = OscoreContext(masterSecret: Bstr, masterSalt: Bstr, senderID: Bstr, recipientID: Bstr)

  function ExportOscore(c: Crypto, s: Session): Result<OscoreContext, EdhocError> {
    if !s.phase.Complete? then Failure(StateViolation)
    else
      var secret :- Kdf(c, s.prk4e3m, s.th4, "OSCORE_Master_Secret", 16);
      var salt :- Kdf(c, s.prk4e3m, s.th4, "OSCORE_Master_Salt", 8);
      Success(OscoreContext(secret, salt, s.connectionID, s.peerConnID))
  }
}
