/**
 Agreement between the two ends of EDHOC. A set of runs took place, of any party in either role, with
 anything in between on the network. If the signature that a complete session has verified was sent out
 in one of them, by the peer, then one of them, of the peer, has the same transcript and with it the
 same keys, up to a hash collision that is exhibited and up to bytes behind the last item of message_1.
 */
module EdhocPeers {
  import opened Bytes
  import opened Blocks
  import opened Wire
  import opened Values
  import opened Encoding
  import opened Decoding
  import opened RoundTrip
  import opened Guarantees
  import opened EdhocMessages
  import opened EdhocKeys
  import opened EdhocAuth
  import opened Edhoc
  import opened EdhocAgreement
  import opened EdhocRuns
  import opened EdhocTranscripts
  import C = Ccm

  // ---------------------------------------------------------------- runs and what they sign

  /** What a party passes to its signing key for one message. */
  function SignedData(c: Crypto, cfg: Config, sp: SuiteParams, prk: Bstr, th: Bstr, macLabel: string)
    : Result<Bstr, EdhocError>
    requires cfg.HasKeys()
  {
    var idCred :- CborEncode(IdCredValue(c, cfg));
    var mac :- Kdf(c, prk, th, macLabel, sp.tagSize);
    SignStruct(idCred, th, mac)
  }

  /** The plaintext of message_2 and of message_3 carries a signature of exactly that. */
  lemma PlaintextIsSigned(c: Crypto, cfg: Config, sp: SuiteParams, prk: Bstr, th: Bstr, macLabel: string, entropy: Bstr)
    requires cfg.HasKeys() && AuthPlaintext(c, cfg, sp, prk, th, macLabel, entropy).Success?
    ensures var data := SignedData(c, cfg, sp, prk, th, macLabel);
            && data.Success?
            && var signature := c.sign(cfg.privateKey.value, data.value, entropy);
            && signature.Some?
            && AuthPlaintext(c, cfg, sp, prk, th, macLabel, entropy) ==
               Success(Cbor(IdCredValue(c, cfg)) + Cbor(ByteString(signature.value)))
  {
    hide Enc, Kdf, SignStruct;
  }

  /** A run of one party in one of its roles: any calls, from a new session. */
  datatype PartyRun =
    | AsInitiator(start: Session, initiated: seq<InitiatorCall>)
    | AsResponder(start: Session, answered: seq<ResponderCall>)

  function EndOf(c: Crypto, run: PartyRun): Session
    requires run.start.cfg.HasKeys()
  {
    match run
    case AsInitiator(s, calls) => InitiatorRun(c, s, calls)
    case AsResponder(s, calls) => ResponderRun(c, s, calls)
  }

  /** The run starts with what the constructor returns for this configuration. */
  ghost predicate Fresh(p: Config, run: PartyRun) {
    match run
    case AsInitiator(s, _) => exists random :: NewInitiator(p, random) == Success(s)
    case AsResponder(s, _) => exists random :: NewResponder(p, random) == Success(s)
  }

  lemma FreshHasKeys(p: Config, run: PartyRun)
    requires Fresh(p, run)
    ensures p.HasKeys() && run.start.cfg == p && run.start.phase.Init?
  {
  }

  /** The run has sent out a signature over these data. */
  ghost predicate Released(c: Crypto, p: Config, run: PartyRun, data: Bstr)
    requires p.HasKeys() && run.start.cfg == p
  {
    var end := EndOf(c, run);
    match run
    case AsInitiator(_, _) =>
      end.phase.Complete? && SignedData(c, p, end.sp, end.prk4e3m, end.th3, "MAC_3") == Success(data)
    case AsResponder(_, _) =>
      !end.phase.Init? && SignedData(c, p, end.sp, end.prk3e2m, end.th2, "MAC_2") == Success(data)
  }

  /** The party has opened the ciphertext to this plaintext. */
  ghost predicate Opens(c: Crypto, sp: SuiteParams, encKey: Bstr, th: Bstr, keyLabel: string, ivLabel: string,
                        ciphertext: Bstr, plaintext: Bstr)
  {
    exists ch: Channel :: ChannelFor(c, sp, encKey, th, keyLabel, ivLabel) == Success(ch)
                          && SealOn(ch, plaintext) == Success(ciphertext)
  }

  /** The data over which the signature in the plaintext verifies. */
  ghost predicate Verifies(c: Crypto, cfg: Config, sp: SuiteParams, macKey: Bstr, th: Bstr, macLabel: string,
                           plaintext: Bstr, data: Bstr)
    requires cfg.HasKeys()
  {
    exists idCred: Item, signature: Bstr, mac: Bstr, encoded: Bstr, key: Bstr ::
      && DecodeOne(plaintext) == Success(idCred)
      && DecodeBytesItem(idCred.rest) == Success(signature)
      && Kdf(c, macKey, th, macLabel, sp.tagSize) == Success(mac)
      && CborEncode(idCred.value) == Success(encoded)
      && SignStruct(encoded, th, mac) == Success(data)
      && PeerKey(c, cfg, idCred.value) == Success(key)
      && c.verify(key, data, signature)
  }

  /** Whatever verifies in the ciphertext was sent out by p in one of the runs. */
  ghost predicate Vouched(c: Crypto, cfg: Config, p: Config, runs: iset<PartyRun>, sp: SuiteParams, macKey: Bstr,
                          encKey: Bstr, th: Bstr, macLabel: string, keyLabel: string, ivLabel: string,
                          ciphertext: Bstr)
    requires cfg.HasKeys() && p.HasKeys()
  {
    forall plaintext: Bstr, data: Bstr ::
      Opens(c, sp, encKey, th, keyLabel, ivLabel, ciphertext, plaintext)
      && Verifies(c, cfg, sp, macKey, th, macLabel, plaintext, data) ==>
        && |data| <= MAX_LENGTH
        && exists run :: run in runs && Fresh(p, run) && run.start.cfg == p && Released(c, p, run, data)
  }

  /** A message_2, or the ciphertext of a message_3, was delivered in these calls. */
  ghost predicate Delivered2(calls: seq<InitiatorCall>, m: Message2) {
    exists k | 0 <= k < |calls| :: calls[k].Receive2? && DecodeMessage2(calls[k].msg) == Success(m)
  }

  ghost predicate Delivered3(calls: seq<ResponderCall>, ciphertext: Bstr) {
    exists k | 0 <= k < |calls| :: calls[k].Receive3? && DecodeBytesItem(calls[k].msg3) == Success(ciphertext)
  }

  /** The signature that a complete run has verified was sent out by p in one of the runs: it is not forged. */
  ghost predicate NotForged(c: Crypto, p: Config, runs: iset<PartyRun>, run: PartyRun)
    requires run.start.cfg.HasKeys() && p.HasKeys()
  {
    var end := EndOf(c, run);
    match run
    case AsInitiator(_, calls) =>
      forall m: Message2 :: Delivered2(calls, m) && TookMessage2(c, end, m) ==>
        Vouched(c, run.start.cfg, p, runs, end.sp, end.prk3e2m, end.prk2e, end.th2, "MAC_2", "K_2e", "IV_2e",
                m.ciphertext)
    case AsResponder(_, calls) =>
      forall ciphertext: Bstr :: Delivered3(calls, ciphertext) && end.th4 == NextTH(c, end.th3, ciphertext) ==>
        Vouched(c, run.start.cfg, p, runs, end.sp, end.prk4e3m, end.prk3e2m, end.th3, "MAC_3", "K_3e", "IV_3e",
                ciphertext)
  }

  /** Hashes, shares and configured parts are short enough for the decoder. */
  ghost predicate Limits(c: Crypto, cfg: Config) {
    && (forall m: Bstr :: |c.hash(m)| <= MAX_BYTES)
    && (forall curve: Curve, x: Bstr :: |c.dhPublic(curve, x)| <= MAX_BYTES)
    && |cfg.suites| <= MAX_ITEMS && (cfg.connectionID.Some? ==> |cfg.connectionID.value| <= MAX_BYTES)
  }

  predicate Collides(c: Crypto, x: Bstr, y: Bstr) { x != y && c.hash(x) == c.hash(y) }

  // ---------------------------------------------------------------- what a run keeps

  /** The message_1 an initiator with this session has sent. */
  function SentMessage1(c: Crypto, s: Session): Message1 {
    Message1(0, s.cfg.suites, s.suite, c.dhPublic(s.sp.curve, s.ephPriv), s.connectionID)
  }

  /** The session belongs to the start of its run, and holds the message_1 it has sent. */
  predicate InitiatorKeeps(c: Crypto, start: Session, s: Session) {
    && s.cfg == start.cfg && s.suite == start.suite && s.sp == start.sp && s.connectionID == start.connectionID
    && (!s.phase.Init? ==> s.message1 == EncodeMessage1(SentMessage1(c, s)))
  }

  lemma InitiatorStepKeeps(c: Crypto, start: Session, s: Session, call: InitiatorCall)
    requires s.cfg.HasKeys() && InitiatorKeeps(c, start, s)
    ensures InitiatorKeeps(c, start, InitiatorStep(c, s, call).session)
  {
    hide EncodeMessage1, DecodeMessage2, OpenMessage2, SealMessage3, TH2, NextTH, Cbor;
  }

  lemma {:induction false} InitiatorRunKeeps(c: Crypto, start: Session, calls: seq<InitiatorCall>)
    requires start.cfg.HasKeys() && start.phase.Init?
    ensures InitiatorKeeps(c, start, InitiatorRun(c, start, calls))
  {
    hide InitiatorStep, InitiatorKeeps;
    if calls == [] {
      NothingSent(c, start);
    } else {
      InitiatorRunKeeps(c, start, calls[..|calls| - 1]);
      InitiatorStepKeeps(c, start, InitiatorRun(c, start, calls[..|calls| - 1]), calls[|calls| - 1]);
    }
  }

  lemma NothingSent(c: Crypto, start: Session)
    requires start.phase.Init?
    ensures InitiatorKeeps(c, start, start)
  {
  }

  /** The share of this session. */
  function Share(c: Crypto, s: Session): Bstr { c.dhPublic(s.sp.curve, s.ephPriv) }

  /** The three keys of the session come from its own and this share. */
  predicate KeyedWith(c: Crypto, s: Session, share: Bstr) {
    var k := c.dhShared(s.sp.curve, s.ephPriv, share);
    k.Some? && s.prk2e == s.prk3e2m == s.prk4e3m == c.extract(k.value)
  }

  /** What an initiator's session has made of message_2. */
  predicate TookMessage2(c: Crypto, s: Session, m: Message2) {
    && KeyedWith(c, s, m.gy)
    && s.th2 == TH2(c, s.message1, m.gy, m.cr) && s.peerConnID == m.cr && s.th3 == NextTH(c, s.th2, m.ciphertext)
    && |m.gy| <= MAX_BYTES && |m.cr| <= MAX_BYTES && |m.ciphertext| <= MAX_BYTES
  }

  /** What a responder's session has made of message_1. */
  predicate TookMessage1(c: Crypto, s: Session) {
    var d := DecodeMessage1(s.message1);
    && d.Success? && c.dhAccepts(s.sp.curve, d.value.gx) && KeyedWith(c, s, d.value.gx)
    && s.peerConnID == d.value.ci && s.sp == ParamsOf(s.suite)
    && s.th2 == TH2(c, s.message1, Share(c, s), s.connectionID)
    && s.th3 == NextTH(c, s.th2, s.ciphertext2) && |s.ciphertext2| <= MAX_BYTES
  }

  /** The session belongs to the start of its run, and its hashes and keys to the message_1 it has answered. */
  predicate ResponderKeeps(c: Crypto, start: Session, s: Session) {
    && s.cfg == start.cfg && s.connectionID == start.connectionID
    && (!s.phase.Init? ==> TookMessage1(c, s))
  }

  lemma SealedLength(c: Crypto, s: Session, entropy: Bstr)
    requires s.cfg.HasKeys() && s.sp == ParamsOf(s.suite) && SealMessage2(c, s, entropy).Success?
    ensures |SealMessage2(c, s, entropy).value| <= MAX_BYTES
  {
    hide AuthPlaintext, Kdf, Enc, C.Sealed;
    assert Pow256(2) == 0x1_0000;
  }

  lemma ResponderStepKeeps(c: Crypto, start: Session, s: Session, call: ResponderCall)
    requires s.cfg.HasKeys() && ResponderKeeps(c, start, s)
    ensures ResponderKeeps(c, start, ResponderStep(c, s, call).session)
  {
    hide ResponderStep, DecodeMessage1, TH2, NextTH, SealMessage2, Negotiated, ParamsOf, EncodeMessage2, SignedBy,
         Authentic;
    ResponderStepPhase(c, s, call);
    var s' := ResponderStep(c, s, call).session;
    if s.phase.Init? && s'.phase.Sent? {
      AnsweredKeeps(c, s, call.msg, s');
    } else if s.phase.Sent? && s'.phase.Complete? {
      AcceptedKeeps(c, s, call.msg3, s');
    } else if s.phase.Init? {
      InitStepFails(c, s, call);
    }
  }

  lemma AnsweredKeeps(c: Crypto, s: Session, msg: Bstr, s': Session)
    requires s.cfg.HasKeys() && Answered1(c, s, msg, s')
    ensures s'.cfg == s.cfg && s'.connectionID == s.connectionID && TookMessage1(c, s')
  {
    hide DecodeMessage1, TH2, NextTH, SealMessage2, Negotiated, ParamsOf;
    var m, shared, entropy :|
      && s.phase.Init? && s'.cfg == s.cfg && s'.cfg.HasKeys()
      && DecodeMessage1(msg) == Success(m) && m.methodNumber == 0
      && Negotiated(s.cfg.suites, m.suites) == Some(s'.suite) && s'.sp == ParamsOf(s'.suite)
      && c.dhAccepts(s'.sp.curve, m.gx)
      && c.dhShared(s'.sp.curve, s'.ephPriv, m.gx) == Some(shared)
      && s'.prk2e == s'.prk3e2m == s'.prk4e3m == c.extract(shared)
      && s'.message1 == msg && s'.peerConnID == m.ci && s'.connectionID == s.connectionID
      && s'.th2 == TH2(c, msg, c.dhPublic(s'.sp.curve, s'.ephPriv), s'.connectionID)
      && SealMessage2(c, s', entropy) == Success(s'.ciphertext2)
      && s'.th3 == NextTH(c, s'.th2, s'.ciphertext2)
      && s'.phase.Sent?;
    SealedLength(c, s', entropy);
  }

  lemma AcceptedKeeps(c: Crypto, s: Session, msg: Bstr, s': Session)
    requires s.cfg.HasKeys() && Accepted3(c, s, msg, s')
    ensures s.phase.Sent? && s' == s.(th4 := s'.th4, phase := Complete)
  {
    hide DecodeBytesItem, NextTH, Authentic;
  }

  lemma InitStepFails(c: Crypto, s: Session, call: ResponderCall)
    requires s.cfg.HasKeys() && s.phase.Init? && ResponderStep(c, s, call).session.phase.Init?
    ensures var s' := ResponderStep(c, s, call).session; s'.cfg == s.cfg && s'.connectionID == s.connectionID
  {
    hide DecodeMessage1, TH2, NextTH, SealMessage2, Negotiated, ParamsOf, EncodeMessage2, DecodeBytesItem, OpenMessage3;
  }

  lemma {:induction false} ResponderRunKeeps(c: Crypto, start: Session, calls: seq<ResponderCall>)
    requires start.cfg.HasKeys() && start.phase.Init?
    ensures ResponderKeeps(c, start, ResponderRun(c, start, calls))
  {
    hide ResponderStep, ResponderKeeps;
    if calls == [] {
      NothingAnswered(c, start);
    } else {
      ResponderRunKeeps(c, start, calls[..|calls| - 1]);
      ResponderStepKeeps(c, start, ResponderRun(c, start, calls[..|calls| - 1]), calls[|calls| - 1]);
    }
  }

  lemma NothingAnswered(c: Crypto, start: Session)
    requires start.phase.Init?
    ensures ResponderKeeps(c, start, start)
  {
  }

  // ---------------------------------------------------------------- decoded parts

  lemma DecodedBytesAreShort(data: Bstr)
    requires DecodeOne(data).Success? && DecodeOne(data).value.value.ByteString?
    ensures |DecodeOne(data).value.value.b| <= MAX_BYTES
  {
    hide Decode;
    DecodedIsGuaranteed(data, DEFAULT);
  }

  lemma DecodedIDIsShort(data: Bstr)
    requires DecodeConnectionID(data).Success?
    ensures |DecodeConnectionID(data).value.cid| <= MAX_BYTES
  {
    hide DecodeOne;
    if DecodeOne(data).value.value.ByteString? {
      DecodedBytesAreShort(data);
    }
  }

  lemma Message2IsShort(msg: Bstr)
    requires DecodeMessage2(msg).Success?
    ensures var m := DecodeMessage2(msg).value;
            |m.gy| <= MAX_BYTES && |m.cr| <= MAX_BYTES && |m.ciphertext| <= MAX_BYTES
  {
    hide DecodeOne, DecodeConnectionID;
    var gy := DecodeOne(msg).value;
    DecodedBytesAreShort(msg);
    DecodedIDIsShort(gy.rest);
    DecodedBytesAreShort(DecodeConnectionID(gy.rest).value.rest);
  }

  /** A message_1 does not start like a byte string, as the inputs of TH_3 and TH_4 do. */
  lemma Message1Start(data: Bstr)
    requires DecodeMessage1(data).Success?
    ensures data != [] && data[0] / 32 != MAJOR_BYTES
  {
    hide DecodedSuites, DecodeConnectionID;
    var d := DecodeOne(data);
    assert d.Success? && d.value.value.Uint?;
    UintStart(data);
  }

  lemma UintStart(data: Bstr)
    requires DecodeOne(data).Success? && DecodeOne(data).value.value.Uint?
    ensures data != [] && data[0] / 32 != MAJOR_BYTES
  {
    hide ParseHead, DecodeChunks;
    assert data[0..] == data;
    assert data[0] / 32 == ParseHead(data).major by {
      HeadMajor(data);
    }
  }

  lemma HeadMajor(data: Bstr)
    requires data != [] && ParseHead(data).n > 0
    ensures ParseHead(data).major == data[0] / 32
  {
  }

  lemma InputsDiffer(message1: Bstr, gy: Bstr, cr: Bstr, th: Bstr, ciphertext: Bstr)
    requires DecodeMessage1(message1).Success?
    ensures Input2(message1, gy, cr) != InputNext(th, ciphertext)
  {
    hide EncodeConnectionID, DecodeMessage1;
    Message1Start(message1);
    assert Input2(message1, gy, cr)[0] == message1[0];
    var head := HeadBytes(MAJOR_BYTES, Len64(|th|));
    assert InputNext(th, ciphertext)[0] == head[0] && head[0] / 32 == MAJOR_BYTES;
  }

  // ---------------------------------------------------------------- what an initiator has sent

  lemma SentIsSelfDelimiting(m: Message1)
    requires Message1Fits(m)
    ensures SelfDelimiting(EncodeMessage1(m))
    ensures DecodeMessage1(EncodeMessage1(m)) == Success(m.(selected := m.suites[0]))
  {
    hide DecodeOne, Cbor, DecodedSuites, DecodeConnectionID, EncodeConnectionID, SuitesValue;
    var tail := Cbor(ByteString(m.gx)) + EncodeConnectionID(m.ci);
    Message1RoundTrip(m);
    UintItem(ToU64(m.methodNumber), Cbor(SuitesValue(m.suites)) + tail);
    SuitesRoundTrip(m.suites, tail);
    BytesItem(m.gx, EncodeConnectionID(m.ci));
    ConnectionIDRoundTrip(m.ci, []);
    assert EncodeConnectionID(m.ci) + [] == EncodeConnectionID(m.ci);
  }

  lemma NewSessionsFit(c: Crypto, p: Config, run: PartyRun)
    requires Fresh(p, run) && Limits(c, p)
    ensures |run.start.connectionID| <= MAX_BYTES && run.start.cfg == p && p.suites != [] && |p.suites| <= MAX_ITEMS
    ensures run.AsInitiator? ==> run.start.sp == ParamsOf(run.start.suite)
  {
  }

  /** What an initiator's session that has sent message_1 holds. */
  predicate SentMessage(c: Crypto, s: Session) {
    var d := DecodeMessage1(s.message1);
    && SelfDelimiting(s.message1) && d.Success? && d.value.gx == Share(c, s) && d.value.ci == s.connectionID
    && s.sp == ParamsOf(s.suite)
  }

  /** An initiator's run that has sent message_1, from the limits of its configuration. */
  lemma InitiatorSent(c: Crypto, p: Config, run: PartyRun)
    requires run.AsInitiator? && Fresh(p, run) && Limits(c, p) && p.HasKeys() && run.start.cfg == p
    requires !EndOf(c, run).phase.Init?
    ensures SentMessage(c, EndOf(c, run))
  {
    hide InitiatorRun, Fresh, EncodeMessage1, DecodeMessage1, Tail;
    FreshHasKeys(p, run);
    NewSessionsFit(c, p, run);
    InitiatorRunKeeps(c, run.start, run.initiated);
    SentIsSelfDelimiting(SentMessage1(c, EndOf(c, run)));
  }

  // ---------------------------------------------------------------- one transcript

  /**
   The initiator's session q, which took m, and the responder's session r speak of one message_1; and
   message_1, G_Y and C_R are the same bytes exactly if nothing follows the last item of message_1.
   */
  predicate SameMessages(c: Crypto, q: Session, m: Message2, r: Session) {
    && DecodeMessage1(q.message1) == DecodeMessage1(r.message1)
    && (SelfDelimiting(r.message1) <==> (q.message1 == r.message1 && m.gy == Share(c, r) && m.cr == r.connectionID))
  }

  /** Shares of one curve commute, and shares of different curves are told apart. */
  ghost predicate SharesCommute(c: Crypto) {
    && CurvesApart(c)
    && forall curve: Curve, x: Bstr, y: Bstr :: !curve.NoCurve? ==>
         c.dhShared(curve, x, c.dhPublic(curve, y)) == c.dhShared(curve, y, c.dhPublic(curve, x))
  }

  /** The two sessions have the same keys, and are each other's peer. */
  predicate SharesKeys(q: Session, r: Session) {
    && q.sp == r.sp && q.prk2e == r.prk2e && q.prk3e2m == r.prk3e2m && q.prk4e3m == r.prk4e3m
    && q.connectionID == r.peerConnID && r.connectionID == q.peerConnID
  }

  /** The same messages, and, where they are the same bytes and shares commute, the same keys. */
  ghost predicate Agrees(c: Crypto, q: Session, m: Message2, r: Session) {
    && SameMessages(c, q, m, r)
    && (SharesCommute(c) && SelfDelimiting(r.message1) ==> SharesKeys(q, r))
  }

  lemma SameMessagesShareKeys(c: Crypto, q: Session, m: Message2, r: Session)
    requires SentMessage(c, q) && TookMessage2(c, q, m) && TookMessage1(c, r)
    requires SameMessages(c, q, m, r) && SharesCommute(c) && SelfDelimiting(r.message1)
    ensures SharesKeys(q, r)
  {
    hide DecodeMessage1, Tail, TH2, NextTH;
    assert c.dhAccepts(r.sp.curve, Share(c, q));
    assert r.sp.curve == q.sp.curve;
    assert c.dhShared(q.sp.curve, q.ephPriv, Share(c, r)) == c.dhShared(q.sp.curve, r.ephPriv, Share(c, q));
  }

  /** Equal TH_2 means the same messages, and so the same keys, or a collision. */
  lemma SameTH2(c: Crypto, q: Session, m: Message2, r: Session)
    requires SentMessage(c, q) && TookMessage2(c, q, m) && TookMessage1(c, r) && q.th2 == r.th2
    requires |Share(c, r)| <= MAX_BYTES && |r.connectionID| <= MAX_BYTES
    ensures Agrees(c, q, m, r)
            || Collides(c, Input2(q.message1, m.gy, m.cr), Input2(r.message1, Share(c, r), r.connectionID))
  {
    hide DecodeMessage1, Tail, Input2, NextTH, TH2, SharesCommute, SharesKeys, KeyedWith;
    InputsAreHashed(c, q.message1, m.gy, m.cr, [], []);
    InputsAreHashed(c, r.message1, Share(c, r), r.connectionID, [], []);
    if Input2(q.message1, m.gy, m.cr) == Input2(r.message1, Share(c, r), r.connectionID) {
      Input2IsInjective(q.message1, m.gy, m.cr, r.message1, Share(c, r), r.connectionID);
      if SharesCommute(c) && SelfDelimiting(r.message1) {
        SameMessagesShareKeys(c, q, m, r);
      }
    }
  }

  // ---------------------------------------------------------------- signatures name their run

  lemma SignStructBounds(idCred: Bstr, th: Bstr, mac: Bstr)
    requires SignStruct(idCred, th, mac).Success?
    ensures var n := |SignStruct(idCred, th, mac).value|; |idCred| <= n && |th| <= n && |mac| <= n
  {
    hide HeadBytes;
    var items := SignStructValue(idCred, th, mac).items;
    assert items[1..][0] == items[1] && items[1..][1..] == items[2..];
    assert items[2..][0] == items[2] && items[2..][1..] == items[3..];
    assert items[3..][0] == items[3] && items[3..][1..] == [];
    ItemBounds(items[3..], mac);
    ItemBounds(items[2..], th);
    ItemBounds(items[1..], idCred);
    assert EncItems(items, CORE_DETERMINISTIC) ==
           Then(EncInline(items[0], CORE_DETERMINISTIC), EncItems(items[1..], CORE_DETERMINISTIC));
  }

  lemma ItemBounds(items: seq<Value>, b: Bstr)
    requires items != [] && items[0] == ByteString(b)
    ensures var r := EncItems(items, CORE_DETERMINISTIC);
            && |b| <= |r.out| && |EncItems(items[1..], CORE_DETERMINISTIC).out| <= |r.out|
            && (r.Ok() <==> EncItems(items[1..], CORE_DETERMINISTIC).Ok())
  {
    hide HeadBytes;
    assert EncInline(items[0], CORE_DETERMINISTIC) == Done(StringBytes(MAJOR_BYTES, b));
  }

  /** The transcript hash a run has signed over. */
  function SignedTH(c: Crypto, run: PartyRun): Bstr
    requires run.start.cfg.HasKeys()
  {
    if run.AsInitiator? then EndOf(c, run).th3 else EndOf(c, run).th2
  }

  /** The run has got as far as sending its signature. */
  predicate HasSigned(c: Crypto, run: PartyRun)
    requires run.start.cfg.HasKeys()
  {
    if run.AsInitiator? then EndOf(c, run).phase.Complete? else !EndOf(c, run).phase.Init?
  }

  lemma ReleasedParts(c: Crypto, p: Config, run: PartyRun, data: Bstr) returns (idCred: Bstr, mac: Bstr)
    requires p.HasKeys() && run.start.cfg == p && Released(c, p, run, data)
    ensures HasSigned(c, run) && SignStruct(idCred, SignedTH(c, run), mac) == Success(data)
  {
    hide SignStruct, Kdf, CborEncode, InitiatorRun, ResponderRun;
    var end := EndOf(c, run);
    idCred := CborEncode(IdCredValue(c, p)).value;
    if run.AsInitiator? {
      mac := Kdf(c, end.prk4e3m, end.th3, "MAC_3", end.sp.tagSize).value;
    } else {
      mac := Kdf(c, end.prk3e2m, end.th2, "MAC_2", end.sp.tagSize).value;
    }
  }

  lemma SignedByVerifies(c: Crypto, cfg: Config, sp: SuiteParams, macKey: Bstr, th: Bstr, macLabel: string,
                         plaintext: Bstr)
    returns (data: Bstr)
    requires cfg.HasKeys() && SignedBy(c, cfg, sp, macKey, th, macLabel, plaintext)
    ensures Verifies(c, cfg, sp, macKey, th, macLabel, plaintext, data)
  {
    hide DecodeOne, DecodeBytesItem, Kdf, CborEncode, SignStruct, PeerKey;
    var idCred, signature, mac, encoded, signed, key :|
      && DecodeOne(plaintext) == Success(idCred)
      && DecodeBytesItem(idCred.rest) == Success(signature)
      && Kdf(c, macKey, th, macLabel, sp.tagSize) == Success(mac)
      && CborEncode(idCred.value) == Success(encoded)
      && SignStruct(encoded, th, mac) == Success(signed)
      && PeerKey(c, cfg, idCred.value) == Success(key)
      && c.verify(key, signed, signature);
    data := signed;
  }

  lemma SignedVerifies(c: Crypto, cfg: Config, sp: SuiteParams, macKey: Bstr, encKey: Bstr, th: Bstr,
                       macLabel: string, keyLabel: string, ivLabel: string, ciphertext: Bstr)
    returns (plaintext: Bstr, data: Bstr)
    requires cfg.HasKeys() && Authentic(c, cfg, sp, macKey, encKey, th, macLabel, keyLabel, ivLabel, ciphertext)
    ensures Opens(c, sp, encKey, th, keyLabel, ivLabel, ciphertext, plaintext)
    ensures Verifies(c, cfg, sp, macKey, th, macLabel, plaintext, data)
  {
    hide ChannelFor, SealOn, SignedBy, Verifies;
    var ch;
    ch, plaintext :|
      && ChannelFor(c, sp, encKey, th, keyLabel, ivLabel) == Success(ch)
      && SealOn(ch, plaintext) == Success(ciphertext)
      && SignedBy(c, cfg, sp, macKey, th, macLabel, plaintext);
    data := SignedByVerifies(c, cfg, sp, macKey, th, macLabel, plaintext);
  }

  lemma VerifiedParts(c: Crypto, cfg: Config, sp: SuiteParams, macKey: Bstr, th: Bstr, macLabel: string,
                      plaintext: Bstr, data: Bstr)
    returns (encoded: Bstr, mac: Bstr)
    requires cfg.HasKeys() && Verifies(c, cfg, sp, macKey, th, macLabel, plaintext, data)
    ensures SignStruct(encoded, th, mac) == Success(data)
  {
    hide DecodeOne, DecodeBytesItem, Kdf, CborEncode, SignStruct, PeerKey;
    var idCred, signature, key;
    idCred, signature, mac, encoded, key :|
      && DecodeOne(plaintext) == Success(idCred)
      && DecodeBytesItem(idCred.rest) == Success(signature)
      && Kdf(c, macKey, th, macLabel, sp.tagSize) == Success(mac)
      && CborEncode(idCred.value) == Success(encoded)
      && SignStruct(encoded, th, mac) == Success(data)
      && PeerKey(c, cfg, idCred.value) == Success(key)
      && c.verify(key, data, signature);
  }

  /** A message that was accepted over th, and not forged, was signed by the peer in one of the runs over th. */
  lemma AuthenticIsReleased(c: Crypto, cfg: Config, p: Config, runs: iset<PartyRun>, sp: SuiteParams, macKey: Bstr,
                            encKey: Bstr, th: Bstr, macLabel: string, keyLabel: string, ivLabel: string,
                            ciphertext: Bstr)
    returns (run: PartyRun)
    requires cfg.HasKeys() && p.HasKeys()
    requires Vouched(c, cfg, p, runs, sp, macKey, encKey, th, macLabel, keyLabel, ivLabel, ciphertext)
    requires Authentic(c, cfg, sp, macKey, encKey, th, macLabel, keyLabel, ivLabel, ciphertext)
    ensures run in runs && Fresh(p, run) && run.start.cfg == p && HasSigned(c, run) && SignedTH(c, run) == th
  {
    hide Opens, Verifies, Authentic, SignStruct, Released, Fresh, HasSigned, SignedTH;
    var plaintext, data := SignedVerifies(c, cfg, sp, macKey, encKey, th, macLabel, keyLabel, ivLabel, ciphertext);
    run :| run in runs && Fresh(p, run) && run.start.cfg == p && Released(c, p, run, data);
    var idCred', mac' := ReleasedParts(c, p, run, data);
    var idCred, mac := VerifiedParts(c, cfg, sp, macKey, th, macLabel, plaintext, data);
    SignStructBounds(idCred, th, mac);
    SignStructBounds(idCred', SignedTH(c, run), mac');
    SignStructIsInjective(idCred, th, mac, idCred', SignedTH(c, run), mac');
  }

  // ---------------------------------------------------------------- the initiator's peer

  /** What a complete initiator took in, and that it was authentic. */
  lemma CompleteInitiatorTook(c: Crypto, start: Session, calls: seq<InitiatorCall>)
    returns (m: Message2, sent: Bstr)
    requires start.cfg.HasKeys() && start.phase.Init? && InitiatorRun(c, start, calls).phase.Complete?
    ensures var end := InitiatorRun(c, start, calls);
            && end.cfg == start.cfg && Delivered2(calls, m) && TookMessage2(c, end, m) && SentMessage3(c, end, sent)
            && Authentic(c, start.cfg, end.sp, end.prk3e2m, end.prk2e, end.th2, "MAC_2", "K_2e", "IV_2e", m.ciphertext)
  {
    hide Accepted2, InitiatorStep, Authentic, TookMessage2, TH2, NextTH, DecodeMessage2, EncodeMessage1,
         SentMessage3;
    CompleteInitiatorIsAuthenticated(c, start, calls);
    var end := InitiatorRun(c, start, calls);
    var k :| 0 <= k < |calls| && calls[k].Receive2?
             && Accepted2(c, InitiatorRun(c, start, calls[..k]), calls[k].msg, end)
             && forall j | 0 <= j <= k :: !InitiatorRun(c, start, calls[..j]).phase.Complete?;
    InitiatorRunKeeps(c, start, calls);
    InitiatorRunKeeps(c, start, calls[..k]);
    m, sent := Accepted2Took(c, InitiatorRun(c, start, calls[..k]), calls[k].msg, end);
  }

  lemma Accepted2Took(c: Crypto, before: Session, msg: Bstr, end: Session) returns (m: Message2, sent: Bstr)
    requires before.cfg.HasKeys() && Accepted2(c, before, msg, end)
    ensures DecodeMessage2(msg) == Success(m) && TookMessage2(c, end, m)
    ensures end.cfg == before.cfg && SentMessage3(c, end, sent)
    ensures Authentic(c, before.cfg, before.sp, end.prk3e2m, end.prk2e, end.th2, "MAC_2", "K_2e", "IV_2e", m.ciphertext)
  {
    hide Authentic, TH2, NextTH, DecodeMessage2, SentMessage3;
    var shared;
    m, shared, sent :|
      && before.phase.Sent? && end.cfg == before.cfg
      && DecodeMessage2(msg) == Success(m)
      && c.dhAccepts(before.sp.curve, m.gy)
      && c.dhShared(before.sp.curve, before.ephPriv, m.gy) == Some(shared)
      && end.prk2e == end.prk3e2m == end.prk4e3m == c.extract(shared)
      && end.message1 == before.message1 && end.th2 == TH2(c, end.message1, m.gy, m.cr)
      && end.th3 == NextTH(c, end.th2, m.ciphertext)
      && end.peerConnID == m.cr && SentMessage3(c, end, sent)
      && Authentic(c, before.cfg, before.sp, end.prk3e2m, end.prk2e, end.th2, "MAC_2", "K_2e", "IV_2e", m.ciphertext);
    Message2IsShort(msg);
  }

  /**
   What the run of the peer has in common with a complete initiator's session that took m: a responder
   that computed the same TH_2, over the same messages. If the peer signed as an initiator, or over other
   messages, the two hash inputs collide.
   */
  ghost predicate InitiatorMatches(c: Crypto, end: Session, m: Message2, run: PartyRun)
    requires run.start.cfg.HasKeys()
  {
    var r := EndOf(c, run);
    if run.AsResponder? then
      && !r.phase.Init? && r.th2 == end.th2
      && (Agrees(c, end, m, r)
          || Collides(c, Input2(end.message1, m.gy, m.cr), Input2(r.message1, Share(c, r), r.connectionID)))
    else
      && r.phase.Complete? && r.th3 == end.th2
      && exists m': Message2 ::
           TookMessage2(c, r, m') && Collides(c, Input2(end.message1, m.gy, m.cr), InputNext(r.th2, m'.ciphertext))
  }

  /** A responder's run that has answered, as a session. */
  lemma ResponderAnswered(c: Crypto, p: Config, run: PartyRun)
    requires run.AsResponder? && Fresh(p, run) && Limits(c, p) && p.HasKeys() && run.start.cfg == p
    requires !EndOf(c, run).phase.Init?
    ensures var r := EndOf(c, run);
            TookMessage1(c, r) && |Share(c, r)| <= MAX_BYTES && |r.connectionID| <= MAX_BYTES
  {
    hide ResponderRun, Fresh, DecodeMessage1, TH2, NextTH;
    FreshHasKeys(p, run);
    NewSessionsFit(c, p, run);
    ResponderRunKeeps(c, run.start, run.answered);
  }

  lemma InitiatorPeer(c: Crypto, cfg: Config, p: Config, runs: iset<PartyRun>, run: PartyRun)
    returns (m: Message2, other: PartyRun)
    requires cfg.HasKeys() && p.HasKeys() && Limits(c, cfg) && Limits(c, p)
    requires run.AsInitiator? && run.start.cfg == cfg && Fresh(cfg, run) && NotForged(c, p, runs, run)
             && EndOf(c, run).phase.Complete?
    ensures TookMessage2(c, EndOf(c, run), m)
    ensures other in runs && Fresh(p, other) && other.start.cfg == p && InitiatorMatches(c, EndOf(c, run), m, other)
  {
    hide InitiatorRun, ResponderRun, Fresh, Vouched, Limits, Authentic, TookMessage2, Delivered2, Delivered3,
         TookMessage1, SentMessage, Agrees, KeyedWith, TH2, NextTH, Input2, InputNext, DecodeMessage1;
    FreshHasKeys(cfg, run);
    var sent;
    m, sent := CompleteInitiatorTook(c, run.start, run.initiated);
    var end := EndOf(c, run);
    other := AuthenticIsReleased(c, cfg, p, runs, end.sp, end.prk3e2m, end.prk2e, end.th2, "MAC_2", "K_2e", "IV_2e",
                                 m.ciphertext);
    InitiatorSent(c, cfg, run);
    if other.AsResponder? {
      ResponderAnswered(c, p, other);
      SameTH2(c, end, m, EndOf(c, other));
    } else {
      FreshHasKeys(p, other);
      var m', _ := CompleteInitiatorTook(c, other.start, other.initiated);
      OtherRole(c, end, m, EndOf(c, other), m');
    }
  }

  /**
   A complete initiator, after any run, has a peer: one of the runs that took place, of the party whose
   signature it verified, over the same TH_2 and so, collisions apart, with the same message_1, G_Y and
   C_R and the same keys.
   */
  lemma CompleteInitiatorHasPeer(c: Crypto, cfg: Config, p: Config, runs: iset<PartyRun>, run: PartyRun)
    requires cfg.HasKeys() && p.HasKeys() && Limits(c, cfg) && Limits(c, p)
    requires run.AsInitiator? && run.start.cfg == cfg && Fresh(cfg, run) && NotForged(c, p, runs, run)
    requires EndOf(c, run).phase.Complete?
    ensures exists m: Message2, other: PartyRun ::
              && TookMessage2(c, EndOf(c, run), m)
              && other in runs && Fresh(p, other) && other.start.cfg == p
              && InitiatorMatches(c, EndOf(c, run), m, other)
  {
    hide EndOf, TookMessage2, InitiatorMatches, Fresh, NotForged, Limits;
    var m, other := InitiatorPeer(c, cfg, p, runs, run);
  }

  /** TH_2 of one session is TH_3 of another only by a collision. */
  lemma OtherRole(c: Crypto, end: Session, m: Message2, q: Session, m': Message2)
    requires TookMessage2(c, end, m) && SentMessage(c, end) && TookMessage2(c, q, m') && q.th3 == end.th2
    ensures Collides(c, Input2(end.message1, m.gy, m.cr), InputNext(q.th2, m'.ciphertext))
  {
    hide DecodeMessage1, Tail, Input2, InputNext, NextTH, TH2;
    InputsAreHashed(c, end.message1, m.gy, m.cr, q.th2, m'.ciphertext);
    InputsDiffer(end.message1, m.gy, m.cr, q.th2, m'.ciphertext);
  }

  // ---------------------------------------------------------------- the responder's peer

  /**
   What the run of the peer has in common with a complete responder's session: an initiator that is
   complete with the same TH_3, over the same TH_2 and ciphertext_2 and so over the same messages. All
   else is a collision.
   */
  ghost predicate ResponderMatches(c: Crypto, end: Session, run: PartyRun)
    requires run.start.cfg.HasKeys()
  {
    var q := EndOf(c, run);
    if run.AsInitiator? then
      && q.phase.Complete? && q.th3 == end.th3
      && exists m: Message2 ::
           && TookMessage2(c, q, m)
           && (Collides(c, InputNext(q.th2, m.ciphertext), InputNext(end.th2, end.ciphertext2))
               || (q.th2 == end.th2 && m.ciphertext == end.ciphertext2
                   && (Agrees(c, q, m, end)
                       || Collides(c, Input2(q.message1, m.gy, m.cr),
                                   Input2(end.message1, Share(c, end), end.connectionID)))))
    else
      && !q.phase.Init? && q.th2 == end.th3
      && Collides(c, InputNext(end.th2, end.ciphertext2), Input2(q.message1, Share(c, q), q.connectionID))
  }

  lemma CompleteResponderAccepted(c: Crypto, start: Session, calls: seq<ResponderCall>) returns (ciphertext: Bstr)
    requires start.cfg.HasKeys() && start.phase.Init? && ResponderRun(c, start, calls).phase.Complete?
    ensures var end := ResponderRun(c, start, calls);
            && end.cfg == start.cfg && Delivered3(calls, ciphertext) && end.th4 == NextTH(c, end.th3, ciphertext)
            && Authentic(c, start.cfg, end.sp, end.prk4e3m, end.prk3e2m, end.th3, "MAC_3", "K_3e", "IV_3e", ciphertext)
  {
    hide Accepted3, Answered1, ResponderStep, Authentic, NextTH;
    CompleteResponderIsAuthenticated(c, start, calls);
    var end := ResponderRun(c, start, calls);
    var j, k :| 0 <= j < k < |calls| && calls[j].Receive1? && calls[k].Receive3?
                && Answered1(c, ResponderRun(c, start, calls[..j]), calls[j].msg, ResponderRun(c, start, calls[..k]))
                && Accepted3(c, ResponderRun(c, start, calls[..k]), calls[k].msg3, end);
    ciphertext := Accepted3Opened(c, ResponderRun(c, start, calls[..k]), calls[k].msg3, end);
  }

  lemma Accepted3Opened(c: Crypto, before: Session, msg: Bstr, end: Session) returns (ciphertext: Bstr)
    requires before.cfg.HasKeys() && Accepted3(c, before, msg, end)
    ensures end.cfg == before.cfg && DecodeBytesItem(msg) == Success(ciphertext)
    ensures end.th4 == NextTH(c, end.th3, ciphertext)
    ensures Authentic(c, end.cfg, end.sp, end.prk4e3m, end.prk3e2m, end.th3, "MAC_3", "K_3e", "IV_3e", ciphertext)
  {
    hide Authentic, NextTH, DecodeBytesItem;
    ciphertext :|
      && before.phase.Sent?
      && DecodeBytesItem(msg) == Success(ciphertext)
      && end == before.(th4 := NextTH(c, before.th3, ciphertext), phase := Complete)
      && Authentic(c, before.cfg, before.sp, before.prk4e3m, before.prk3e2m, before.th3, "MAC_3", "K_3e", "IV_3e",
                   ciphertext);
  }

  lemma ResponderPeer(c: Crypto, cfg: Config, p: Config, runs: iset<PartyRun>, run: PartyRun)
    returns (other: PartyRun)
    requires cfg.HasKeys() && p.HasKeys() && Limits(c, cfg) && Limits(c, p)
    requires run.AsResponder? && run.start.cfg == cfg && Fresh(cfg, run) && NotForged(c, p, runs, run)
             && EndOf(c, run).phase.Complete?
    ensures other in runs && Fresh(p, other) && other.start.cfg == p && ResponderMatches(c, EndOf(c, run), other)
  {
    hide InitiatorRun, ResponderRun, Fresh, Vouched, Limits, Authentic, TookMessage2, Delivered2, Delivered3,
         TookMessage1, SentMessage, Agrees, KeyedWith, TH2, NextTH, Input2, InputNext, DecodeMessage1, Collides;
    FreshHasKeys(cfg, run);
    var ciphertext := CompleteResponderAccepted(c, run.start, run.answered);
    var end := EndOf(c, run);
    other := AuthenticIsReleased(c, cfg, p, runs, end.sp, end.prk4e3m, end.prk3e2m, end.th3, "MAC_3", "K_3e", "IV_3e",
                                 ciphertext);
    ResponderAnswered(c, cfg, run);
    FreshHasKeys(p, other);
    if other.AsInitiator? {
      var m, _ := CompleteInitiatorTook(c, other.start, other.initiated);
      InitiatorSent(c, p, other);
      HashesAreShort(c, p, EndOf(c, other), m, end);
      SameTH3(c, EndOf(c, other), m, end);
    } else {
      ResponderAnswered(c, p, other);
      OtherResponder(c, end, EndOf(c, other));
    }
  }

  /**
   A complete responder, after any run, has a peer: one of the runs that took place, complete as initiator
   over the same transcript and with the same keys.
   */
  lemma CompleteResponderHasPeer(c: Crypto, cfg: Config, p: Config, runs: iset<PartyRun>, run: PartyRun)
    requires cfg.HasKeys() && p.HasKeys() && Limits(c, cfg) && Limits(c, p)
    requires run.AsResponder? && run.start.cfg == cfg && Fresh(cfg, run) && NotForged(c, p, runs, run)
    requires EndOf(c, run).phase.Complete?
    ensures exists other: PartyRun ::
              && other in runs && Fresh(p, other) && other.start.cfg == p
              && ResponderMatches(c, EndOf(c, run), other)
  {
    hide EndOf, ResponderMatches, Fresh, NotForged, Limits;
    var other := ResponderPeer(c, cfg, p, runs, run);
  }

  lemma HashesAreShort(c: Crypto, p: Config, q: Session, m: Message2, end: Session)
    requires Limits(c, p) && TookMessage2(c, q, m) && TookMessage1(c, end)
    ensures |q.th2| <= MAX_BYTES && |end.th2| <= MAX_BYTES
  {
  }

  /** Equal TH_3 means the same TH_2 and ciphertext_2, and so on, or a collision. */
  lemma SameTH3(c: Crypto, q: Session, m: Message2, end: Session)
    requires SentMessage(c, q) && TookMessage2(c, q, m) && TookMessage1(c, end) && q.th3 == end.th3
    requires |q.th2| <= MAX_BYTES && |end.th2| <= MAX_BYTES
    requires |Share(c, end)| <= MAX_BYTES && |end.connectionID| <= MAX_BYTES
    ensures Collides(c, InputNext(q.th2, m.ciphertext), InputNext(end.th2, end.ciphertext2))
            || (q.th2 == end.th2 && m.ciphertext == end.ciphertext2
                && (Agrees(c, q, m, end)
                    || Collides(c, Input2(q.message1, m.gy, m.cr),
                                Input2(end.message1, Share(c, end), end.connectionID))))
  {
    hide DecodeMessage1, Tail, Input2, NextTH, TH2, SelfDelimiting, Agrees, Cbor, KeyedWith;
    InputsAreHashed(c, q.message1, m.gy, m.cr, q.th2, m.ciphertext);
    InputsAreHashed(c, end.message1, Share(c, end), end.connectionID, end.th2, end.ciphertext2);
    if InputNext(q.th2, m.ciphertext) == InputNext(end.th2, end.ciphertext2) {
      TranscriptInputIsInjective(q.th2, m.ciphertext, end.th2, end.ciphertext2);
      SameTH2(c, q, m, end);
    }
  }

  lemma OtherResponder(c: Crypto, end: Session, r: Session)
    requires TookMessage1(c, end) && TookMessage1(c, r) && r.th2 == end.th3
    ensures Collides(c, InputNext(end.th2, end.ciphertext2), Input2(r.message1, Share(c, r), r.connectionID))
  {
    hide DecodeMessage1, Input2, InputNext, NextTH, TH2;
    InputsAreHashed(c, r.message1, Share(c, r), r.connectionID, end.th2, end.ciphertext2);
    InputsDiffer(r.message1, Share(c, r), r.connectionID, end.th2, end.ciphertext2);
  }

  // ---------------------------------------------------------------- what the two ends take out

  /** The same exports, mirrored OSCORE contexts, and a message_4 of r is one that q accepts. */
  ghost predicate SameExports(c: Crypto, q: Session, r: Session) {
    && (forall number: int, context: Bstr, length: nat ::
          Export(c, q, number, context, length) == Export(c, r, number, context, length))
    && (match (ExportOscore(c, q), ExportOscore(c, r))
        case (Success(a), Success(b)) =>
          && a.masterSecret == b.masterSecret && a.masterSalt == b.masterSalt
          && a.senderID == b.recipientID && b.senderID == a.recipientID
        case (Failure(e), Failure(e')) => e == e'
        case _ => false)
    && (forall m: Bstr ::
          CreateMessage4(c, r) == Success(m) && |m| <= MAX_BYTES ==> ProcessMessage4(c, q, m) == Success(()))
  }

  lemma SharedKeysExport(c: Crypto, q: Session, r: Session)
    requires q.phase.Complete? && r.phase.Complete? && SharesKeys(q, r) && q.th4 == r.th4
    ensures SameExports(c, q, r)
  {
    hide Kdf, CborEncode, ExporterInfo, HkdfExpand, ChannelFor, SealOn, ProcessMessage4;
    forall m: Bstr | CreateMessage4(c, r) == Success(m) && |m| <= MAX_BYTES
      ensures ProcessMessage4(c, q, m) == Success(())
    {
      Message4IsExact(c, q, m);
    }
  }

  /** Over one TH_3, TH_4 is the same exactly for the same ciphertext_3, collisions apart. */
  lemma SameTH4(c: Crypto, th3: Bstr, sent: Bstr, accepted: Bstr)
    requires |th3| <= MAX_BYTES && |sent| <= MAX_BYTES && |accepted| <= MAX_BYTES
    ensures NextTH(c, th3, sent) == NextTH(c, th3, accepted) <==>
            sent == accepted || Collides(c, InputNext(th3, sent), InputNext(th3, accepted))
  {
    hide NextTH, InputNext;
    InputsAreHashed(c, [], [], [], th3, sent);
    InputsAreHashed(c, [], [], [], th3, accepted);
    if InputNext(th3, sent) == InputNext(th3, accepted) {
      SameNextInput(th3, sent, accepted);
    }
  }

  lemma SameNextInput(th3: Bstr, sent: Bstr, accepted: Bstr)
    requires |th3| <= MAX_BYTES && |sent| <= MAX_BYTES && |accepted| <= MAX_BYTES
    requires InputNext(th3, sent) == InputNext(th3, accepted)
    ensures sent == accepted
  {
    hide Cbor;
    TranscriptInputIsInjective(th3, sent, th3, accepted);
  }

  lemma SentLength(c: Crypto, s: Session, sent: Bstr)
    requires s.cfg.HasKeys() && s.sp == ParamsOf(s.suite) && SentMessage3(c, s, sent)
    ensures |sent| <= MAX_BYTES
  {
    hide AuthPlaintext, Kdf, Enc, C.Sealed, NextTH;
    assert Pow256(2) == 0x1_0000;
  }

  lemma AcceptedLength(calls: seq<ResponderCall>, ciphertext: Bstr)
    requires Delivered3(calls, ciphertext)
    ensures |ciphertext| <= MAX_BYTES
  {
    hide DecodeOne;
    var k :| 0 <= k < |calls| && calls[k].Receive3? && DecodeBytesItem(calls[k].msg3) == Success(ciphertext);
    DecodedBytesAreShort(calls[k].msg3);
  }

  /**
   Both ends complete, with the same TH_3 and keys, as agreement leaves them. They then have the same TH_4
   exactly if the responder has accepted the ciphertext_3 that the initiator has sent, collisions apart;
   and with the same TH_4 they export the same, mirror each other, and confirm to each other.
   */
  lemma MatchedRunsExport(c: Crypto, p: Config, mine: PartyRun, theirs: PartyRun)
    requires mine.AsInitiator? && theirs.AsResponder? && p.HasKeys() && Limits(c, p)
    requires Fresh(p, mine) && mine.start.cfg == p && theirs.start.cfg.HasKeys() && theirs.start.phase.Init?
    requires EndOf(c, mine).phase.Complete? && EndOf(c, theirs).phase.Complete?
    requires SharesKeys(EndOf(c, mine), EndOf(c, theirs)) && EndOf(c, mine).th3 == EndOf(c, theirs).th3
    ensures var q, r := EndOf(c, mine), EndOf(c, theirs);
            exists sent: Bstr, accepted: Bstr ::
              && SentMessage3(c, q, sent) && Delivered3(theirs.answered, accepted)
              && r.th4 == NextTH(c, r.th3, accepted)
              && (q.th4 == r.th4 <==>
                  sent == accepted || Collides(c, InputNext(q.th3, sent), InputNext(r.th3, accepted)))
    ensures var q, r := EndOf(c, mine), EndOf(c, theirs); q.th4 == r.th4 ==> SameExports(c, q, r)
  {
    hide InitiatorRun, ResponderRun, Fresh, Authentic, TookMessage2, Delivered2, Delivered3, SentMessage3, SameExports,
         NextTH, InputNext, SelfDelimiting, DecodeMessage1;
    FreshHasKeys(p, mine);
    var q, r := EndOf(c, mine), EndOf(c, theirs);
    var m, sent := CompleteInitiatorTook(c, mine.start, mine.initiated);
    var accepted := CompleteResponderAccepted(c, theirs.start, theirs.answered);
    InitiatorSent(c, p, mine);
    SentLength(c, q, sent);
    AcceptedLength(theirs.answered, accepted);
    HashIsShort(c, p, q, m);
    SentCovers(c, q, sent);
    SameTH4(c, q.th3, sent, accepted);
    if q.th4 == r.th4 {
      SharedKeysExport(c, q, r);
    }
  }

  lemma SentCovers(c: Crypto, s: Session, sent: Bstr)
    requires s.cfg.HasKeys() && SentMessage3(c, s, sent)
    ensures s.th4 == NextTH(c, s.th3, sent)
  {
  }

  lemma HashIsShort(c: Crypto, p: Config, q: Session, m: Message2)
    requires Limits(c, p) && TookMessage2(c, q, m)
    ensures |q.th3| <= MAX_BYTES
  {
  }
}
