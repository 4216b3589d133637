/**
 An honest handshake meets what agreement asks of a run: in it no signature is forged, on either side,
 measured against the one run of the other side. So the hypothesis of `EdhocPeers` is one that runs of
 the protocol satisfy.
 */
module EdhocConsistency {
  import opened Bytes
  import opened Blocks
  import opened Wire
  import opened Values
  import opened Encoding
  import opened RoundTrip
  import opened EdhocMessages
  import opened EdhocKeys
  import opened EdhocAuth
  import opened Edhoc
  import opened EdhocRuns
  import opened EdhocAgreement
  import opened EdhocPeers
  import C = Ccm

  /** A ciphertext opens to one plaintext. */
  lemma OpensToOne(c: Crypto, sp: SuiteParams, encKey: Bstr, th: Bstr, keyLabel: string, ivLabel: string,
                   ciphertext: Bstr, p: Bstr, q: Bstr)
    requires Opens(c, sp, encKey, th, keyLabel, ivLabel, ciphertext, p)
    requires Opens(c, sp, encKey, th, keyLabel, ivLabel, ciphertext, q)
    ensures p == q
  {
    hide ChannelFor, SealOn, OpenOn;
    var ch := ChannelFor(c, sp, encKey, th, keyLabel, ivLabel).value;
    OpenUndoesSeal(ch, p, ciphertext);
    OpenUndoesSeal(ch, q, ciphertext);
  }

  /** The plaintext of an honest party verifies over what the party has signed and over nothing else. */
  lemma HonestVerifies(c: Crypto, me: Config, other: Config, suite: CipherSuite, macKey: Bstr, th: Bstr,
                       macLabel: string, entropy: Bstr, data: Bstr)
    requires HonestCrypto(c) && KnowsPeer(c, other, me) && Signs(c, me)
    ensures var p := AuthPlaintext(c, me, ParamsOf(suite), macKey, th, macLabel, entropy);
            && p.Success?
            && (Verifies(c, other, ParamsOf(suite), macKey, th, macLabel, p.value, data) <==>
                SignedData(c, me, ParamsOf(suite), macKey, th, macLabel) == Success(data))
  {
    hide HonestCrypto, AuthPlaintext, CheckAuth, Verifies, SignedData;
    AuthIsAccepted(c, me, other, suite, macKey, th, macLabel, entropy);
    var sp := ParamsOf(suite);
    var p := AuthPlaintext(c, me, sp, macKey, th, macLabel, entropy).value;
    CheckedIsSigned(c, other, sp, macKey, th, macLabel, p);
    var data' := SignedByVerifies(c, other, sp, macKey, th, macLabel, p);
    VerifiesOnlySigned(c, me, other, sp, macKey, th, macLabel, entropy, data');
    if Verifies(c, other, sp, macKey, th, macLabel, p, data) {
      VerifiesOnlySigned(c, me, other, sp, macKey, th, macLabel, entropy, data);
    }
  }

  lemma VerifiesOnlySigned(c: Crypto, me: Config, other: Config, sp: SuiteParams, macKey: Bstr, th: Bstr,
                           macLabel: string, entropy: Bstr, data: Bstr)
    requires HonestCrypto(c) && KnowsPeer(c, other, me) && Signs(c, me)
    requires var p := AuthPlaintext(c, me, sp, macKey, th, macLabel, entropy);
             p.Success? && Verifies(c, other, sp, macKey, th, macLabel, p.value, data)
    ensures SignedData(c, me, sp, macKey, th, macLabel) == Success(data)
  {
    hide Enc, Kdf, SignStruct, DecodeOne, DecodeBytesItem, Fits, Portable, IdCredValue, PeerKey, Cbor, AuthPlaintext;
    PlaintextIsSigned(c, me, sp, macKey, th, macLabel, entropy);
    var v := IdCredValue(c, me);
    IdCredPortable(c, me);
    PortableEncodes(v);
    var signature := c.sign(me.privateKey.value, SignedData(c, me, sp, macKey, th, macLabel).value, entropy).value;
    PlaintextParts(v, signature);
  }

  lemma SignedDataIsShort(c: Crypto, me: Config, sp: SuiteParams, macKey: Bstr, th: Bstr, macLabel: string)
    requires HonestCrypto(c) && me.HasKeys() && (IsCwt(me.credential) ==> |me.credential.value.cwt| <= MAX_CWT)
    requires |th| <= MAX_BYTES && sp.tagSize <= MAX_BYTES && SignedData(c, me, sp, macKey, th, macLabel).Success?
    ensures |SignedData(c, me, sp, macKey, th, macLabel).value| <= MAX_LENGTH
  {
    hide HonestCrypto, Enc, Kdf, SignStruct, IdCredValue;
    var v := IdCredValue(c, me);
    IdCredPortable(c, me);
    PortableEncodes(v);
    var mac := Kdf(c, macKey, th, macLabel, sp.tagSize).value;
    SignStructLength(Cbor(v), th, mac);
  }

  lemma SignStructLength(idCred: Bstr, th: Bstr, mac: Bstr)
    requires SignStruct(idCred, th, mac).Success?
    ensures |SignStruct(idCred, th, mac).value| <= |idCred| + |th| + |mac| + 60
  {
    hide HeadBytes;
    var items := SignStructValue(idCred, th, mac).items;
    var e := CORE_DETERMINISTIC;
    assert items[1..][0] == items[1] && items[1..][1..] == items[2..];
    assert items[2..][0] == items[2] && items[2..][1..] == items[3..];
    assert items[3..][0] == items[3] && items[3..][1..] == [];
    assert EncInline(items[0], e) == Done(StringBytes(MAJOR_TEXT, Ascii("Signature1")));
    assert EncInline(items[1], e) == Done(StringBytes(MAJOR_BYTES, idCred));
    assert EncInline(items[2], e) == Done(StringBytes(MAJOR_BYTES, th));
    assert EncInline(items[3], e) == Done(StringBytes(MAJOR_BYTES, mac));
    assert EncItems(items[3..], e) == Then(EncInline(items[3], e), Done([]));
    assert EncItems(items[2..], e) == Then(EncInline(items[2], e), EncItems(items[3..], e));
    assert EncItems(items[1..], e) == Then(EncInline(items[1], e), EncItems(items[2..], e));
    assert EncItems(items, e) == Then(EncInline(items[0], e), EncItems(items[1..], e));
  }

  /** What an honest party has sent out is vouched for. */
  lemma HonestMessageIsVouched(c: Crypto, me: Config, other: Config, suite: CipherSuite, macKey: Bstr, encKey: Bstr,
                               th: Bstr, macLabel: string, keyLabel: string, ivLabel: string, entropy: Bstr,
                               ciphertext: Bstr, runs: iset<PartyRun>, run: PartyRun)
    requires HonestCrypto(c) && KnowsPeer(c, other, me) && Signs(c, me) && |th| <= MAX_BYTES
    requires var p := AuthPlaintext(c, me, ParamsOf(suite), macKey, th, macLabel, entropy);
             p.Success? && Opens(c, ParamsOf(suite), encKey, th, keyLabel, ivLabel, ciphertext, p.value)
    requires run in runs && Fresh(me, run) && run.start.cfg == me
    requires var data := SignedData(c, me, ParamsOf(suite), macKey, th, macLabel);
             data.Success? && Released(c, me, run, data.value)
    ensures Vouched(c, other, me, runs, ParamsOf(suite), macKey, encKey, th, macLabel, keyLabel, ivLabel, ciphertext)
  {
    hide HonestCrypto, Signs, AuthPlaintext, Opens, Verifies, Released, SignedData, Fresh;
    var sp := ParamsOf(suite);
    var p := AuthPlaintext(c, me, sp, macKey, th, macLabel, entropy).value;
    forall plaintext: Bstr, data: Bstr |
      Opens(c, sp, encKey, th, keyLabel, ivLabel, ciphertext, plaintext)
      && Verifies(c, other, sp, macKey, th, macLabel, plaintext, data)
      ensures |data| <= MAX_LENGTH
      ensures exists run :: run in runs && Fresh(me, run) && run.start.cfg == me && Released(c, me, run, data)
    {
      OpensToOne(c, sp, encKey, th, keyLabel, ivLabel, ciphertext, p, plaintext);
      HonestVerifies(c, me, other, suite, macKey, th, macLabel, entropy, data);
      SignedDataIsShort(c, me, sp, macKey, th, macLabel);
    }
  }

  // ---------------------------------------------------------------- the two runs of a handshake

  /** The calls an honest initiator, and an honest responder, make in a handshake. */
  function InitiatorCalls(x: Bstr, m2: Bstr, entropy: Bstr): seq<InitiatorCall> {
    [Create1(Some(x)), Receive2(m2, entropy)]
  }

  function ResponderCalls(m1: Bstr, y: Bstr, entropy: Bstr, m3: Bstr): seq<ResponderCall> {
    [Receive1(m1, Some(y), entropy), Receive3(m3)]
  }

  lemma TwoInitiatorSteps(c: Crypto, s: Session, a: InitiatorCall, b: InitiatorCall)
    requires s.cfg.HasKeys()
    ensures InitiatorRun(c, s, [a, b]) == InitiatorStep(c, InitiatorStep(c, s, a).session, b).session
  {
    hide InitiatorStep;
    assert [a, b][..1] == [a] && [a][..0] == [];
    assert InitiatorRun(c, s, [a]) == InitiatorStep(c, s, a).session;
  }

  lemma TwoResponderSteps(c: Crypto, s: Session, a: ResponderCall, b: ResponderCall)
    requires s.cfg.HasKeys()
    ensures ResponderRun(c, s, [a, b]) == ResponderStep(c, ResponderStep(c, s, a).session, b).session
  {
    hide ResponderStep;
    assert [a, b][..1] == [a] && [a][..0] == [];
    assert ResponderRun(c, s, [a]) == ResponderStep(c, s, a).session;
  }

  /** The message_2 of a handshake with this ciphertext. */
  function HonestMessage2(c: Crypto, i: Session, r: Session, y: Bstr, ct2: Bstr): Message2 {
    Message2(c.dhPublic(i.sp.curve, y), r.connectionID, ct2)
  }

  function SentOut(r: Result<Bstr, EdhocError>): Bstr { if r.Success? then r.value else [] }

  /** What the responder sends for message_1, and the initiator for message_2; nothing if the call fails. */
  function Answer2(c: Crypto, i: Session, r: Session, x: Bstr, y: Bstr, rEntropy: Bstr): Bstr
    requires i.cfg.HasKeys() && r.cfg.HasKeys()
  {
    SentOut(ProcessMessage1(c, r, Started(c, i, x).message1, Some(y), rEntropy).result)
  }

  function Answer3(c: Crypto, i: Session, r: Session, x: Bstr, y: Bstr, rEntropy: Bstr, iEntropy: Bstr): Bstr
    requires i.cfg.HasKeys() && r.cfg.HasKeys()
  {
    SentOut(ProcessMessage2(c, Started(c, i, x), Answer2(c, i, r, x, y, rEntropy), iEntropy).result)
  }

  /** The two runs of the handshake: each side is given what the other one sends. */
  function InitiatorSide(c: Crypto, i: Session, r: Session, x: Bstr, y: Bstr, rEntropy: Bstr, iEntropy: Bstr): PartyRun
    requires i.cfg.HasKeys() && r.cfg.HasKeys()
  {
    AsInitiator(i, InitiatorCalls(x, Answer2(c, i, r, x, y, rEntropy), iEntropy))
  }

  function ResponderSide(c: Crypto, i: Session, r: Session, x: Bstr, y: Bstr, rEntropy: Bstr, iEntropy: Bstr): PartyRun
    requires i.cfg.HasKeys() && r.cfg.HasKeys()
  {
    AsResponder(r, ResponderCalls(Started(c, i, x).message1, y, rEntropy, Answer3(c, i, r, x, y, rEntropy, iEntropy)))
  }

  /** Both runs end complete, with one key schedule, in which the two ciphertexts were sealed. */
  ghost predicate HonestEnds(c: Crypto, i: Session, r: Session, x: Bstr, y: Bstr, rEntropy: Bstr, iEntropy: Bstr,
                             ct2: Bstr, ct3: Bstr)
    requires i.cfg.HasKeys() && r.cfg.HasKeys()
  {
    var q := EndOf(c, InitiatorSide(c, i, r, x, y, rEntropy, iEntropy));
    var e := EndOf(c, ResponderSide(c, i, r, x, y, rEntropy, iEntropy));
    && q.phase.Complete? && e.phase.Complete? && q.cfg == i.cfg && e.cfg == r.cfg
    && q.sp == e.sp == ParamsOf(i.suite) && q.th2 == e.th2 && q.th3 == e.th3
    && q.prk2e == e.prk2e && q.prk3e2m == e.prk3e2m && q.prk4e3m == e.prk4e3m
    && SealMessage2(c, e, rEntropy) == Success(ct2) && SealMessage3(c, q, iEntropy) == Success(ct3)
    && |ct2| <= MAX_BYTES && |ct3| <= MAX_BYTES && |q.th2| <= MAX_BYTES && |q.th3| <= MAX_BYTES
    && Answer2(c, i, r, x, y, rEntropy) == EncodeMessage2(HonestMessage2(c, i, r, y, ct2))
    && Answer3(c, i, r, x, y, rEntropy, iEntropy) == Cbor(ByteString(ct3))
  }

  lemma HonestRunEnds(c: Crypto, i: Session, r: Session, x: Bstr, y: Bstr, rEntropy: Bstr, iEntropy: Bstr)
    returns (ct2: Bstr, ct3: Bstr)
    requires Honest(c, i, r) && i.cfg.suites[0] in r.cfg.suites
    ensures HonestEnds(c, i, r, x, y, rEntropy, iEntropy, ct2, ct3)
    ensures RunHandshake(c, i, r, x, y, rEntropy, iEntropy) ==
            Success(Handshake(EndOf(c, InitiatorSide(c, i, r, x, y, rEntropy, iEntropy)),
                              EndOf(c, ResponderSide(c, i, r, x, y, rEntropy, iEntropy))))
  {
    hide ProcessMessage1, ProcessMessage2, ProcessMessage3, HonestCrypto, KnowsPeer, Signs, SealMessage2,
         SealMessage3, TH2, NextTH, EncodeMessage1, EncodeMessage2, Cbor, InitiatorRun, ResponderRun;
    FirstMessage(c, i, r, x);
    ResponderAnswers(c, i, r, x, y, rEntropy);
    var s := Keyed(c, r.(suite := i.suite, sp := i.sp, peerConnID := i.connectionID,
                         message1 := Started(c, i, x).message1, ephPriv := y), i, r, x, y);
    ct2 := SealMessage2(c, s, rEntropy).value;
    InitiatorFinishes(c, i, r, x, y, s, ct2, rEntropy, iEntropy);
    var s' := Keyed(c, Started(c, i, x).(peerConnID := r.connectionID), i, r, x, y).(th3 := NextTH(c, s.th2, ct2));
    var r' := s.(ciphertext2 := ct2, th3 := NextTH(c, s.th2, ct2), phase := Sent);
    ct3 := SealMessage3(c, s', iEntropy).value;
    ResponderFinishes(c, s', r', i.suite, ct3, iEntropy);
    var m2 := EncodeMessage2(HonestMessage2(c, i, r, y, ct2));
    TwoInitiatorSteps(c, i, Create1(Some(x)), Receive2(m2, iEntropy));
    TwoResponderSteps(c, r, Receive1(Started(c, i, x).message1, Some(y), rEntropy), Receive3(Cbor(ByteString(ct3))));
    var q := EndOf(c, InitiatorSide(c, i, r, x, y, rEntropy, iEntropy));
    var e := EndOf(c, ResponderSide(c, i, r, x, y, rEntropy, iEntropy));
    SealReads2(c, s, e, rEntropy);
    SealReads3(c, s', q, iEntropy);
    HashLength(c, q, Started(c, i, x).message1, c.dhPublic(i.sp.curve, y), r.connectionID, q.th2, ct2);
  }

  lemma SealReads2(c: Crypto, a: Session, b: Session, entropy: Bstr)
    requires a.cfg.HasKeys() && a.cfg == b.cfg && a.sp == b.sp && a.prk2e == b.prk2e && a.prk3e2m == b.prk3e2m
    requires a.th2 == b.th2
    ensures SealMessage2(c, a, entropy) == SealMessage2(c, b, entropy)
  {
    hide AuthPlaintext, ChannelFor, SealOn;
  }

  lemma HashLength(c: Crypto, s: Session, m: Bstr, gy: Bstr, cr: Bstr, th: Bstr, ct: Bstr)
    requires HonestCrypto(c)
    ensures |TH2(c, m, gy, cr)| == 32 && |NextTH(c, th, ct)| == 32
  {
  }

  lemma Sealed2(c: Crypto, s: Session, entropy: Bstr, ct: Bstr)
    requires s.cfg.HasKeys() && SealMessage2(c, s, entropy) == Success(ct)
    ensures var p := AuthPlaintext(c, s.cfg, s.sp, s.prk3e2m, s.th2, "MAC_2", entropy);
            p.Success? && Opens(c, s.sp, s.prk2e, s.th2, "K_2e", "IV_2e", ct, p.value)
  {
    hide AuthPlaintext, ChannelFor, SealOn;
    var ch := ChannelFor(c, s.sp, s.prk2e, s.th2, "K_2e", "IV_2e");
    assert ch == Success(ch.value);
  }

  lemma Sealed3(c: Crypto, s: Session, entropy: Bstr, ct: Bstr)
    requires s.cfg.HasKeys() && SealMessage3(c, s, entropy) == Success(ct)
    ensures var p := AuthPlaintext(c, s.cfg, s.sp, s.prk4e3m, s.th3, "MAC_3", entropy);
            p.Success? && Opens(c, s.sp, s.prk3e2m, s.th3, "K_3e", "IV_3e", ct, p.value)
  {
    hide AuthPlaintext, ChannelFor, SealOn;
    var ch := ChannelFor(c, s.sp, s.prk3e2m, s.th3, "K_3e", "IV_3e");
    assert ch == Success(ch.value);
  }

  lemma HonestIsFresh(c: Crypto, i: Session, r: Session, x: Bstr, y: Bstr, rEntropy: Bstr, iEntropy: Bstr)
    requires Honest(c, i, r)
    ensures Fresh(i.cfg, InitiatorSide(c, i, r, x, y, rEntropy, iEntropy))
    ensures Fresh(r.cfg, ResponderSide(c, i, r, x, y, rEntropy, iEntropy))
  {
    hide HonestCrypto, KnowsPeer, Signs, NewInitiator, NewResponder;
  }

  /** The only message_2 delivered carries the responder's ciphertext. */
  lemma OnlyMessage2(x: Bstr, iEntropy: Bstr, sent: Message2, m: Message2)
    requires Message2Fits(sent) && Delivered2(InitiatorCalls(x, EncodeMessage2(sent), iEntropy), m)
    ensures m.ciphertext == sent.ciphertext
  {
    hide EncodeMessage2, DecodeMessage2;
    Message2RoundTrip(sent);
  }

  lemma OnlyMessage3(m1: Bstr, y: Bstr, rEntropy: Bstr, ct3: Bstr, ciphertext: Bstr)
    requires |ct3| <= MAX_BYTES
    requires Delivered3(ResponderCalls(m1, y, rEntropy, Cbor(ByteString(ct3))), ciphertext)
    ensures ciphertext == ct3
  {
    hide Cbor, DecodeBytesItem;
    BytesItemDecodes(ct3);
  }

  lemma InitiatorNotForged(c: Crypto, i: Session, r: Session, x: Bstr, y: Bstr, rEntropy: Bstr, iEntropy: Bstr,
                           ct2: Bstr, ct3: Bstr)
    requires Honest(c, i, r) && HonestEnds(c, i, r, x, y, rEntropy, iEntropy, ct2, ct3) && !i.sp.curve.NoCurve?
    ensures NotForged(c, r.cfg, iset{ResponderSide(c, i, r, x, y, rEntropy, iEntropy)},
                      InitiatorSide(c, i, r, x, y, rEntropy, iEntropy))
  {
    hide HonestCrypto, KnowsPeer, Signs, InitiatorRun, ResponderRun, Fresh, SealMessage2, SealMessage3, AuthPlaintext,
         Opens, SignedData, Vouched, TookMessage2, Delivered2, NewInitiator, NewResponder, ParamsOf;
    var q := EndOf(c, InitiatorSide(c, i, r, x, y, rEntropy, iEntropy));
    var rSide := ResponderSide(c, i, r, x, y, rEntropy, iEntropy);
    var e := EndOf(c, rSide);
    HonestIsFresh(c, i, r, x, y, rEntropy, iEntropy);
    Sealed2(c, e, rEntropy, ct2);
    PlaintextIsSigned(c, r.cfg, e.sp, e.prk3e2m, e.th2, "MAC_2", rEntropy);
    HonestMessageIsVouched(c, r.cfg, i.cfg, i.suite, e.prk3e2m, e.prk2e, e.th2, "MAC_2", "K_2e", "IV_2e", rEntropy,
                           ct2, iset{rSide}, rSide);
    ShareLength(c, i.sp.curve, y);
    forall m: Message2 | Delivered2(InitiatorSide(c, i, r, x, y, rEntropy, iEntropy).initiated, m)
      ensures Vouched(c, i.cfg, r.cfg, iset{rSide}, q.sp, q.prk3e2m, q.prk2e, q.th2, "MAC_2", "K_2e", "IV_2e",
                      m.ciphertext)
    {
      OnlyMessage2(x, iEntropy, HonestMessage2(c, i, r, y, ct2), m);
    }
  }

  lemma ResponderNotForged(c: Crypto, i: Session, r: Session, x: Bstr, y: Bstr, rEntropy: Bstr, iEntropy: Bstr,
                           ct2: Bstr, ct3: Bstr)
    requires Honest(c, i, r) && HonestEnds(c, i, r, x, y, rEntropy, iEntropy, ct2, ct3)
    ensures NotForged(c, i.cfg, iset{InitiatorSide(c, i, r, x, y, rEntropy, iEntropy)},
                      ResponderSide(c, i, r, x, y, rEntropy, iEntropy))
  {
    hide HonestCrypto, KnowsPeer, Signs, InitiatorRun, ResponderRun, Fresh, SealMessage2, SealMessage3, AuthPlaintext,
         Opens, SignedData, Vouched, Delivered3, NextTH, NewInitiator, NewResponder, ParamsOf;
    var iSide := InitiatorSide(c, i, r, x, y, rEntropy, iEntropy);
    var q := EndOf(c, iSide);
    var e := EndOf(c, ResponderSide(c, i, r, x, y, rEntropy, iEntropy));
    HonestIsFresh(c, i, r, x, y, rEntropy, iEntropy);
    Sealed3(c, q, iEntropy, ct3);
    PlaintextIsSigned(c, i.cfg, q.sp, q.prk4e3m, q.th3, "MAC_3", iEntropy);
    HonestMessageIsVouched(c, i.cfg, r.cfg, i.suite, q.prk4e3m, q.prk3e2m, q.th3, "MAC_3", "K_3e", "IV_3e", iEntropy,
                           ct3, iset{iSide}, iSide);
    forall ciphertext: Bstr | Delivered3(ResponderSide(c, i, r, x, y, rEntropy, iEntropy).answered, ciphertext)
      ensures Vouched(c, r.cfg, i.cfg, iset{iSide}, e.sp, e.prk4e3m, e.prk3e2m, e.th3, "MAC_3", "K_3e", "IV_3e",
                      ciphertext)
    {
      OnlyMessage3(Started(c, i, x).message1, y, rEntropy, ct3, ciphertext);
    }
  }

  /**
   The two runs of a handshake of honest parties end complete, in the sessions of that handshake, and what
   each has verified was sent out in the other one: the hypotheses of agreement hold with no other run.
   */
  lemma HonestRunIsNotForged(c: Crypto, i: Session, r: Session, x: Bstr, y: Bstr, rEntropy: Bstr, iEntropy: Bstr)
    requires Honest(c, i, r) && i.cfg.suites[0] in r.cfg.suites
    ensures var mine := InitiatorSide(c, i, r, x, y, rEntropy, iEntropy);
            var theirs := ResponderSide(c, i, r, x, y, rEntropy, iEntropy);
            && RunHandshake(c, i, r, x, y, rEntropy, iEntropy) ==
               Success(Handshake(EndOf(c, mine), EndOf(c, theirs)))
            && Fresh(i.cfg, mine) && EndOf(c, mine).phase.Complete? && NotForged(c, r.cfg, iset{theirs}, mine)
            && Fresh(r.cfg, theirs) && EndOf(c, theirs).phase.Complete? && NotForged(c, i.cfg, iset{mine}, theirs)
  {
    hide HonestCrypto, KnowsPeer, Signs, InitiatorRun, ResponderRun, NotForged, EncodeMessage1, EncodeMessage2, Cbor,
         SealMessage2, SealMessage3, InitiatorSide, ResponderSide, RunHandshake, Fresh, EndOf, NewInitiator,
           NewResponder;
    FirstMessage(c, i, r, x);
    var ct2, ct3 := HonestRunEnds(c, i, r, x, y, rEntropy, iEntropy);
    HonestIsFresh(c, i, r, x, y, rEntropy, iEntropy);
    InitiatorNotForged(c, i, r, x, y, rEntropy, iEntropy, ct2, ct3);
    ResponderNotForged(c, i, r, x, y, rEntropy, iEntropy, ct2, ct3);
  }
}
