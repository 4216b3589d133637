/**
 Honest EDHOC runs: they succeed exactly when the responder supports the suite the initiator
 starts with, and then both sides hold the same transcript hashes, keys and exports.
 */
module EdhocAgreement {
  import opened Bytes
  import opened Blocks
  import opened Values
  import opened Encoding
  import opened EdhocMessages
  import opened EdhocKeys
  import opened EdhocAuth
  import opened Edhoc
  import C = Ccm

  /** Both sides after the messages of one run were delivered unchanged. */
  datatype Handshake = Handshake(initiator: Session, responder: Session)

  function RunHandshake(c: Crypto, i: Session, r: Session, x: Bstr, y: Bstr, rEntropy: Bstr, iEntropy: Bstr)
    : Result<Handshake, EdhocError>
    requires i.cfg.HasKeys() && r.cfg.HasKeys()
  {
    var o1 := CreateMessage1(c, i, Some(x));
    var m1 :- o1.result;
    var o2 := ProcessMessage1(c, r, m1, Some(y), rEntropy);
    var m2 :- o2.result;
    var o3 := ProcessMessage2(c, o1.session, m2, iEntropy);
    var m3 :- o3.result;
    var o4 := ProcessMessage3(c, o2.session, m3);
    var _ :- o4.result;
    Success(Handshake(o3.session, o4.session))
  }

  // ---------------------------------------------------------------- the setting

  /** A public share of one curve is never a public share of another. */
  ghost predicate CurvesApart(c: Crypto) {
    forall k: Curve, k': Curve, x: Bstr :: k != k' ==> !c.dhAccepts(k', c.dhPublic(k, x))
  }

  /** Two parties that know each other's credentials, each in the state its constructor returns. */
  ghost predicate Honest(c: Crypto, i: Session, r: Session) {
    && HonestCrypto(c)
    && i.cfg.HasKeys() && r.cfg.HasKeys()
    && KnowsPeer(c, i.cfg, r.cfg) && KnowsPeer(c, r.cfg, i.cfg) && Signs(c, i.cfg) && Signs(c, r.cfg)
    && 0 < |i.cfg.suites| <= MAX_ITEMS && |i.connectionID| <= MAX_BYTES && |r.connectionID| <= MAX_BYTES
    && (exists random :: NewInitiator(i.cfg, random) == Success(i))
    && (exists random :: NewResponder(r.cfg, random) == Success(r))
  }

  // ---------------------------------------------------------------- one protected message

  /** What one side seals under a key schedule, the other side opens under the same one and accepts. */
  lemma MessageIsAccepted(c: Crypto, me: Config, other: Config, suite: CipherSuite, macKey: Bstr, encKey: Bstr,
                          th: Bstr, macLabel: string, keyLabel: string, ivLabel: string, entropy: Bstr)
    requires HonestCrypto(c) && KnowsPeer(c, other, me) && Signs(c, me)
    ensures var p := AuthPlaintext(c, me, ParamsOf(suite), macKey, th, macLabel, entropy);
            var ch := ChannelFor(c, ParamsOf(suite), encKey, th, keyLabel, ivLabel);
            && p.Success? && ch.Success?
            && var ct := SealOn(ch.value, p.value);
            && ct.Success? && |ct.value| <= MAX_BYTES && OpenOn(ch.value, ct.value) == p
            && CheckAuth(c, other, ParamsOf(suite), macKey, th, macLabel, p.value) == Success(())
  {
    hide AuthPlaintext, CheckAuth, ChannelFor, OpenOn, C.Sealed;
    AuthIsAccepted(c, me, other, suite, macKey, th, macLabel, entropy);
    HonestChannel(c, suite, encKey, th, keyLabel, ivLabel);
    var p := AuthPlaintext(c, me, ParamsOf(suite), macKey, th, macLabel, entropy).value;
    var ch := ChannelFor(c, ParamsOf(suite), encKey, th, keyLabel, ivLabel).value;
    OpenUndoesSeal(ch, p, SealOn(ch, p).value);
  }

  // ---------------------------------------------------------------- message by message

  /** The initiator's session after CreateMessage1 with ephemeral key x. */
  function Started(c: Crypto, i: Session, x: Bstr): Session { CreateMessage1(c, i, Some(x)).session }

  lemma FirstMessage(c: Crypto, i: Session, r: Session, x: Bstr)
    requires Honest(c, i, r)
    ensures var o := CreateMessage1(c, i, Some(x));
            && o.result.Success? && o.result.value == o.session.message1
            && DecodeMessage1(o.session.message1)
               == Success(Message1(0, i.cfg.suites, i.cfg.suites[0], c.dhPublic(i.sp.curve, x), i.connectionID))
            && o.session == i.(ephPriv := x, message1 := o.session.message1, phase := Sent)
    ensures i.phase.Init? && i.suite == i.cfg.suites[0] && i.sp == ParamsOf(i.suite) && IsSupported(i.suite)
  {
    hide EncodeMessage1, DecodeMessage1, HonestCrypto, KnowsPeer, Signs;
    var m := Message1(0, i.cfg.suites, i.cfg.suites[0], c.dhPublic(i.sp.curve, x), i.connectionID);
    ShareLength(c, i.sp.curve, x);
    Message1RoundTrip(m);
  }

  lemma ShareLength(c: Crypto, curve: Curve, x: Bstr)
    requires HonestCrypto(c) && !curve.NoCurve?
    ensures |c.dhPublic(curve, x)| <= 133 && c.dhAccepts(curve, c.dhPublic(curve, x))
  {
  }

  lemma SharedSecret(c: Crypto, curve: Curve, x: Bstr, y: Bstr)
    requires HonestCrypto(c) && !curve.NoCurve?
    ensures c.dhShared(curve, x, c.dhPublic(curve, y)).Some?
    ensures c.dhShared(curve, x, c.dhPublic(curve, y)) == c.dhShared(curve, y, c.dhPublic(curve, x))
  {
  }

  /** The two sides have the same keys and transcript, and are each other's peer. */
  predicate Agree(i: Session, r: Session) {
    && i.sp == r.sp && i.th2 == r.th2 && i.th3 == r.th3 && i.th4 == r.th4
    && i.prk2e == r.prk2e && i.prk3e2m == r.prk3e2m && i.prk4e3m == r.prk4e3m
    && i.connectionID == r.peerConnID && r.connectionID == i.peerConnID
  }

  /** The keys and TH_2 of a run with shares x and y on the initiator's curve. */
  function Keyed(c: Crypto, s: Session, i: Session, r: Session, x: Bstr, y: Bstr): Session
    requires HonestCrypto(c) && !i.sp.curve.NoCurve?
  {
    SharedSecret(c, i.sp.curve, x, y);
    WithKeys(s, c.extract(c.dhShared(i.sp.curve, x, c.dhPublic(i.sp.curve, y)).value),
             TH2(c, Started(c, i, x).message1, c.dhPublic(i.sp.curve, y), r.connectionID))
  }

  lemma ResponderAnswers(c: Crypto, i: Session, r: Session, x: Bstr, y: Bstr, entropy: Bstr)
    requires Honest(c, i, r) && i.cfg.suites[0] in r.cfg.suites && !i.sp.curve.NoCurve?
    ensures var o := ProcessMessage1(c, r, Started(c, i, x).message1, Some(y), entropy);
            var s := Keyed(c, r.(suite := i.suite, sp := i.sp, peerConnID := i.connectionID,
                                 message1 := Started(c, i, x).message1, ephPriv := y), i, r, x, y);
            var ct := SealMessage2(c, s, entropy);
            && ct.Success? && |ct.value| <= MAX_BYTES
            && o.result == Success(EncodeMessage2(Message2(c.dhPublic(i.sp.curve, y), r.connectionID, ct.value)))
            && o.session == s.(ciphertext2 := ct.value, th3 := NextTH(c, s.th2, ct.value), phase := Sent)
  {
    hide DecodeMessage1, CreateMessage1, EncodeMessage2, HonestCrypto, KnowsPeer, Signs, AuthPlaintext, ChannelFor,
         SealOn, TH2, NextTH, CheckAuth, OpenOn;
    FirstMessage(c, i, r, x);
    ShareLength(c, i.sp.curve, x);
    SharedSecret(c, i.sp.curve, x, y);
    var s := Keyed(c, r.(suite := i.suite, sp := i.sp, peerConnID := i.connectionID,
                         message1 := Started(c, i, x).message1, ephPriv := y), i, r, x, y);
    MessageIsAccepted(c, r.cfg, i.cfg, i.suite, s.prk3e2m, s.prk2e, s.th2, "MAC_2", "K_2e", "IV_2e", entropy);
  }

  /** Message_2 of the responder is accepted, and message_3 is sealed under keys the responder has. */
  lemma InitiatorFinishes(c: Crypto, i: Session, r: Session, x: Bstr, y: Bstr, rSession: Session, ct2: Bstr,
                          rEntropy: Bstr, iEntropy: Bstr)
    requires Honest(c, i, r) && !i.sp.curve.NoCurve? && i.sp == ParamsOf(i.suite)
    requires rSession.cfg == r.cfg && rSession.sp == i.sp && Keyed(c, rSession, i, r, x, y) == rSession
    requires SealMessage2(c, rSession, rEntropy) == Success(ct2) && |ct2| <= MAX_BYTES
    ensures var msg := EncodeMessage2(Message2(c.dhPublic(i.sp.curve, y), r.connectionID, ct2));
            var o := ProcessMessage2(c, Started(c, i, x), msg, iEntropy);
            var keyed := Keyed(c, Started(c, i, x).(peerConnID := r.connectionID), i, r, x, y);
            var s := keyed.(th3 := NextTH(c, rSession.th2, ct2));
            var ct3 := SealMessage3(c, s, iEntropy);
            && ct3.Success? && |ct3.value| <= MAX_BYTES
            && o.result == Success(Cbor(ByteString(ct3.value)))
            && o.session == s.(th4 := NextTH(c, s.th3, ct3.value), phase := Complete)
  {
    hide DecodeMessage2, EncodeMessage2, EncodeMessage1, HonestCrypto, KnowsPeer, Signs, AuthPlaintext, ChannelFor,
         SealOn, TH2, NextTH, CheckAuth, OpenOn, Cbor;
    FirstMessage(c, i, r, x);
    ShareLength(c, i.sp.curve, y);
    SharedSecret(c, i.sp.curve, x, y);
    Message2RoundTrip(Message2(c.dhPublic(i.sp.curve, y), r.connectionID, ct2));
    var s := Keyed(c, Started(c, i, x).(peerConnID := r.connectionID), i, r, x, y);
    MessageIsAccepted(c, r.cfg, i.cfg, i.suite, s.prk3e2m, s.prk2e, s.th2, "MAC_2", "K_2e", "IV_2e", rEntropy);
    var s' := s.(th3 := NextTH(c, s.th2, ct2));
    MessageIsAccepted(c, i.cfg, r.cfg, i.suite, s'.prk4e3m, s'.prk3e2m, s'.th3, "MAC_3", "K_3e", "IV_3e", iEntropy);
  }

  /** Message_3 of the initiator is accepted. */
  lemma ResponderFinishes(c: Crypto, i: Session, r: Session, suite: CipherSuite, ct3: Bstr, iEntropy: Bstr)
    requires HonestCrypto(c) && i.cfg.HasKeys() && r.cfg.HasKeys() && KnowsPeer(c, r.cfg, i.cfg) && Signs(c, i.cfg)
    requires r.phase.Sent? && r.sp == i.sp == ParamsOf(suite)
    requires r.prk3e2m == i.prk3e2m && r.prk4e3m == i.prk4e3m && r.th3 == i.th3
    requires SealMessage3(c, i, iEntropy) == Success(ct3) && |ct3| <= MAX_BYTES
    ensures ProcessMessage3(c, r, Cbor(ByteString(ct3))) ==
            Outcome(r.(th4 := NextTH(c, r.th3, ct3), phase := Complete), Success(()))
  {
    hide DecodeBytesItem, HonestCrypto, KnowsPeer, Signs, AuthPlaintext, ChannelFor, SealOn, NextTH, CheckAuth,
         OpenOn, Cbor;
    BytesItemDecodes(ct3);
    MessageIsAccepted(c, i.cfg, r.cfg, suite, i.prk4e3m, i.prk3e2m, i.th3, "MAC_3", "K_3e", "IV_3e", iEntropy);
  }

  lemma BytesItemDecodes(b: Bstr)
    requires |b| <= MAX_BYTES
    ensures DecodeBytesItem(Cbor(ByteString(b))) == Success(b)
  {
    hide DecodeOne, Cbor;
    LastBytesItem(b);
  }

  /** Message_4 of a responder that agrees with the initiator is accepted. */
  lemma Message4IsAccepted(c: Crypto, i: Session, r: Session, suite: CipherSuite)
    requires HonestCrypto(c) && i.phase.Complete? && r.phase.Complete?
    requires i.sp == r.sp == ParamsOf(suite) && i.prk4e3m == r.prk4e3m && i.th4 == r.th4
    ensures var m := CreateMessage4(c, r); m.Success? && ProcessMessage4(c, i, m.value) == Success(())
  {
    hide HonestCrypto, ChannelFor, OpenOn, DecodeBytesItem, Enc, C.Sealed;
    HonestChannel(c, suite, r.prk4e3m, r.th4, "K_4", "IV_4");
    var ch := ChannelFor(c, r.sp, r.prk4e3m, r.th4, "K_4", "IV_4").value;
    var ct := SealOn(ch, []).value;
    OpenUndoesSeal(ch, [], ct);
    ShortString(ct);
    BytesItemDecodes(ct);
  }

  // ---------------------------------------------------------------- the whole run

  /** A supported first suite is all that is needed; both sides then agree. */
  lemma HonestRunSucceeds(c: Crypto, i: Session, r: Session, x: Bstr, y: Bstr, rEntropy: Bstr, iEntropy: Bstr)
    requires Honest(c, i, r) && i.cfg.suites[0] in r.cfg.suites
    ensures var h := RunHandshake(c, i, r, x, y, rEntropy, iEntropy);
            && h.Success? && Agree(h.value.initiator, h.value.responder)
            && h.value.initiator.phase.Complete? && h.value.responder.phase.Complete?
            && h.value.initiator.sp == ParamsOf(i.cfg.suites[0])
            && h.value.initiator.connectionID == i.connectionID && h.value.responder.connectionID == r.connectionID
  {
    hide ProcessMessage1, ProcessMessage2, ProcessMessage3, HonestCrypto, KnowsPeer, Signs, SealMessage2,
         SealMessage3, TH2, NextTH, EncodeMessage1, EncodeMessage2, Cbor;
    FirstMessage(c, i, r, x);
    ResponderAnswers(c, i, r, x, y, rEntropy);
    var s := Keyed(c, r.(suite := i.suite, sp := i.sp, peerConnID := i.connectionID,
                         message1 := Started(c, i, x).message1, ephPriv := y), i, r, x, y);
    var ct2 := SealMessage2(c, s, rEntropy).value;
    InitiatorFinishes(c, i, r, x, y, s, ct2, rEntropy, iEntropy);
    var s' := Keyed(c, Started(c, i, x).(peerConnID := r.connectionID), i, r, x, y).(th3 := NextTH(c, s.th2, ct2));
    var r' := s.(ciphertext2 := ct2, th3 := NextTH(c, s.th2, ct2), phase := Sent);
    ResponderFinishes(c, s', r', i.suite, SealMessage3(c, s', iEntropy).value, iEntropy);
  }

  /** Negotiation takes the first proposed suite that the responder lists, if there is one. */
  lemma {:induction false} NegotiatedIsFirst(own: seq<CipherSuite>, proposed: seq<CipherSuite>)
    ensures match Negotiated(own, proposed)
            case None => forall k | 0 <= k < |proposed| :: proposed[k] !in own
            case Some(suite) =>
              exists k | 0 <= k < |proposed| ::
                suite == proposed[k] && suite in own && forall j | 0 <= j < k :: proposed[j] !in own
  {
    if proposed != [] && proposed[0] !in own {
      var tail := proposed[1..];
      NegotiatedIsFirst(own, tail);
      match Negotiated(own, tail)
      case None =>
        forall k | 0 <= k < |proposed|
          ensures proposed[k] !in own
        {
          if k > 0 {
            assert tail[k - 1] == proposed[k];
          }
        }
      case Some(suite) =>
        var k :| 0 <= k < |tail| && suite == tail[k] && suite in own && forall j | 0 <= j < k :: tail[j] !in own;
        assert proposed[k + 1] == suite;
        forall j | 0 <= j < k + 1
          ensures proposed[j] !in own
        {
          if j > 0 {
            assert tail[j - 1] == proposed[j];
          }
        }
    }
  }

  /** A responder that picks another suite computes on another curve and refuses the share. */
  lemma OtherSuiteIsRefused(c: Crypto, i: Session, r: Session, x: Bstr, y: Bstr, entropy: Bstr)
    requires Honest(c, i, r) && CurvesApart(c) && i.cfg.suites[0] !in r.cfg.suites
    ensures ProcessMessage1(c, r, Started(c, i, x).message1, Some(y), entropy).result.Failure?
  {
    hide DecodeMessage1, EncodeMessage1, HonestCrypto, KnowsPeer, Signs, AnswerMessage1, Negotiated;
    FirstMessage(c, i, r, x);
    NegotiatedIsFirst(r.cfg.suites, i.cfg.suites);
  }

  /**
   With a responder that supports the suites it lists, an honest run succeeds if and only if
   the responder lists the initiator's first suite.
   */
  lemma HonestRunNeedsFirstSuite(c: Crypto, i: Session, r: Session, x: Bstr, y: Bstr, rEntropy: Bstr, iEntropy: Bstr)
    requires Honest(c, i, r) && CurvesApart(c)
    ensures RunHandshake(c, i, r, x, y, rEntropy, iEntropy).Success? <==> i.cfg.suites[0] in r.cfg.suites
  {
    hide ProcessMessage1, ProcessMessage2, ProcessMessage3, HonestCrypto, KnowsPeer, Signs, EncodeMessage1, CurvesApart;
    FirstMessage(c, i, r, x);
    if i.cfg.suites[0] in r.cfg.suites {
      HonestRunSucceeds(c, i, r, x, y, rEntropy, iEntropy);
    } else {
      OtherSuiteIsRefused(c, i, r, x, y, rEntropy);
    }
  }

  /** Suites 0 and 2 are proposed, suite 2 is supported, and the run fails. */
  lemma SecondSuiteIsNotEnough(c: Crypto, i: Session, r: Session, x: Bstr, y: Bstr, rEntropy: Bstr, iEntropy: Bstr)
    requires Honest(c, i, r) && CurvesApart(c) && i.cfg.suites == [SUITE_0, SUITE_2] && r.cfg.suites == [SUITE_2]
    ensures Negotiated(r.cfg.suites, i.cfg.suites) == Some(SUITE_2)
    ensures RunHandshake(c, i, r, x, y, rEntropy, iEntropy).Failure?
  {
    hide RunHandshake, Honest, CurvesApart;
    HonestRunNeedsFirstSuite(c, i, r, x, y, rEntropy, iEntropy);
    assert i.cfg.suites[1..][0] == SUITE_2;
  }

  /**
   After an honest run every export is the same on both sides, the OSCORE contexts are mirror
   images, and message_4 is accepted.
   */
  lemma HonestRunAgrees(c: Crypto, i: Session, r: Session, x: Bstr, y: Bstr, rEntropy: Bstr, iEntropy: Bstr,
                        number: int, context: Bstr, length: nat)
    requires Honest(c, i, r) && i.cfg.suites[0] in r.cfg.suites
    ensures var h := RunHandshake(c, i, r, x, y, rEntropy, iEntropy);
            && h.Success?
            && var a, b := h.value.initiator, h.value.responder;
            && Export(c, a, number, context, length) == Export(c, b, number, context, length)
            && (Export(c, a, number, context, length).Success? <==> length <= MAX_EXPAND)
            && ExportOscore(c, a).Success? && ExportOscore(c, b).Success?
            && var p, q := ExportOscore(c, a).value, ExportOscore(c, b).value;
            && p.masterSecret == q.masterSecret && p.masterSalt == q.masterSalt
            && p.senderID == q.recipientID == i.connectionID && p.recipientID == q.senderID == r.connectionID
            && CreateMessage4(c, b).Success? && ProcessMessage4(c, a, CreateMessage4(c, b).value) == Success(())
  {
    hide RunHandshake, Kdf, CreateMessage4, ProcessMessage4, Enc, ExporterInfo, KnowsPeer, Signs;
    HonestRunSucceeds(c, i, r, x, y, rEntropy, iEntropy);
    var h := RunHandshake(c, i, r, x, y, rEntropy, iEntropy).value;
    var a, b := h.initiator, h.responder;
    HonestExport(c, a, number, context, length);
    HonestKdf(c, a.prk4e3m, a.th4, "OSCORE_Master_Secret", 16);
    HonestKdf(c, a.prk4e3m, a.th4, "OSCORE_Master_Salt", 8);
    Message4IsAccepted(c, a, b, i.cfg.suites[0]);
  }

  lemma HonestExport(c: Crypto, s: Session, number: int, context: Bstr, length: nat)
    requires HonestCrypto(c) && s.phase.Complete?
    ensures Export(c, s, number, context, length).Success? <==> length <= MAX_EXPAND
  {
    hide Enc;
    FlatArray(ExporterInfo(s.th4, number, context, length).items);
  }

  // ---------------------------------------------------------------- the assumptions are consistent

  function CurveTag(k: Curve): Bstr {
    match k
    case NoCurve => [0]
    case X25519 => [1]
    case P256 => [2]
  }

  /** Some primitives meet every law the results above assume. */
  lemma HonestCryptoExists()
    ensures exists c: Crypto :: HonestCrypto(c) && CurvesApart(c)
  {
    var c := Crypto(
      k => if |k| == 16 then Some((b: Block) => b) else None,
      m => C.Zeros(32),
      m => m,
      (prk, info) => C.Zeros(MAX_EXPAND),
      (k, x) => CurveTag(k),
      (k, g) => g == CurveTag(k),
      (k, x, g) => Some([]),
      k => k,
      k => [],
      (k, m, entropy) => Some([]),
      (k, m, signature) => true,
      (cwt, issuer) => Failure(MessageFormat));
    assert HonestCrypto(c) && CurvesApart(c);
  }
}
