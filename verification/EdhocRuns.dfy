/**
 Runs of one EDHOC party: any calls in any order with any bytes. The phase only advances, a
 party completes only after it opened and verified a message over its own transcript, and
 failed calls leave no trace in what a later good message reaches.
 */
module EdhocRuns {
  import opened Bytes
  import opened Blocks
  import opened Values
  import opened Encoding
  import opened EdhocMessages
  import opened EdhocKeys
  import E = Edhoc
  import opened Edhoc

  function Rank(p: Phase): nat {
    match p
    case Init => 0
    case Sent => 1
    case Complete => 2
  }

  // ---------------------------------------------------------------- what authentication means

  /**
   A plaintext is made of an item and a byte string that is a signature, under the peer's
   key, of the item re-encoded, the transcript hash and the MAC.
   */
  ghost predicate SignedBy(c: Crypto, cfg: Config, sp: SuiteParams, macKey: Bstr, th: Bstr, macLabel: string,
                           plaintext: Bstr)
    requires cfg.HasKeys()
  {
    exists idCred: Item, signature: Bstr, mac: Bstr, encoded: Bstr, signed: Bstr, key: Bstr ::
      && DecodeOne(plaintext) == Success(idCred)
      && DecodeBytesItem(idCred.rest) == Success(signature)
      && Kdf(c, macKey, th, macLabel, sp.tagSize) == Success(mac)
      && CborEncode(idCred.value) == Success(encoded)
      && SignStruct(encoded, th, mac) == Success(signed)
      && PeerKey(c, cfg, idCred.value) == Success(key)
      && c.verify(key, signed, signature)
  }

  lemma CheckedIsSigned(c: Crypto, cfg: Config, sp: SuiteParams, macKey: Bstr, th: Bstr, macLabel: string,
                        plaintext: Bstr)
    requires cfg.HasKeys()
    ensures CheckAuth(c, cfg, sp, macKey, th, macLabel, plaintext).Success? <==>
            SignedBy(c, cfg, sp, macKey, th, macLabel, plaintext)
  {
    hide DecodeOne, DecodeBytesItem, Kdf, CborEncode, SignStruct, PeerKey;
  }

  /** The ciphertext is the sealing, under the named keys, of a plaintext signed by the peer. */
  ghost predicate Authentic(c: Crypto, cfg: Config, sp: SuiteParams, macKey: Bstr, encKey: Bstr, th: Bstr,
                            macLabel: string, keyLabel: string, ivLabel: string, ciphertext: Bstr)
    requires cfg.HasKeys()
  {
    exists ch: Channel, plaintext: Bstr ::
      && ChannelFor(c, sp, encKey, th, keyLabel, ivLabel) == Success(ch)
      && SealOn(ch, plaintext) == Success(ciphertext)
      && SignedBy(c, cfg, sp, macKey, th, macLabel, plaintext)
  }

  lemma OpenedIsAuthentic(c: Crypto, cfg: Config, sp: SuiteParams, macKey: Bstr, encKey: Bstr, th: Bstr,
                          macLabel: string, keyLabel: string, ivLabel: string, ciphertext: Bstr)
    requires cfg.HasKeys()
    ensures var ch := ChannelFor(c, sp, encKey, th, keyLabel, ivLabel);
            (ch.Success? && OpenOn(ch.value, ciphertext).Success?
             && CheckAuth(c, cfg, sp, macKey, th, macLabel, OpenOn(ch.value, ciphertext).value).Success?)
            <==> Authentic(c, cfg, sp, macKey, encKey, th, macLabel, keyLabel, ivLabel, ciphertext)
  {
    hide ChannelFor, OpenOn, SealOn, CheckAuth, SignedBy;
    var r := ChannelFor(c, sp, encKey, th, keyLabel, ivLabel);
    if r.Success? {
      var ch, inner := r.value, OpenOn(r.value, ciphertext);
      if inner.Success? {
        OpenUndoesSeal(ch, inner.value, ciphertext);
        CheckedIsSigned(c, cfg, sp, macKey, th, macLabel, inner.value);
      }
      forall p: Bstr | SealOn(ch, p) == Success(ciphertext)
        ensures inner == Success(p)
      {
        OpenUndoesSeal(ch, p, ciphertext);
      }
    }
  }

  // ---------------------------------------------------------------- message_4

  /** The message is a byte string that seals something under K_4 and IV_4 of this session. */
  ghost predicate Confirms(c: Crypto, s: Session, msg: Bstr) {
    exists ch: Channel, ciphertext: Bstr, plaintext: Bstr ::
      && ChannelFor(c, s.sp, s.prk4e3m, s.th4, "K_4", "IV_4") == Success(ch)
      && DecodeBytesItem(msg) == Success(ciphertext)
      && SealOn(ch, plaintext) == Success(ciphertext)
  }

  /**
   message_4 is accepted if and only if the session is complete and somebody with its keys and its
   transcript sealed it; what it seals is not looked at. A complete session makes one that it accepts.
   */
  lemma Message4IsExact(c: Crypto, s: Session, msg: Bstr)
    ensures ProcessMessage4(c, s, msg) == Success(()) <==> s.phase.Complete? && Confirms(c, s, msg)
    ensures CreateMessage4(c, s) == Success(msg) && |msg| <= MAX_BYTES ==> ProcessMessage4(c, s, msg) == Success(())
  {
    hide ChannelFor, OpenOn, SealOn, DecodeBytesItem, Enc;
    var r, d := ChannelFor(c, s.sp, s.prk4e3m, s.th4, "K_4", "IV_4"), DecodeBytesItem(msg);
    if r.Success? && d.Success? {
      var inner := OpenOn(r.value, d.value);
      if inner.Success? {
        OpenUndoesSeal(r.value, inner.value, d.value);
      }
      forall p: Bstr | SealOn(r.value, p) == Success(d.value)
        ensures inner == Success(p)
      {
        OpenUndoesSeal(r.value, p, d.value);
      }
    }
    if CreateMessage4(c, s) == Success(msg) && |msg| <= MAX_BYTES {
      var ct := SealOn(r.value, []).value;
      CreatedDecodes(ct, msg);
      assert Confirms(c, s, msg);
    }
  }

  lemma CreatedDecodes(ciphertext: Bstr, msg: Bstr)
    requires CborEncode(ByteString(ciphertext)) == Success(msg) && |msg| <= MAX_BYTES
    ensures DecodeBytesItem(msg) == Success(ciphertext)
  {
    hide DecodeOne;
    assert |ciphertext| <= |msg|;
    LastBytesItem(ciphertext);
  }

  // ---------------------------------------------------------------- the initiator

  datatype InitiatorCall = Create1(eph: Option<Bstr>) | Receive2(msg: Bstr, entropy: Bstr) | Receive4(msg4: Bstr)

  function Silent(r: Result<(), EdhocError>): Result<Bstr, EdhocError> {
    match r
    case Success(_) => Success([])
    case Failure(e) => Failure(e)
  }

  function InitiatorStep(c: Crypto, s: Session, call: InitiatorCall): (o: Outcome<Bstr>)
    requires s.cfg.HasKeys()
    ensures o.session.cfg == s.cfg
  {
    match call
    case Create1(eph) => CreateMessage1(c, s, eph)
    case Receive2(msg, entropy) => ProcessMessage2(c, s, msg, entropy)
    case Receive4(msg) => Outcome(s, Silent(ProcessMessage4(c, s, msg)))
  }

  function InitiatorRun(c: Crypto, s: Session, calls: seq<InitiatorCall>): (s': Session)
    requires s.cfg.HasKeys()
    ensures s'.cfg == s.cfg
  {
    if calls == [] then s
    else InitiatorStep(c, InitiatorRun(c, s, calls[..|calls| - 1]), calls[|calls| - 1]).session
  }

  /** The session has sent this ciphertext in message_3, and TH_4 covers it. */
  ghost predicate SentMessage3(c: Crypto, s: Session, ciphertext: Bstr)
    requires s.cfg.HasKeys()
  {
    && s.th4 == NextTH(c, s.th3, ciphertext)
    && exists entropy: Bstr :: SealMessage3(c, s, entropy) == Success(ciphertext)
  }

  lemma SealReads3(c: Crypto, a: Session, b: Session, entropy: Bstr)
    requires a.cfg.HasKeys() && a.cfg == b.cfg && a.sp == b.sp && a.prk3e2m == b.prk3e2m && a.prk4e3m == b.prk4e3m
    requires a.th3 == b.th3
    ensures SealMessage3(c, a, entropy) == SealMessage3(c, b, entropy)
  {
    hide AuthPlaintext, ChannelFor, SealOn;
  }

  /** What an accepted message_2 establishes, in terms of the sessions before and after it. */
  ghost predicate Accepted2(c: Crypto, before: Session, msg: Bstr, after: Session)
    requires before.cfg.HasKeys()
  {
    exists m: Message2, shared: Bstr, ciphertext3: Bstr ::
      && before.phase.Sent? && after.cfg == before.cfg
      && DecodeMessage2(msg) == Success(m)
      && c.dhAccepts(before.sp.curve, m.gy)
      && c.dhShared(before.sp.curve, before.ephPriv, m.gy) == Some(shared)
      && after.prk2e == after.prk3e2m == after.prk4e3m == c.extract(shared)
      && after.message1 == before.message1 && after.ephPriv == before.ephPriv && after.sp == before.sp
      && after.th2 == TH2(c, after.message1, m.gy, m.cr)
      && after.th3 == NextTH(c, after.th2, m.ciphertext)
      && after.peerConnID == m.cr && SentMessage3(c, after, ciphertext3)
      && Authentic(c, before.cfg, before.sp, after.prk3e2m, after.prk2e, after.th2, "MAC_2", "K_2e", "IV_2e",
                   m.ciphertext)
  }

  lemma Finished2(c: Crypto, s: Session, msg: Bstr, entropy: Bstr, s': Session)
    requires s.cfg.HasKeys() && ProcessMessage2(c, s, msg, entropy).result.Success?
    requires s' == ProcessMessage2(c, s, msg, entropy).session
    ensures exists ciphertext: Bstr :: SentMessage3(c, s', ciphertext)
  {
    hide DecodeMessage2, OpenMessage2, SealMessage3, TH2, NextTH, Cbor;
    var ciphertext :| SealMessage3(c, s'.(th4 := s.th4, phase := s.phase), entropy) == Success(ciphertext)
                      && s'.th4 == NextTH(c, s'.th3, ciphertext);
    SealReads3(c, s'.(th4 := s.th4, phase := s.phase), s', entropy);
    assert SentMessage3(c, s', ciphertext);
  }

  lemma StepToComplete2(c: Crypto, s: Session, msg: Bstr, entropy: Bstr)
    requires s.cfg.HasKeys()
    ensures var o := ProcessMessage2(c, s, msg, entropy);
            o.result.Success? <==> o.session.phase.Complete? && !s.phase.Complete?
    ensures var o := ProcessMessage2(c, s, msg, entropy);
            o.result.Success? ==> Accepted2(c, s, msg, o.session)
  {
    hide DecodeMessage2, ChannelFor, OpenOn, CheckAuth, SealMessage3, TH2, NextTH, Cbor, Authentic, SentMessage3;
    var o := ProcessMessage2(c, s, msg, entropy);
    if o.result.Success? {
      var m := DecodeMessage2(msg).value;
      var s' := o.session;
      OpenedIsAuthentic(c, s.cfg, s.sp, s'.prk3e2m, s'.prk2e, s'.th2, "MAC_2", "K_2e", "IV_2e", m.ciphertext);
      assert c.dhShared(s.sp.curve, s.ephPriv, m.gy) == Some(c.dhShared(s.sp.curve, s.ephPriv, m.gy).value);
      assert DecodeMessage2(msg) == Success(m);
      Finished2(c, s, msg, entropy, o.session);
    }
  }

  lemma InitiatorStepPhase(c: Crypto, s: Session, call: InitiatorCall)
    requires s.cfg.HasKeys()
    ensures var s' := InitiatorStep(c, s, call).session;
            && Rank(s.phase) <= Rank(s'.phase) <= Rank(s.phase) + 1
            && (s.phase.Complete? ==> s' == s)
            && (s'.phase.Complete? && !s.phase.Complete? ==> call.Receive2? && Accepted2(c, s, call.msg, s'))
  {
    hide ProcessMessage2, EncodeMessage1, Accepted2;
    if call.Receive2? {
      StepToComplete2(c, s, call.msg, call.entropy);
      Message2Phase(c, s, call.msg, call.entropy);
    }
  }

  lemma Message2Phase(c: Crypto, s: Session, msg: Bstr, entropy: Bstr)
    requires s.cfg.HasKeys()
    ensures var s' := ProcessMessage2(c, s, msg, entropy).session;
            if s.phase.Sent? then s'.phase.Sent? || s'.phase.Complete? else s' == s
  {
    hide DecodeMessage2, OpenMessage2, SealMessage3, TH2, NextTH, Cbor;
  }

  lemma {:induction false} InitiatorPhaseAdvances(c: Crypto, s: Session, calls: seq<InitiatorCall>, k: nat)
    requires s.cfg.HasKeys() && k <= |calls|
    ensures var early, late := InitiatorRun(c, s, calls[..k]), InitiatorRun(c, s, calls);
            Rank(early.phase) <= Rank(late.phase) && (early.phase.Complete? ==> late == early)
    decreases |calls|
  {
    hide InitiatorStep;
    if k < |calls| {
      var front := calls[..|calls| - 1];
      InitiatorPhaseAdvances(c, s, front, k);
      assert front[..k] == calls[..k];
      InitiatorStepPhase(c, InitiatorRun(c, s, front), calls[|calls| - 1]);
    } else {
      assert calls[..k] == calls;
    }
  }

  /**
   A run that starts fresh and ends complete contains a message_2 that was accepted; the
   session it left is the final session. Before that every export fails.
   */
  lemma {:induction false} CompleteInitiatorIsAuthenticated(c: Crypto, s: Session, calls: seq<InitiatorCall>)
    requires s.cfg.HasKeys() && s.phase.Init?
    ensures var end := InitiatorRun(c, s, calls);
            if end.phase.Complete? then
              exists k | 0 <= k < |calls| ::
                && calls[k].Receive2?
                && Accepted2(c, InitiatorRun(c, s, calls[..k]), calls[k].msg, end)
                && forall j | 0 <= j <= k :: !InitiatorRun(c, s, calls[..j]).phase.Complete?
            else
              forall number: int, context: Bstr, length: nat ::
                Export(c, end, number, context, length) == Failure(StateViolation)
  {
    hide InitiatorStep, Accepted2;
    if calls != [] {
      var n := |calls| - 1;
      var front := calls[..n];
      var before := InitiatorRun(c, s, front);
      CompleteInitiatorIsAuthenticated(c, s, front);
      InitiatorStepPhase(c, before, calls[n]);
      if before.phase.Complete? {
        var k :| 0 <= k < |front| && front[k].Receive2?
          && Accepted2(c, InitiatorRun(c, s, front[..k]), front[k].msg, before)
                 && forall j | 0 <= j <= k :: !InitiatorRun(c, s, front[..j]).phase.Complete?;
        forall j | 0 <= j <= k
          ensures front[..j] == calls[..j]
        {
        }
        assert calls[k] == front[k];
      } else {
        forall j | 0 <= j <= n
          ensures !InitiatorRun(c, s, calls[..j]).phase.Complete?
        {
          assert front[..j] == calls[..j];
          InitiatorPhaseAdvances(c, s, front, j);
        }
        assert calls[..n] == front;
      }
    }
  }

  // ---------------------------------------------------------------- failed calls leave no trace

  /** The same session, up to fields that a message_2 overwrites before it reads them. */
  predicate SameInitiator(a: Session, b: Session) {
    if a.phase.Complete? then a == b
    else b == a.(peerConnID := b.peerConnID, th2 := b.th2, th3 := b.th3, prk2e := b.prk2e, prk3e2m := b.prk3e2m,
                 prk4e3m := b.prk4e3m)
  }

  lemma SameMessage2(c: Crypto, a: Session, b: Session, msg: Bstr, entropy: Bstr)
    requires a.cfg.HasKeys() && SameInitiator(a, b)
    ensures var o, o' := ProcessMessage2(c, a, msg, entropy), ProcessMessage2(c, b, msg, entropy);
            o.result == o'.result && SameInitiator(o.session, o'.session)
    ensures var o := ProcessMessage2(c, a, msg, entropy);
            o.result.Failure? ==> SameInitiator(a, o.session)
  {
    hide DecodeMessage2, TH2, FinishMessage2;
    if a.phase.Sent? && DecodeMessage2(msg).Success? {
      var m := DecodeMessage2(msg).value;
      var shared := c.dhShared(a.sp.curve, a.ephPriv, m.gy);
      if c.dhAccepts(a.sp.curve, m.gy) && shared.Some? {
        var keyed := (s: Session) => WithKeys(s.(peerConnID := m.cr), c.extract(shared.value),
                                              TH2(c, s.message1, m.gy, m.cr));
        SameFinish(c, keyed(a), keyed(b), m.ciphertext, entropy);
      }
    }
  }

  /** From equal keys and TH_2 on, only TH_3 may still differ. */
  lemma SameFinish(c: Crypto, a: Session, b: Session, ciphertext: Bstr, entropy: Bstr)
    requires a.cfg.HasKeys() && b == a.(th3 := b.th3) && a.phase.Sent?
    ensures var o, o' := FinishMessage2(c, a, ciphertext, entropy), FinishMessage2(c, b, ciphertext, entropy);
            && o.result == o'.result && SameInitiator(o.session, o'.session)
            && (o.result.Failure? ==> SameInitiator(a, o.session))
  {
    hide ChannelFor, OpenOn, CheckAuth, SealMessage3, NextTH, Cbor;
    assert a.(th3 := NextTH(c, a.th2, ciphertext)) == b.(th3 := NextTH(c, b.th2, ciphertext));
  }

  lemma SameInitiatorStep(c: Crypto, a: Session, b: Session, call: InitiatorCall)
    requires a.cfg.HasKeys() && SameInitiator(a, b)
    ensures var o, o' := InitiatorStep(c, a, call), InitiatorStep(c, b, call);
            o.result == o'.result && SameInitiator(o.session, o'.session)
    ensures var o := InitiatorStep(c, a, call);
            o.result.Failure? ==> SameInitiator(a, o.session)
  {
    hide ProcessMessage2, EncodeMessage1, ChannelFor, OpenOn, DecodeBytesItem;
    if call.Receive2? {
      SameMessage2(c, a, b, call.msg, call.entropy);
    }
  }

  /** The calls of a run that succeed. */
  function SuccessfulCalls(c: Crypto, s: Session, calls: seq<InitiatorCall>): seq<InitiatorCall>
    requires s.cfg.HasKeys()
  {
    if calls == [] then []
    else
      var front, last := calls[..|calls| - 1], calls[|calls| - 1];
      var good := SuccessfulCalls(c, s, front);
      if InitiatorStep(c, InitiatorRun(c, s, front), last).result.Success? then good + [last] else good
  }

  /**
   Leaving out the calls that fail changes nothing: the run ends in the same session, exactly
   if it is complete, and up to fields that are overwritten otherwise.
   */
  lemma {:induction false} FailedInitiatorCallsAreHarmless(c: Crypto, s: Session, calls: seq<InitiatorCall>)
    requires s.cfg.HasKeys()
    ensures SameInitiator(InitiatorRun(c, s, SuccessfulCalls(c, s, calls)), InitiatorRun(c, s, calls))
  {
    hide InitiatorStep;
    if calls != [] {
      var front, last := calls[..|calls| - 1], calls[|calls| - 1];
      FailedInitiatorCallsAreHarmless(c, s, front);
      var good := SuccessfulCalls(c, s, front);
      var a, b := InitiatorRun(c, s, good), InitiatorRun(c, s, front);
      SameInitiatorStep(c, a, b, last);
      SameInitiatorStep(c, b, b, last);
      if InitiatorStep(c, b, last).result.Success? {
        assert (good + [last])[..|good|] == good;
      }
    }
  }

  // ---------------------------------------------------------------- the responder

  datatype ResponderCall = Receive1(msg: Bstr, eph: Option<Bstr>, entropy: Bstr) | Receive3(msg3: Bstr) | Create4

  function ResponderStep(c: Crypto, s: Session, call: ResponderCall): (o: Outcome<Bstr>)
    requires s.cfg.HasKeys()
    ensures o.session.cfg == s.cfg
  {
    match call
    case Receive1(msg, eph, entropy) => ProcessMessage1(c, s, msg, eph, entropy)
    case Receive3(msg) =>
      var o := ProcessMessage3(c, s, msg);
      Outcome(o.session, Silent(o.result))
    case Create4 => Outcome(s, CreateMessage4(c, s))
  }

  function ResponderRun(c: Crypto, s: Session, calls: seq<ResponderCall>): (s': Session)
    requires s.cfg.HasKeys()
    ensures s'.cfg == s.cfg
  {
    if calls == [] then s
    else ResponderStep(c, ResponderRun(c, s, calls[..|calls| - 1]), calls[|calls| - 1]).session
  }

  /** What an answered message_1 establishes. */
  ghost predicate Answered1(c: Crypto, before: Session, msg: Bstr, after: Session) {
    exists m: Message1, shared: Bstr, entropy: Bstr ::
      && before.phase.Init? && after.cfg == before.cfg && after.cfg.HasKeys()
      && DecodeMessage1(msg) == Success(m) && m.methodNumber == 0
      && Negotiated(before.cfg.suites, m.suites) == Some(after.suite) && after.sp == ParamsOf(after.suite)
      && c.dhAccepts(after.sp.curve, m.gx)
      && c.dhShared(after.sp.curve, after.ephPriv, m.gx) == Some(shared)
      && after.prk2e == after.prk3e2m == after.prk4e3m == c.extract(shared)
      && after.message1 == msg && after.peerConnID == m.ci && after.connectionID == before.connectionID
      && after.th2 == TH2(c, msg, c.dhPublic(after.sp.curve, after.ephPriv), after.connectionID)
      && SealMessage2(c, after, entropy) == Success(after.ciphertext2)
      && after.th3 == NextTH(c, after.th2, after.ciphertext2)
      && after.phase.Sent?
  }

  /** What an accepted message_3 establishes. */
  ghost predicate Accepted3(c: Crypto, before: Session, msg: Bstr, after: Session)
    requires before.cfg.HasKeys()
  {
    exists ciphertext: Bstr ::
      && before.phase.Sent?
      && DecodeBytesItem(msg) == Success(ciphertext)
      && after == before.(th4 := NextTH(c, before.th3, ciphertext), phase := Complete)
      && Authentic(c, before.cfg, before.sp, before.prk4e3m, before.prk3e2m, before.th3, "MAC_3", "K_3e", "IV_3e",
                   ciphertext)
  }

  /** The same session, up to fields that a message_1 overwrites before it reads them. */
  predicate SameResponder(a: Session, b: Session) {
    if !a.phase.Init? then a == b
    else b == a.(suite := b.suite, sp := b.sp, peerConnID := b.peerConnID, message1 := b.message1, ephPriv := b.ephPriv,
                 prk2e := b.prk2e, prk3e2m := b.prk3e2m, prk4e3m := b.prk4e3m, th2 := b.th2)
  }

  lemma AnswerPhase(c: Crypto, s: Session, gx: Bstr, eph: Option<Bstr>, entropy: Bstr)
    requires s.cfg.HasKeys() && s.phase.Init?
    ensures var o := AnswerMessage1(c, s, gx, eph, entropy);
            if o.result.Failure? then o.session.phase.Init? && SameResponder(s, o.session)
            else
              && o.session.phase.Sent? && eph.Some?
              && c.dhShared(s.sp.curve, eph.value, gx).Some?
              && var prk := c.extract(c.dhShared(s.sp.curve, eph.value, gx).value);
              && var th2 := TH2(c, s.message1, c.dhPublic(s.sp.curve, eph.value), s.connectionID);
              && SealMessage2(c, o.session, entropy) == Success(o.session.ciphertext2)
              && o.session == s.(ephPriv := eph.value, prk2e := prk, prk3e2m := prk, prk4e3m := prk, th2 := th2,
                                 ciphertext2 := o.session.ciphertext2, th3 := NextTH(c, th2, o.session.ciphertext2),
                                 phase := Sent)
  {
    hide AuthPlaintext, ChannelFor, SealOn, TH2, NextTH, EncodeMessage2;
  }

  lemma AnsweredMessage1(c: Crypto, s: Session, msg: Bstr, eph: Option<Bstr>, entropy: Bstr)
    requires s.cfg.HasKeys()
    ensures var o := ProcessMessage1(c, s, msg, eph, entropy);
            if o.result.Failure? then SameResponder(s, o.session) && o.session.phase == s.phase
            else Answered1(c, s, msg, o.session)
  {
    hide DecodeMessage1, AnswerMessage1, Negotiated, TH2, NextTH, ParamsOf, Answered1, SealMessage2;
    if s.phase.Init? && DecodeMessage1(msg).Success? {
      var m := DecodeMessage1(msg).value;
      var negotiated := Negotiated(s.cfg.suites, m.suites);
      if negotiated.Some? {
        var sp := ParamsOf(negotiated.value);
        var s1 := s.(suite := negotiated.value, sp := sp, peerConnID := m.ci, message1 := msg);
        AnswerPhase(c, s1, m.gx, eph, entropy);
        if ProcessMessage1(c, s, msg, eph, entropy).result.Success? {
          AnsweredIs(c, s, msg, m, AnswerMessage1(c, s1, m.gx, eph, entropy).session, entropy);
        }
      }
    }
  }

  lemma AnsweredIs(c: Crypto, before: Session, msg: Bstr, m: Message1, after: Session, entropy: Bstr)
    requires after.cfg == before.cfg && after.cfg.HasKeys() && after.connectionID == before.connectionID
    requires SealMessage2(c, after, entropy) == Success(after.ciphertext2)
    requires before.phase.Init? && DecodeMessage1(msg) == Success(m) && m.methodNumber == 0
    requires Negotiated(before.cfg.suites, m.suites) == Some(after.suite) && after.sp == ParamsOf(after.suite)
    requires c.dhAccepts(after.sp.curve, m.gx) && c.dhShared(after.sp.curve, after.ephPriv, m.gx).Some?
    requires after.prk2e == after.prk3e2m == after.prk4e3m
             == c.extract(c.dhShared(after.sp.curve, after.ephPriv, m.gx).value)
    requires after.message1 == msg && after.peerConnID == m.ci && after.phase.Sent?
    requires after.th2 == TH2(c, msg, c.dhPublic(after.sp.curve, after.ephPriv), after.connectionID)
    requires after.th3 == NextTH(c, after.th2, after.ciphertext2)
    ensures Answered1(c, before, msg, after)
  {
    hide DecodeMessage1, Negotiated, TH2, NextTH, ParamsOf, SealMessage2;
    var shared := c.dhShared(after.sp.curve, after.ephPriv, m.gx).value;
    assert c.dhShared(after.sp.curve, after.ephPriv, m.gx) == Some(shared);
    assert DecodeMessage1(msg) == Success(m);
    assert SealMessage2(c, after, entropy) == Success(after.ciphertext2);
  }

  lemma AcceptedMessage3(c: Crypto, s: Session, msg: Bstr)
    requires s.cfg.HasKeys()
    ensures var o := ProcessMessage3(c, s, msg);
            if o.result.Failure? then o.session == s else Accepted3(c, s, msg, o.session)
  {
    hide DecodeBytesItem, ChannelFor, OpenOn, CheckAuth, NextTH, Authentic;
    var o := ProcessMessage3(c, s, msg);
    if o.result.Success? {
      var ct := DecodeBytesItem(msg).value;
      assert DecodeBytesItem(msg) == Success(ct);
      OpenedIsAuthentic(c, s.cfg, s.sp, s.prk4e3m, s.prk3e2m, s.th3, "MAC_3", "K_3e", "IV_3e", ct);
    }
  }

  lemma ResponderStepPhase(c: Crypto, s: Session, call: ResponderCall)
    requires s.cfg.HasKeys()
    ensures var o := ResponderStep(c, s, call);
            var s' := o.session;
            && Rank(s.phase) <= Rank(s'.phase) <= Rank(s.phase) + 1
            && (s.phase.Complete? ==> s' == s)
            && (s'.phase.Sent? && s.phase.Init? ==> call.Receive1? && Answered1(c, s, call.msg, s'))
            && (s'.phase.Sent? && s.phase.Sent? ==> s' == s)
            && (s'.phase.Complete? && !s.phase.Complete? ==> call.Receive3? && Accepted3(c, s, call.msg3, s'))
            && (o.result.Failure? ==> SameResponder(s, s'))
  {
    hide ProcessMessage1, ProcessMessage3, CreateMessage4, Accepted3, Answered1;
    match call
    case Receive1(msg, eph, entropy) =>
      AnsweredMessage1(c, s, msg, eph, entropy);
      Message1Phase(c, s, msg, eph, entropy);
    case Receive3(msg) =>
      AcceptedMessage3(c, s, msg);
      Message3Phase(c, s, msg);
    case Create4 =>
  }

  lemma Message1Phase(c: Crypto, s: Session, msg: Bstr, eph: Option<Bstr>, entropy: Bstr)
    requires s.cfg.HasKeys()
    ensures var s' := ProcessMessage1(c, s, msg, eph, entropy).session;
            if s.phase.Init?
            then s'.phase.Init? || (s'.phase.Sent? && ProcessMessage1(c, s, msg, eph, entropy).result.Success?)
            else s' == s && ProcessMessage1(c, s, msg, eph, entropy).result.Failure?
  {
    hide DecodeMessage1, Negotiated, TH2, NextTH, SealMessage2, EncodeMessage2;
  }

  lemma Message3Phase(c: Crypto, s: Session, msg: Bstr)
    requires s.cfg.HasKeys()
    ensures var o := ProcessMessage3(c, s, msg);
            if o.result.Success? then s.phase.Sent? && o.session.phase.Complete? else o.session == s
  {
    hide DecodeBytesItem, OpenMessage3, NextTH;
  }

  lemma {:induction false} ResponderPhaseAdvances(c: Crypto, s: Session, calls: seq<ResponderCall>, k: nat)
    requires s.cfg.HasKeys() && k <= |calls|
    ensures var early, late := ResponderRun(c, s, calls[..k]), ResponderRun(c, s, calls);
            && Rank(early.phase) <= Rank(late.phase) && (early.phase.Complete? ==> late == early)
            && (early.phase.Sent? && late.phase.Sent? ==> late == early)
    decreases |calls|
  {
    hide ResponderStep;
    if k < |calls| {
      var front := calls[..|calls| - 1];
      ResponderPhaseAdvances(c, s, front, k);
      assert front[..k] == calls[..k];
      ResponderStepPhase(c, ResponderRun(c, s, front), calls[|calls| - 1]);
    } else {
      assert calls[..k] == calls;
    }
  }

  /** A run that starts fresh and is past the first message contains a message_1 that was answered. */
  lemma {:induction false} SentResponderAnswered(c: Crypto, s: Session, calls: seq<ResponderCall>)
    requires s.cfg.HasKeys() && s.phase.Init?
    requires ResponderRun(c, s, calls).phase.Sent?
    ensures exists j | 0 <= j < |calls| ::
              calls[j].Receive1? && Answered1(c, ResponderRun(c, s, calls[..j]), calls[j].msg,
                                              ResponderRun(c, s, calls))
  {
    hide ResponderStep, Answered1;
    if calls != [] {
      var n := |calls| - 1;
      var front := calls[..n];
      ResponderStepPhase(c, ResponderRun(c, s, front), calls[n]);
      if ResponderRun(c, s, front).phase.Sent? {
        SentResponderAnswered(c, s, front);
        var j :| 0 <= j < |front| && front[j].Receive1?
                 && Answered1(c, ResponderRun(c, s, front[..j]), front[j].msg, ResponderRun(c, s, front));
        assert front[..j] == calls[..j] && calls[j] == front[j];
      }
    }
  }

  /**
   A run that starts fresh and ends complete contains an answered message_1 and, after it, a
   message_3 that was accepted over the session the answer left. Before that exports fail.
   */
  lemma {:induction false} CompleteResponderIsAuthenticated(c: Crypto, s: Session, calls: seq<ResponderCall>)
    requires s.cfg.HasKeys() && s.phase.Init?
    ensures var end := ResponderRun(c, s, calls);
            if end.phase.Complete? then
              exists j, k | 0 <= j < k < |calls| ::
                && calls[j].Receive1? && calls[k].Receive3?
                && Answered1(c, ResponderRun(c, s, calls[..j]), calls[j].msg, ResponderRun(c, s, calls[..k]))
                && Accepted3(c, ResponderRun(c, s, calls[..k]), calls[k].msg3, end)
            else
              forall number: int, context: Bstr, length: nat ::
                Export(c, end, number, context, length) == Failure(StateViolation)
  {
    hide ResponderStep, Accepted3, Answered1;
    if calls != [] {
      var n := |calls| - 1;
      var front := calls[..n];
      var before := ResponderRun(c, s, front);
      CompleteResponderIsAuthenticated(c, s, front);
      ResponderStepPhase(c, before, calls[n]);
      if before.phase.Complete? {
        var j, k :| 0 <= j < k < |front| && front[j].Receive1? && front[k].Receive3?
                    && Answered1(c, ResponderRun(c, s, front[..j]), front[j].msg, ResponderRun(c, s, front[..k]))
                    && Accepted3(c, ResponderRun(c, s, front[..k]), front[k].msg3, before);
        assert front[..j] == calls[..j] && front[..k] == calls[..k] && calls[j] == front[j] && calls[k] == front[k];
      } else if ResponderRun(c, s, calls).phase.Complete? {
        SentResponderAnswered(c, s, front);
        var j :| 0 <= j < |front| && front[j].Receive1?
          && Answered1(c, ResponderRun(c, s, front[..j]), front[j].msg, before);
        assert front[..j] == calls[..j] && calls[j] == front[j] && calls[..n] == front;
      }
    }
  }

  lemma SameResponderStep(c: Crypto, a: Session, b: Session, call: ResponderCall)
    requires a.cfg.HasKeys() && SameResponder(a, b)
    ensures var o, o' := ResponderStep(c, a, call), ResponderStep(c, b, call);
            o.result == o'.result && SameResponder(o.session, o'.session)
  {
    hide ProcessMessage3, ChannelFor, SealOn, CborEncode, DecodeMessage1, Negotiated, AnswerMessage1, ParamsOf;
    if call.Receive1? && a.phase.Init? && DecodeMessage1(call.msg).Success? {
      var m := DecodeMessage1(call.msg).value;
      var negotiated := Negotiated(a.cfg.suites, m.suites);
      if negotiated.Some? {
        var ready := (s: Session) => s.(suite := negotiated.value, sp := ParamsOf(negotiated.value),
                                        peerConnID := m.ci, message1 := call.msg);
        SameAnswer(c, ready(a), ready(b), m.gx, call.eph, call.entropy);
      }
    }
    if call.Receive3? && a.phase.Init? {
      EarlyMessage3(c, a, call.msg3);
      EarlyMessage3(c, b, call.msg3);
    }
  }

  lemma EarlyMessage3(c: Crypto, s: Session, msg: Bstr)
    requires s.cfg.HasKeys() && s.phase.Init?
    ensures ProcessMessage3(c, s, msg) == Outcome(s, Failure(StateViolation))
  {
  }

  lemma SameAnswer(c: Crypto, a: Session, b: Session, gx: Bstr, eph: Option<Bstr>, entropy: Bstr)
    requires a.cfg.HasKeys() && a.phase.Init?
    requires b == a.(ephPriv := b.ephPriv, prk2e := b.prk2e, prk3e2m := b.prk3e2m, prk4e3m := b.prk4e3m, th2 := b.th2)
    ensures var o, o' := AnswerMessage1(c, a, gx, eph, entropy), AnswerMessage1(c, b, gx, eph, entropy);
            o.result == o'.result && SameResponder(o.session, o'.session)
  {
    hide SealMessage2, TH2, NextTH, EncodeMessage2;
  }

  /** The calls of a run that succeed. */
  function SuccessfulAnswers(c: Crypto, s: Session, calls: seq<ResponderCall>): seq<ResponderCall>
    requires s.cfg.HasKeys()
  {
    if calls == [] then []
    else
      var front, last := calls[..|calls| - 1], calls[|calls| - 1];
      var good := SuccessfulAnswers(c, s, front);
      if ResponderStep(c, ResponderRun(c, s, front), last).result.Success? then good + [last] else good
  }

  /** Leaving out the calls that fail changes nothing: exactly so once message_1 was answered. */
  lemma {:induction false} FailedResponderCallsAreHarmless(c: Crypto, s: Session, calls: seq<ResponderCall>)
    requires s.cfg.HasKeys()
    ensures SameResponder(ResponderRun(c, s, SuccessfulAnswers(c, s, calls)), ResponderRun(c, s, calls))
  {
    hide ResponderStep, Answered1, Accepted3;
    if calls != [] {
      var front, last := calls[..|calls| - 1], calls[|calls| - 1];
      FailedResponderCallsAreHarmless(c, s, front);
      var good := SuccessfulAnswers(c, s, front);
      var a, b := ResponderRun(c, s, good), ResponderRun(c, s, front);
      SameResponderStep(c, a, b, last);
      ResponderStepPhase(c, b, last);
      if ResponderStep(c, b, last).result.Success? {
        assert (good + [last])[..|good|] == good;
      }
    }
  }
}
