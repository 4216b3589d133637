/**
 The Initiator and the Responder objects. Every method is proved to do to the fields, and to
 return, what the session function of the same name says, on every path including failures.
 */
module EdhocParties {
  import opened Bytes
  import opened Blocks
  import opened Values
  import opened Encoding
  import opened EdhocMessages
  import opened EdhocKeys
  import E = Edhoc
  import opened Edhoc

  class Initiator {
    const c: Crypto
    var cfg: Config
    var suite: CipherSuite
    var sp: SuiteParams
    var phase: Phase
    var ephPriv: Bstr
    var connectionID: Bstr
    var peerConnID: Bstr
    var message1: Bstr
    var th2: Bstr
    var th3: Bstr
    var th4: Bstr
    var prk2e: Bstr
    var prk3e2m: Bstr
    var prk4e3m: Bstr

    /** The fields as a session value. */
    function View(): Session
      reads this
    {
      Session(cfg, suite, sp, phase, ephPriv, connectionID, peerConnID, message1, th2, th3, th4, prk2e, prk3e2m,
              prk4e3m, [])
    }

    ghost predicate Valid()
      reads this
    {
      cfg.HasKeys()
    }

    constructor (c: Crypto, start: Session)
      requires start.cfg.HasKeys() && start.ciphertext2 == []
      ensures Valid() && View() == start && this.c == c
    {
      this.c := c;
      cfg, suite, sp, phase := start.cfg, start.suite, start.sp, start.phase;
      ephPriv, message1 := start.ephPriv, start.message1;
      connectionID, peerConnID := start.connectionID, start.peerConnID;
      th2, th3, th4 := start.th2, start.th3, start.th4;
      prk2e, prk3e2m, prk4e3m := start.prk2e, start.prk3e2m, start.prk4e3m;
    }

    /** NewInitiator. */
    static method New(c: Crypto, cfg: Config, random: Option<Byte>) returns (r: Result<Initiator, EdhocError>)
      ensures r.Failure? ==> NewInitiator(cfg, random) == Failure(r.error)
      ensures r.Success? ==> fresh(r.value) && r.value.Valid() && r.value.c == c
                             && NewInitiator(cfg, random) == Success(r.value.View())
    {
      if |cfg.suites| == 0 {
        return Failure(UnsupportedSuite);
      }
      var selected := cfg.suites[0];
      if !IsSupported(selected) {
        return Failure(UnsupportedSuite);
      }
      if cfg.privateKey.None? || cfg.peerPublic.None? {
        return Failure(StateViolation);
      }
      var cid :- ChooseConnectionID(cfg, random);
      var i := new Initiator(c, NewSession(cfg, selected, ParamsOf(selected), cid));
      return Success(i);
    }

    method CreateMessage1(eph: Option<Bstr>) returns (r: Result<Bstr, EdhocError>)
      requires Valid()
      modifies this
      ensures Valid() && Outcome(View(), r) == E.CreateMessage1(c, old(View()), eph)
    {
      hide EncodeMessage1;
      if phase != Init {
        return Failure(StateViolation);
      }
      if eph.None? {
        return Failure(KeyGeneration);
      }
      ephPriv := eph.value;
      var raw := EncodeMessage1(Message1(0, cfg.suites, suite, c.dhPublic(sp.curve, ephPriv), connectionID));
      message1 := raw;
      phase := Sent;
      return Success(raw);
    }

    method DecryptMessage2(ciphertext: Bstr) returns (r: Result<Bstr, EdhocError>)
      ensures r == E.DecryptMessage2(c, View(), ciphertext)
    {
      hide ChannelFor, OpenOn;
      var ch :- ChannelFor(c, sp, prk2e, th2, "K_2e", "IV_2e");
      r := OpenOn(ch, ciphertext);
    }

    method EncryptMessage3(entropy: Bstr) returns (r: Result<Bstr, EdhocError>)
      requires Valid()
      ensures r == E.SealMessage3(c, View(), entropy)
    {
      hide ChannelFor, SealOn, AuthPlaintext;
      var plaintext :- AuthPlaintext(c, cfg, sp, prk4e3m, th3, "MAC_3", entropy);
      var ch :- ChannelFor(c, sp, prk3e2m, th3, "K_3e", "IV_3e");
      r := SealOn(ch, plaintext);
    }

    /** The keys and TH_2, once the other side's share is known. */
    method SetKeys(prk: Bstr, th: Bstr)
      modifies this`prk2e, this`prk3e2m, this`prk4e3m, this`th2
      ensures View() == WithKeys(old(View()), prk, th)
    {
      prk2e := prk;
      prk3e2m := prk2e;
      prk4e3m := prk2e;
      th2 := th;
    }

    method FinishMessage2(ciphertext: Bstr, entropy: Bstr) returns (r: Result<Bstr, EdhocError>)
      requires Valid()
      modifies this
      ensures Valid() && Outcome(View(), r) == E.FinishMessage2(c, old(View()), ciphertext, entropy)
    {
      hide E.DecryptMessage2, CheckAuth, SealMessage3, NextTH, Cbor;
      var plaintext2 :- DecryptMessage2(ciphertext);
      var _ :- CheckAuth(c, cfg, sp, prk3e2m, th2, "MAC_2", plaintext2);
      th3 := NextTH(c, th2, ciphertext);
      var ct :- EncryptMessage3(entropy);
      th4 := NextTH(c, th3, ct);
      phase := Complete;
      return Success(Cbor(ByteString(ct)));
    }

    method ProcessMessage2(msg: Bstr, entropy: Bstr) returns (r: Result<Bstr, EdhocError>)
      requires Valid()
      modifies this
      ensures Valid() && Outcome(View(), r) == E.ProcessMessage2(c, old(View()), msg, entropy)
    {
      hide DecodeMessage2, TH2, E.FinishMessage2;
      if phase != Sent {
        return Failure(StateViolation);
      }
      var m :- DecodeMessage2(msg);
      peerConnID := m.cr;
      if !c.dhAccepts(sp.curve, m.gy) {
        return Failure(MessageFormat);
      }
      var shared := c.dhShared(sp.curve, ephPriv, m.gy);
      if shared.None? {
        return Failure(Authentication);
      }
      SetKeys(c.extract(shared.value), TH2(c, message1, m.gy, m.cr));
      r := FinishMessage2(m.ciphertext, entropy);
    }

    method ProcessMessage4(msg: Bstr) returns (r: Result<(), EdhocError>)
      ensures r == E.ProcessMessage4(c, View(), msg)
    {
      hide DecodeBytesItem, ChannelFor, OpenOn;
      if phase != Complete {
        return Failure(StateViolation);
      }
      var ct :- DecodeBytesItem(msg);
      var ch :- ChannelFor(c, sp, prk4e3m, th4, "K_4", "IV_4");
      var _ :- OpenOn(ch, ct);
      return Success(());
    }
  }

  class Responder {
    const c: Crypto
    var cfg: Config
    var suite: CipherSuite
    var sp: SuiteParams
    var phase: Phase
    var ephPriv: Bstr
    var connectionID: Bstr
    var peerConnID: Bstr
    var message1: Bstr
    var th2: Bstr
    var th3: Bstr
    var th4: Bstr
    var prk2e: Bstr
    var prk3e2m: Bstr
    var prk4e3m: Bstr
    var ciphertext2: Bstr

    /** The fields as a session value. */
    function View(): Session
      reads this
    {
      Session(cfg, suite, sp, phase, ephPriv, connectionID, peerConnID, message1, th2, th3, th4, prk2e, prk3e2m,
              prk4e3m, ciphertext2)
    }

    ghost predicate Valid()
      reads this
    {
      cfg.HasKeys()
    }

    constructor (c: Crypto, start: Session)
      requires start.cfg.HasKeys()
      ensures Valid() && View() == start && this.c == c
    {
      this.c := c;
      cfg, suite, sp, phase := start.cfg, start.suite, start.sp, start.phase;
      ephPriv, message1 := start.ephPriv, start.message1;
      connectionID, peerConnID := start.connectionID, start.peerConnID;
      th2, th3, th4 := start.th2, start.th3, start.th4;
      prk2e, prk3e2m, prk4e3m := start.prk2e, start.prk3e2m, start.prk4e3m;
      ciphertext2 := start.ciphertext2;
    }

    /** NewResponder, with its loop over the configured suites. */
    static method New(c: Crypto, cfg: Config, random: Option<Byte>) returns (r: Result<Responder, EdhocError>)
      ensures r.Failure? ==> NewResponder(cfg, random) == Failure(r.error)
      ensures r.Success? ==> fresh(r.value) && r.value.Valid() && r.value.c == c
                             && NewResponder(cfg, random) == Success(r.value.View())
    {
      if |cfg.suites| == 0 {
        return Failure(UnsupportedSuite);
      }
      var i := 0;
      while i < |cfg.suites|
        invariant i <= |cfg.suites| && forall k | 0 <= k < i :: IsSupported(cfg.suites[k])
      {
        if !IsSupported(cfg.suites[i]) {
          return Failure(UnsupportedSuite);
        }
        i := i + 1;
      }
      if cfg.privateKey.None? || cfg.peerPublic.None? {
        return Failure(StateViolation);
      }
      var cid :- ChooseConnectionID(cfg, random);
      var res := new Responder(c, NewSession(cfg, SUITE_0, NO_PARAMS, cid));
      return Success(res);
    }

    method NegotiateSuite(proposed: seq<CipherSuite>) returns (r: Option<CipherSuite>)
      ensures r == Negotiated(cfg.suites, proposed)
    {
      var i := 0;
      while i < |proposed|
        invariant i <= |proposed| && Negotiated(cfg.suites, proposed) == Negotiated(cfg.suites, proposed[i..])
      {
        var k := 0;
        while k < |cfg.suites|
          invariant k <= |cfg.suites| && proposed[i] !in cfg.suites[..k]
        {
          if proposed[i] == cfg.suites[k] {
            return Some(proposed[i]);
          }
          k := k + 1;
        }
        assert cfg.suites[..k] == cfg.suites;
        i := i + 1;
      }
      return None;
    }

    method EncryptMessage2(entropy: Bstr) returns (r: Result<Bstr, EdhocError>)
      requires Valid()
      ensures r == E.SealMessage2(c, View(), entropy)
    {
      hide ChannelFor, SealOn, AuthPlaintext;
      var plaintext :- AuthPlaintext(c, cfg, sp, prk3e2m, th2, "MAC_2", entropy);
      var ch :- ChannelFor(c, sp, prk2e, th2, "K_2e", "IV_2e");
      r := SealOn(ch, plaintext);
    }

    /** The keys and TH_2, once the other side's share is known. */
    method SetKeys(prk: Bstr, th: Bstr)
      modifies this`prk2e, this`prk3e2m, this`prk4e3m, this`th2
      ensures View() == WithKeys(old(View()), prk, th)
    {
      prk2e := prk;
      prk3e2m := prk2e;
      prk4e3m := prk2e;
      th2 := th;
    }

    method RecordMessage2(ct: Bstr)
      modifies this`ciphertext2, this`th3, this`phase
      ensures View() == old(View()).(ciphertext2 := ct, th3 := NextTH(c, old(th2), ct), phase := Sent)
    {
      ciphertext2 := ct;
      th3 := NextTH(c, th2, ct);
      phase := Sent;
    }

    method AnswerMessage1(gx: Bstr, eph: Option<Bstr>, entropy: Bstr) returns (r: Result<Bstr, EdhocError>)
      requires Valid()
      modifies this
      ensures Valid() && Outcome(View(), r) == E.AnswerMessage1(c, old(View()), gx, eph, entropy)
    {
      hide EncodeMessage2, SealMessage2, TH2, NextTH;
      if eph.None? {
        return Failure(KeyGeneration);
      }
      ephPriv := eph.value;
      var shared := c.dhShared(sp.curve, ephPriv, gx);
      if shared.None? {
        return Failure(Authentication);
      }
      var gy := c.dhPublic(sp.curve, ephPriv);
      SetKeys(c.extract(shared.value), TH2(c, message1, gy, connectionID));
      var ct :- EncryptMessage2(entropy);
      RecordMessage2(ct);
      return Success(EncodeMessage2(Message2(gy, connectionID, ct)));
    }

    method ProcessMessage1(msg: Bstr, eph: Option<Bstr>, entropy: Bstr) returns (r: Result<Bstr, EdhocError>)
      requires Valid()
      modifies this
      ensures Valid() && Outcome(View(), r) == E.ProcessMessage1(c, old(View()), msg, eph, entropy)
    {
      hide DecodeMessage1, Negotiated, E.AnswerMessage1, ParamsOf;
      if phase != Init {
        return Failure(StateViolation);
      }
      var m :- DecodeMessage1(msg);
      if m.methodNumber != 0 {
        return Failure(UnsupportedSuite);
      }
      var negotiated := NegotiateSuite(m.suites);
      if negotiated.None? {
        return Failure(UnsupportedSuite);
      }
      suite := negotiated.value;
      sp := ParamsOf(suite);
      if !c.dhAccepts(sp.curve, m.gx) {
        return Failure(MessageFormat);
      }
      peerConnID := m.ci;
      message1 := msg;
      r := AnswerMessage1(m.gx, eph, entropy);
    }

    method ProcessMessage3(msg: Bstr) returns (r: Result<(), EdhocError>)
      requires Valid()
      modifies this
      ensures Valid() && Outcome(View(), r) == E.ProcessMessage3(c, old(View()), msg)
    {
      hide DecodeBytesItem, ChannelFor, OpenOn, CheckAuth, NextTH;
      if phase != Sent {
        return Failure(StateViolation);
      }
      var ct :- DecodeBytesItem(msg);
      var ch :- ChannelFor(c, sp, prk3e2m, th3, "K_3e", "IV_3e");
      var plaintext3 :- OpenOn(ch, ct);
      var _ :- CheckAuth(c, cfg, sp, prk4e3m, th3, "MAC_3", plaintext3);
      th4 := NextTH(c, th3, ct);
      phase := Complete;
      return Success(());
    }

    method CreateMessage4() returns (r: Result<Bstr, EdhocError>)
      ensures r == E.CreateMessage4(c, View())
    {
      hide CborEncode, ChannelFor, SealOn;
      if phase != Complete {
        return Failure(StateViolation);
      }
      var ch :- ChannelFor(c, sp, prk4e3m, th4, "K_4", "IV_4");
      var ct :- SealOn(ch, []);
      r := CborEncode(ByteString(ct));
    }
  }
}
