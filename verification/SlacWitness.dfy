/** Reachable joint states that show where the protocol, as coded, promises less. */
module SlacWitness {
  import opened Bytes
  import opened SlacTypes
  import opened SlacSpec
  import opened SlacProtocol
  import opened SlacCausality

  lemma Extend(s: Joint, t: Joint)
    requires Reachable(s) && Next(s, t)
    ensures Reachable(t)
  {
    hide Next, Init;
    var tr: seq<Joint> :| IsRun(tr) && tr[|tr| - 1] == s;
    var longer := tr + [t];
    forall i: nat | i + 1 < |longer|
      ensures Linked(longer, i)
    {
      if i + 1 < |tr| {
        assert Linked(tr, i);
      }
    }
    assert IsRun(longer) && longer[|longer| - 1] == t;
  }

  lemma ReachableInv(s: Joint)
    requires Reachable(s)
    ensures Inv(s)
  {
    var tr: seq<Joint> :| IsRun(tr) && tr[|tr| - 1] == s;
    RunInv(tr, |tr| - 1);
  }

  lemma ValidationSucceeds(s: Joint, f: Frame)
    requires Reachable(s) && f in s.wire && f.ValidateCnf?
    ensures f.result == 0
  {
    hide Reachable;
    ReachableInv(s);
  }

  /** An environment in which every send succeeds and every draw of a run id gives `id`. */
  function World(recv: Option<Frame>, now: nat, id: RunId): Env {
    Env(recv, now, NUM_SOUNDS, id, seq(16, _ => 0), [0, 0, 0, 0, 0, 0, 0], seq(NUM_GROUPS, _ => 0))
  }

  lemma EvGoes(s: Joint, e: Env) returns (t: Joint)
    requires Reachable(s) && Delivered(e.recv, s.wire) && s.evClock <= e.now
    ensures Reachable(t) && t.evse == s.evse && t.evseClock == s.evseClock && t.evClock == e.now
    ensures t.ev == EvStep(s.ev, e).ctx && t.wire == s.wire + Frames(EvStep(s.ev, e).sent)
  {
    hide Reachable;
    var r := EvStep(s.ev, e);
    t := s.(ev := r.ctx, wire := s.wire + Frames(r.sent), evClock := e.now);
    assert EvMoves(s, e, t);
    Extend(s, t);
  }

  lemma EvseGoes(s: Joint, e: Env) returns (t: Joint)
    requires Reachable(s) && Delivered(e.recv, s.wire) && s.evseClock <= e.now
    ensures Reachable(t) && t.ev == s.ev && t.evClock == s.evClock && t.evseClock == e.now
    ensures t.evse == EvseStep(s.evse, e).ctx && t.wire == s.wire + Frames(EvseStep(s.evse, e).sent)
  {
    hide Reachable;
    var r := EvseStep(s.evse, e);
    t := s.(evse := r.ctx, wire := s.wire + Frames(r.sent), evseClock := e.now);
    assert EvseMoves(s, e, t);
    Extend(s, t);
  }

  /** t is reached from s with the run ids and the retry count as they were. */
  ghost predicate Onward(s: Joint, t: Joint) {
    && Reachable(t) && t.ev.runId == s.ev.runId && t.evse.runId == s.evse.runId
    && t.ev.retryCount == s.ev.retryCount
    && forall k :: OnWire(s.wire, k) ==> OnWire(t.wire, k)
  }

  /** The state after sending, and the state that waits for, a frame of each kind. */
  function SentState(k: Kind): SlacState {
    match k
    case KParmReq => EvWaitParmCnf
    case KParmCnf => EvseWaitStartAtten
    case KStartAtten => EvSendMnbcSounds
    case KSound => EvWaitAttenChar
    case KAttenChar => EvseWaitAttenRsp
    case KAttenRsp => EvSendValidate
    case KValidateReq => EvWaitValidateCnf
    case KValidateCnf => EvseWaitMatchReq
    case KMatchReq => EvWaitMatchCnf
    case KMatchCnf => EvseMatched
  }

  function WaitState(k: Kind): SlacState {
    match k
    case KParmReq => EvseWaitParmReq
    case KParmCnf => EvWaitParmCnf
    case KStartAtten => EvseWaitStartAtten
    case KSound => EvseCollectSounds
    case KAttenChar => EvWaitAttenChar
    case KAttenRsp => EvseWaitAttenRsp
    case KValidateReq => EvseWaitValidateReq
    case KValidateCnf => EvWaitValidateCnf
    case KMatchReq => EvseWaitMatchReq
    case KMatchCnf => EvWaitMatchCnf
  }

  function HeardState(k: Kind): SlacState {
    match k
    case KParmReq => EvseSendParmCnf
    case KParmCnf => EvSendStartAtten
    case KStartAtten => EvseCollectSounds
    case KSound => EvseCollectSounds
    case KAttenChar => EvSendAttenRsp
    case KAttenRsp => EvseWaitValidateReq
    case KValidateReq => EvseSendValidateCnf
    case KValidateCnf => EvSendMatchReq
    case KMatchReq => EvseSendMatchCnf
    case KMatchCnf => EvMatched
  }

  predicate EvKind(k: Kind) {
    k == KStartAtten || k == KSound || k == KAttenRsp || k == KValidateReq || k == KMatchReq
  }

  predicate EvseKind(k: Kind) {
    k == KParmCnf || k == KAttenChar || k == KValidateCnf || k == KMatchCnf
  }

  lemma EvSpeaks(s: Joint, k: Kind) returns (t: Joint)
    requires Reachable(s) && EvKind(k) && s.ev.state == SendState(k)
    ensures Onward(s, t) && t.evse == s.evse && t.ev.state == SentState(k) && OnWire(t.wire, k)
  {
    hide Reachable;
    var e := World(None, s.evClock, s.ev.runId);
    t := EvGoes(s, e);
    OnWireGrows(s.wire, t.wire);
    var f := EvStep(s.ev, e).sent[0];
    assert f in t.wire && KindOf(f) == k;
  }

  lemma EvseSpeaks(s: Joint, k: Kind) returns (t: Joint)
    requires Reachable(s) && EvseKind(k) && s.evse.state == SendState(k)
    ensures Onward(s, t) && t.ev == s.ev && t.evse.state == SentState(k) && OnWire(t.wire, k)
  {
    hide Reachable;
    var e := World(None, s.evseClock, s.evse.runId);
    t := EvseGoes(s, e);
    OnWireGrows(s.wire, t.wire);
    var f := EvseStep(s.evse, e).sent[0];
    assert f in t.wire && KindOf(f) == k;
  }

  lemma EvHears(s: Joint, k: Kind) returns (t: Joint)
    requires Reachable(s) && EvseKind(k) && s.ev.state == WaitState(k) && OnWire(s.wire, k)
    ensures Onward(s, t) && t.evse == s.evse && t.ev.state == HeardState(k)
  {
    hide Reachable;
    var f :| f in s.wire && KindOf(f) == k;
    if f.ValidateCnf? {
      ValidationSucceeds(s, f);
    }
    t := EvGoes(s, World(Some(f), s.evClock, s.ev.runId));
    OnWireGrows(s.wire, t.wire);
  }

  lemma EvseHears(s: Joint, k: Kind) returns (t: Joint)
    requires Reachable(s) && EvKind(k) && s.evse.state == WaitState(k) && OnWire(s.wire, k)
    requires k == KSound ==> s.evse.soundCount == 0
    ensures Onward(s, t) && t.ev == s.ev && t.evse.state == HeardState(k)
    ensures k == KStartAtten ==> t.evse.soundCount == 0
    ensures k == KSound ==> t.evse.soundCount == 1
  {
    hide Reachable;
    var f :| f in s.wire && KindOf(f) == k;
    t := EvseGoes(s, World(Some(f), s.evseClock, s.evse.runId));
    OnWireGrows(s.wire, t.wire);
  }

  lemma EvseStopsCollecting(s: Joint) returns (t: Joint)
    requires Reachable(s) && s.evse.state == EvseCollectSounds && s.evse.soundCount == 1
    ensures Onward(s, t) && t.ev == s.ev && t.evse.state == EvseSendAttenChar
  {
    hide Reachable;
    t := EvseGoes(s, World(None, s.evseClock + s.evse.lastTime + EVSE_MNBC_MS + 1, s.evse.runId));
    OnWireGrows(s.wire, t.wire);
  }

  lemma ExchangeSounds(s: Joint) returns (t: Joint)
    requires Reachable(s) && OnWire(s.wire, KParmCnf)
    requires s.ev.state == EvWaitParmCnf && s.evse.state == EvseWaitStartAtten
    ensures Onward(s, t) && t.ev.state == EvSendAttenRsp && t.evse.state == EvseWaitAttenRsp
  {
    hide Reachable, OnWire;
    t := EvHears(s, KParmCnf);
    t := EvSpeaks(t, KStartAtten);
    t := EvSpeaks(t, KSound);
    t := EvseHears(t, KStartAtten);
    t := EvseHears(t, KSound);
    t := EvseStopsCollecting(t);
    t := EvseSpeaks(t, KAttenChar);
    t := EvHears(t, KAttenChar);
  }

  lemma Validate(s: Joint) returns (t: Joint)
    requires Reachable(s) && s.ev.state == EvSendAttenRsp && s.evse.state == EvseWaitAttenRsp
    ensures Onward(s, t) && t.ev.state == EvSendMatchReq && t.evse.state == EvseWaitMatchReq
  {
    hide Reachable, OnWire;
    t := EvSpeaks(s, KAttenRsp);
    t := EvSpeaks(t, KValidateReq);
    t := EvseHears(t, KAttenRsp);
    t := EvseHears(t, KValidateReq);
    t := EvseSpeaks(t, KValidateCnf);
    t := EvHears(t, KValidateCnf);
  }

  lemma RequestMatch(s: Joint) returns (t: Joint)
    requires Reachable(s) && s.ev.state == EvSendAttenRsp && s.evse.state == EvseWaitAttenRsp
    ensures Onward(s, t) && t.ev.state == EvWaitMatchCnf && t.evse.state == EvseSendMatchCnf
  {
    hide Reachable, OnWire;
    t := Validate(s);
    t := EvSpeaks(t, KMatchReq);
    t := EvseHears(t, KMatchReq);
  }

  /** The EVSE draws nmk and nid and confirms. */
  lemma ConfirmMatch(s: Joint, nmk: Nmk, nid: Nid) returns (t: Joint)
    requires Reachable(s) && s.evse.state == EvseSendMatchCnf && nid[6] % 4 == 0
    ensures Onward(s, t) && t.ev == s.ev && t.evse.state == EvseMatched && t.evse.nmk == nmk && t.evse.nid == nid
    ensures OnWire(t.wire, KMatchCnf)
  {
    hide Reachable;
    var e := World(None, s.evseClock, s.evse.runId).(freshNmk := nmk, freshNid := nid);
    t := EvseGoes(s, e);
    EvseMatchingStep(s.evse, e);
    assert t.evse.nid == nid;
    OnWireGrows(s.wire, t.wire);
    var f := EvseStep(s.evse, e).sent[0];
    assert f in t.wire && KindOf(f) == KMatchCnf;
  }

  /** From a linked pair to the EVSE being matched on the given keys, with the EV waiting for the last frame. */
  lemma Handshake(s: Joint, nmk: Nmk, nid: Nid) returns (t: Joint)
    requires Reachable(s) && OnWire(s.wire, KParmCnf) && nid[6] % 4 == 0
    requires s.ev.state == EvWaitParmCnf && s.evse.state == EvseWaitStartAtten
    ensures Onward(s, t) && t.ev.state == EvWaitMatchCnf && t.evse.state == EvseMatched
    ensures t.evse.nmk == nmk && t.evse.nid == nid && OnWire(t.wire, KMatchCnf)
  {
    hide Reachable, OnWire;
    t := ExchangeSounds(s);
    t := RequestMatch(t);
    t := ConfirmMatch(t, nmk, nid);
  }

  const NO_NMK: Nmk := seq(16, _ => 0)
  const NO_NID: Nid := [0, 0, 0, 0, 0, 0, 0]

  /** Where runs start, here with every field zero. */
  function Begin(): Joint {
    var m: Mac := [0, 0, 0, 0, 0, 0];
    var nmk, nid, aag := seq(16, _ => 0), [0, 0, 0, 0, 0, 0, 0], seq(NUM_GROUPS, _ => 0);
    var id: RunId := [0, 0, 0, 0, 0, 0, 0, 0];
    var ev := Ctx(true, EvSendParmReq, m, m, id, nmk, nid, aag, 0, 0, 0);
    Joint(ev, Started(ev.(isEv := false)), {}, 0, 0)
  }

  lemma BeginReachable()
    ensures Reachable(Begin())
  {
    var tr := [Begin()];
    assert IsRun(tr) && tr[|tr| - 1] == Begin();
  }

  /** The EVSE answers the EV's first PARM.REQ, which carries the run id `id`. */
  lemma FirstContact(id: RunId) returns (t: Joint)
    ensures Reachable(t) && t.ev.state == EvWaitParmCnf && t.evse.state == EvseWaitStartAtten
    ensures t.ev.retryCount == 0 && t.ev.runId == id && t.evse.runId == id && OnWire(t.wire, KParmCnf)
  {
    hide Reachable;
    BeginReachable();
    var s := EvGoes(Begin(), World(None, 0, id));
    var req := ParmReq(s.ev.localMac, id);
    assert req == EvStep(Begin().ev, World(None, 0, id)).sent[0];
    t := EvseGoes(s, World(Some(req), 0, id));
    t := EvseSpeaks(t, KParmCnf);
  }

  /** The EV times out once more and tries again with the run id `id`. */
  lemma Retry(s: Joint, id: RunId) returns (t: Joint)
    requires Reachable(s) && s.ev.state == EvWaitParmCnf && s.ev.retryCount + 1 < EV_MATCH_RETRY
    ensures Reachable(t) && t.ev.state == EvWaitParmCnf && t.evse == s.evse
    ensures t.ev.retryCount == s.ev.retryCount + 1 && t.ev.runId == id
    ensures OnWire(s.wire, KParmCnf) ==> OnWire(t.wire, KParmCnf)
  {
    hide Reachable;
    var u := EvGoes(s, World(None, s.evClock + s.ev.lastTime + PARM_CNF_MS + 1, id));
    t := EvGoes(u, World(None, u.evClock, id));
    OnWireGrows(s.wire, t.wire);
  }

  /** With `retries` time-outs behind it, a pair can get to the EV's last wait on two run ids. */
  lemma MixedRunIds(retries: nat) returns (t: Joint)
    requires 0 < retries < EV_MATCH_RETRY
    ensures Reachable(t) && t.ev.state == EvWaitMatchCnf && t.evse.state == EvseMatched
    ensures OnWire(t.wire, KMatchCnf) && t.ev.retryCount == retries && t.ev.runId != t.evse.runId
  {
    hide Reachable;
    var first: RunId := [0, 0, 0, 0, 0, 0, 0, 0];
    var second: RunId := [1, 0, 0, 0, 0, 0, 0, 0];
    assert first[0] != second[0];
    t := FirstContact(first);
    t := Retry(t, second);
    if retries == 2 {
      t := Retry(t, second);
    }
    t := Handshake(t, NO_NMK, NO_NID);
  }

  /** Both sides matched. */
  predicate BothMatched(s: Joint) {
    s.ev.state == EvMatched && s.evse.state == EvseMatched
  }

  /** Whatever run id the EV draws first and keys the EVSE draws, some run matches both sides on just those. */
  lemma HandshakeCompletes(id: RunId, nmk: Nmk, nid: Nid) returns (t: Joint)
    requires nid[6] % 4 == 0
    ensures Reachable(t) && BothMatched(t) && t.ev.retryCount == 0
    ensures t.ev.runId == id && t.evse.runId == id
    ensures t.ev.nmk == nmk && t.evse.nmk == nmk && t.ev.nid == nid && t.evse.nid == nid
  {
    hide Reachable;
    t := FirstContact(id);
    t := Handshake(t, nmk, nid);
    t := EvHears(t, KMatchCnf);
    ReachableInv(t);
  }

  /**
   * No frame's run id is checked. So a matched pair is bound to agree on the run id exactly
   * when the EV has never timed out: with one or two retries they can match on different ids.
   */
  lemma RunIdAgreementIff(retries: nat)
    requires retries < EV_MATCH_RETRY
    ensures (forall s: Joint :: Reachable(s) && BothMatched(s) && s.ev.retryCount == retries ==>
               s.ev.runId == s.evse.runId)
            <==> retries == 0
  {
    hide Reachable;
    if retries == 0 {
      forall s: Joint | Reachable(s) && BothMatched(s) && s.ev.retryCount == 0
        ensures s.ev.runId == s.evse.runId
      {
        ReachableInv(s);
      }
    } else {
      var t := MixedRunIds(retries);
      t := EvHears(t, KMatchCnf);
      assert Reachable(t) && BothMatched(t) && t.ev.retryCount == retries && t.ev.runId != t.evse.runId;
    }
  }

  /** Agreement is one-sided: the EVSE can end up matched with the EV failed. */
  lemma EvseMatchedAlone() returns (t: Joint)
    ensures Reachable(t) && t.evse.state == EvseMatched && t.ev.state == EvFailed
  {
    hide Reachable;
    var first: RunId := [0, 0, 0, 0, 0, 0, 0, 0];
    var s := FirstContact(first);
    s := Handshake(s, NO_NMK, NO_NID);
    t := EvGoes(s, World(None, s.evClock + s.ev.lastTime + MATCH_JOIN_MS + 1, first));
  }
}
