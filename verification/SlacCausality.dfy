/** What a phase reached by one side says about what the other side did before. */
module SlacCausality {
  import opened Bytes
  import opened SlacTypes
  import opened SlacSpec
  import opened SlacProtocol

  datatype Kind =
    | KParmReq | KParmCnf | KStartAtten | KSound | KAttenChar
    | KAttenRsp | KValidateReq | KValidateCnf | KMatchReq | KMatchCnf

  function KindOf(f: Frame): Kind {
    match f
    case ParmReq(_, _) => KParmReq
    case ParmCnf(_, _, _) => KParmCnf
    case StartAtten(_, _) => KStartAtten
    case Sound(_, _, _) => KSound
    case AttenChar(_, _, _, _, _) => KAttenChar
    case AttenRsp(_, _, _) => KAttenRsp
    case ValidateReq(_, _) => KValidateReq
    case ValidateCnf(_, _, _) => KValidateCnf
    case MatchReq(_, _, _) => KMatchReq
    case MatchCnf(_, _, _, _, _) => KMatchCnf
  }

  /** The state its sender must be in to send a frame of this kind. */
  function SendState(k: Kind): SlacState {
    match k
    case KParmReq => EvSendParmReq
    case KParmCnf => EvseSendParmCnf
    case KStartAtten => EvSendStartAtten
    case KSound => EvSendMnbcSounds
    case KAttenChar => EvseSendAttenChar
    case KAttenRsp => EvSendAttenRsp
    case KValidateReq => EvSendValidate
    case KValidateCnf => EvseSendValidateCnf
    case KMatchReq => EvSendMatchReq
    case KMatchCnf => EvseSendMatchCnf
  }

  ghost predicate OnWire(wire: set<Frame>, k: Kind) {
    exists f :: f in wire && KindOf(f) == k
  }

  /** How far a non-failed side has come; FAILED and IDLE rank lowest. */
  function Rank(s: SlacState): nat {
    match s
    case EvSendParmReq | EvseWaitParmReq => 1
    case EvWaitParmCnf | EvseSendParmCnf => 2
    case EvSendStartAtten | EvseWaitStartAtten => 3
    case EvSendMnbcSounds | EvseCollectSounds => 4
    case EvWaitAttenChar | EvseSendAttenChar => 5
    case EvSendAttenRsp | EvseWaitAttenRsp => 6
    case EvSendValidate | EvseWaitValidateReq => 7
    case EvWaitValidateCnf | EvseSendValidateCnf => 8
    case EvSendMatchReq | EvseWaitMatchReq => 9
    case EvWaitMatchCnf | EvseSendMatchCnf => 10
    case EvMatched | EvseMatched => 11
    case _ => 0
  }

  /** Must a frame of kind k have been sent before the EV can be in state s? */
  predicate EvNeeds(s: SlacState, k: Kind) {
    match k
    case KParmCnf => Rank(s) >= 3
    case KAttenChar => Rank(s) >= 6
    case KValidateCnf => Rank(s) >= 9
    case KMatchCnf => Rank(s) >= 11
    case _ => false
  }

  /** Must a frame of kind k have been sent before the EVSE can be in context c? */
  predicate EvseNeeds(c: Ctx, k: Kind) {
    match k
    case KParmReq => Rank(c.state) >= 2
    case KStartAtten => Rank(c.state) >= 4
    case KSound => Rank(c.state) >= 5 || (Rank(c.state) == 4 && c.soundCount > 0)
    case KAttenRsp => Rank(c.state) >= 7
    case KValidateReq => Rank(c.state) >= 8
    case KMatchReq => Rank(c.state) >= 10
    case _ => false
  }

  ghost predicate PhaseInv(s: Joint) {
    && (forall k :: EvNeeds(s.ev.state, k) ==> OnWire(s.wire, k))
    && (forall k :: EvseNeeds(s.evse, k) ==> OnWire(s.wire, k))
  }

  lemma OnWireGrows(w: set<Frame>, v: set<Frame>)
    requires w <= v
    ensures forall k :: OnWire(w, k) ==> OnWire(v, k)
  {
    forall k | OnWire(w, k)
      ensures OnWire(v, k)
    {
      var f :| f in w && KindOf(f) == k;
      assert f in v;
    }
  }

  /** A step enters a state that needs a new kind only by receiving a frame of that kind. */
  lemma EvReceives(c: Ctx, e: Env)
    requires EvState(c.state)
    ensures forall k :: EvNeeds(EvStep(c, e).ctx.state, k) && !EvNeeds(c.state, k) ==>
                          e.recv.Some? && KindOf(e.recv.value) == k
  {
  }

  lemma EvseReceives(c: Ctx, e: Env)
    requires !EvState(c.state)
    ensures forall k :: EvseNeeds(EvseStep(c, e).ctx, k) && !EvseNeeds(c, k) ==>
                          e.recv.Some? && KindOf(e.recv.value) == k
  {
  }

  lemma EvPhaseStep(s: Joint, e: Env, t: Joint)
    requires RoleInv(s) && PhaseInv(s) && EvMoves(s, e, t)
    ensures PhaseInv(t)
  {
    OnWireGrows(s.wire, t.wire);
    EvReceives(s.ev, e);
  }

  lemma EvsePhaseStep(s: Joint, e: Env, t: Joint)
    requires RoleInv(s) && PhaseInv(s) && EvseMoves(s, e, t)
    ensures PhaseInv(t)
  {
    OnWireGrows(s.wire, t.wire);
    EvseReceives(s.evse, e);
  }

  lemma {:induction false} RunPhase(tr: seq<Joint>, i: nat)
    requires IsRun(tr) && i < |tr|
    ensures PhaseInv(tr[i])
  {
    if i > 0 {
      RunPhase(tr, i - 1);
      RunInv(tr, i - 1);
      var s, t := tr[i - 1], tr[i];
      assert Linked(tr, i - 1);
      var e: Env :| EvMoves(s, e, t) || EvseMoves(s, e, t);
      if EvMoves(s, e, t) {
        EvPhaseStep(s, e, t);
      } else {
        EvsePhaseStep(s, e, t);
      }
    }
  }

  /** Step j of the run is the sender of f, in its sending state, putting f on the wire. */
  ghost predicate SentAt(tr: seq<Joint>, j: nat, f: Frame) {
    && j + 1 < |tr| && f !in tr[j].wire && f in tr[j + 1].wire
    && (if FromEv(f) then tr[j].ev.state else tr[j].evse.state) == SendState(KindOf(f))
  }

  lemma SendsInSendState(c: Ctx, e: Env)
    ensures forall f :: f in EvStep(c, e).sent ==> FromEv(f) && c.state == SendState(KindOf(f))
    ensures forall f :: f in EvseStep(c, e).sent ==> !FromEv(f) && c.state == SendState(KindOf(f))
  {
  }

  /** No forgery: whatever is on the wire was put there by its sender at some earlier step. */
  lemma {:induction false} Provenance(tr: seq<Joint>, i: nat, f: Frame) returns (j: nat)
    requires IsRun(tr) && i < |tr| && f in tr[i].wire
    ensures j < i && SentAt(tr, j, f)
  {
    if i > 0 && f in tr[i - 1].wire {
      j := Provenance(tr, i - 1, f);
    } else {
      j := i - 1;
      assert Linked(tr, j);
      var e: Env :| EvMoves(tr[j], e, tr[i]) || EvseMoves(tr[j], e, tr[i]);
      SendsInSendState(tr[j].ev, e);
      SendsInSendState(tr[j].evse, e);
    }
  }

  /** Somebody sent a frame of kind k at step j of the run. */
  ghost predicate KindSentAt(tr: seq<Joint>, j: nat, k: Kind) {
    exists f :: KindOf(f) == k && SentAt(tr, j, f)
  }

  ghost predicate Before(tr: seq<Joint>, i: nat, k: Kind) {
    exists j: nat :: j < i && KindSentAt(tr, j, k)
  }

  lemma KindProvenance(tr: seq<Joint>, i: nat, k: Kind) returns (j: nat)
    requires IsRun(tr) && i < |tr| && OnWire(tr[i].wire, k)
    ensures j < i && KindSentAt(tr, j, k)
  {
    var f :| f in tr[i].wire && KindOf(f) == k;
    j := Provenance(tr, i, f);
  }

  /**
   * Phase causality: whatever phase the EV is seen in at step i, the EVSE had by then sent
   * the frames that phase depends on, each from its own sending state. Nothing is assumed
   * about where either side goes afterwards.
   */
  lemma EvPhaseCausality(tr: seq<Joint>, i: nat, k: Kind)
    requires IsRun(tr) && i < |tr| && EvNeeds(tr[i].ev.state, k)
    ensures Before(tr, i, k)
  {
    RunPhase(tr, i);
    var j := KindProvenance(tr, i, k);
  }

  /** The converse: what the EV had sent, seen from the EVSE's phase. */
  lemma EvsePhaseCausality(tr: seq<Joint>, i: nat, k: Kind)
    requires IsRun(tr) && i < |tr| && EvseNeeds(tr[i].evse, k)
    ensures Before(tr, i, k)
  {
    RunPhase(tr, i);
    var j := KindProvenance(tr, i, k);
  }

  /** Once past the retry loop one EV step never lowers the phase, short of failing. */
  lemma EvRankStep(c: Ctx, e: Env)
    requires Rank(c.state) >= 3 || c.state == EvFailed
    ensures var d := EvStep(c, e).ctx; d.state == EvFailed || Rank(d.state) >= Rank(c.state)
  {
  }

  lemma {:induction false} EvRankMonotone(tr: seq<Joint>, i: nat, j: nat)
    requires IsRun(tr) && i <= j < |tr|
    requires Rank(tr[i].ev.state) >= 3
    ensures tr[j].ev.state == EvFailed || Rank(tr[j].ev.state) >= Rank(tr[i].ev.state)
    decreases j - i
  {
    if i < j {
      EvRankMonotone(tr, i, j - 1);
      assert Linked(tr, j - 1);
      var e: Env :| EvMoves(tr[j - 1], e, tr[j]) || EvseMoves(tr[j - 1], e, tr[j]);
      EvRankStep(tr[j - 1].ev, e);
    }
  }

  lemma EvSendOrder(tr: seq<Joint>, i: nat, j: nat, k: Kind, l: Kind)
    requires IsRun(tr) && KindSentAt(tr, i, k) && KindSentAt(tr, j, l)
    requires (k == KStartAtten && l == KSound) || (k == KAttenRsp && l == KValidateReq)
    ensures i < j
  {
    if j <= i {
      EvRankMonotone(tr, j, i);
    }
  }

  /** Sending k takes its sender to have received an l. */
  predicate Needs(k: Kind, l: Kind) {
    match k
    case KParmCnf => l == KParmReq
    case KStartAtten => l == KParmCnf
    case KAttenChar => l == KSound || l == KStartAtten
    case KAttenRsp => l == KAttenChar
    case KValidateCnf => l == KValidateReq || l == KAttenRsp
    case KMatchReq => l == KValidateCnf
    case KMatchCnf => l == KMatchReq
    case _ => false
  }

  lemma Cause(tr: seq<Joint>, i: nat, k: Kind, l: Kind) returns (j: nat)
    requires IsRun(tr) && KindSentAt(tr, i, k) && Needs(k, l)
    ensures j < i && KindSentAt(tr, j, l)
  {
    RunPhase(tr, i);
    j := KindProvenance(tr, i, l);
  }

  lemma UpToAttenRsp(tr: seq<Joint>, i: nat) returns (a0: nat, a1: nat, a2: nat, a3: nat, a4: nat)
    requires IsRun(tr) && KindSentAt(tr, i, KAttenRsp)
    ensures a0 < a1 < a2 < a3 < a4 < i
    ensures KindSentAt(tr, a0, KParmReq) && KindSentAt(tr, a1, KParmCnf) && KindSentAt(tr, a2, KStartAtten)
    ensures KindSentAt(tr, a3, KSound) && KindSentAt(tr, a4, KAttenChar)
  {
    a4 := Cause(tr, i, KAttenRsp, KAttenChar);
    a3 := Cause(tr, a4, KAttenChar, KSound);
    a2 := Cause(tr, a4, KAttenChar, KStartAtten);
    EvSendOrder(tr, a2, a3, KStartAtten, KSound);
    a1 := Cause(tr, a2, KStartAtten, KParmCnf);
    a0 := Cause(tr, a1, KParmCnf, KParmReq);
  }

  lemma FromAttenRsp(tr: seq<Joint>, i: nat) returns (a5: nat, a6: nat, a7: nat, a8: nat)
    requires IsRun(tr) && KindSentAt(tr, i, KMatchCnf)
    ensures a5 < a6 < a7 < a8 < i
    ensures KindSentAt(tr, a5, KAttenRsp) && KindSentAt(tr, a6, KValidateReq)
    ensures KindSentAt(tr, a7, KValidateCnf) && KindSentAt(tr, a8, KMatchReq)
  {
    a8 := Cause(tr, i, KMatchCnf, KMatchReq);
    a7 := Cause(tr, a8, KMatchReq, KValidateCnf);
    a6 := Cause(tr, a7, KValidateCnf, KValidateReq);
    a5 := Cause(tr, a7, KValidateCnf, KAttenRsp);
    EvSendOrder(tr, a5, a6, KAttenRsp, KValidateReq);
  }

  /**
   * A matched EV has behind it one complete handshake: the network may replay and reorder
   * frames at will, yet no message of the sequence can have been skipped or overtaken.
   */
  lemma MatchedMeansFullHandshake(tr: seq<Joint>, i: nat)
    returns (a0: nat, a1: nat, a2: nat, a3: nat, a4: nat, a5: nat, a6: nat, a7: nat, a8: nat, a9: nat)
    requires IsRun(tr) && i < |tr| && tr[i].ev.state == EvMatched
    ensures a0 < a1 < a2 < a3 < a4 < a5 < a6 < a7 < a8 < a9 < i
    ensures KindSentAt(tr, a0, KParmReq) && KindSentAt(tr, a1, KParmCnf) && KindSentAt(tr, a2, KStartAtten)
    ensures KindSentAt(tr, a3, KSound) && KindSentAt(tr, a4, KAttenChar) && KindSentAt(tr, a5, KAttenRsp)
    ensures KindSentAt(tr, a6, KValidateReq) && KindSentAt(tr, a7, KValidateCnf)
    ensures KindSentAt(tr, a8, KMatchReq) && KindSentAt(tr, a9, KMatchCnf)
  {
    RunPhase(tr, i);
    a9 := KindProvenance(tr, i, KMatchCnf);
    a5, a6, a7, a8 := FromAttenRsp(tr, a9);
    a0, a1, a2, a3, a4 := UpToAttenRsp(tr, a5);
  }

  /** The headline safety property: a matched EV and its EVSE hold the same key. */
  lemma KeyAgreement(tr: seq<Joint>, i: nat)
    requires IsRun(tr) && i < |tr| && tr[i].ev.state == EvMatched
    ensures tr[i].evse.state == EvseMatched
    ensures tr[i].ev.nmk == tr[i].evse.nmk && tr[i].ev.nid == tr[i].evse.nid
    ensures tr[i].ev.nid[6] % 4 == 0
  {
    RunInv(tr, i);
  }

  /** The EVSE's run id, and every run id on the wire, was broadcast in an earlier PARM.REQ. */
  lemma RunIdProvenance(tr: seq<Joint>, i: nat, id: RunId)
    requires IsRun(tr) && i < |tr|
    requires
      || (tr[i].evse.state != EvseWaitParmReq && id == tr[i].evse.runId)
      || (exists f :: f in tr[i].wire && HasRunId(f) && f.runId == id)
    ensures exists j: nat :: j < i && SentAt(tr, j, ParmReq(tr[i].ev.localMac, id))
  {
    RunInv(tr, i);
    assert ParmReq(tr[i].ev.localMac, id) in tr[i].wire;
    var j := Provenance(tr, i, ParmReq(tr[i].ev.localMac, id));
  }

  /** If the EV never timed out, both sides and all frames agree on a single run id. */
  lemma OneRunIdWithoutTimeout(tr: seq<Joint>, i: nat)
    requires IsRun(tr) && i < |tr| && tr[i].ev.retryCount == 0
    ensures tr[i].evse.state != EvseWaitParmReq ==> tr[i].evse.runId == tr[i].ev.runId
    ensures forall f :: f in tr[i].wire && HasRunId(f) ==> f.runId == tr[i].ev.runId
  {
    RunInv(tr, i);
  }
}
