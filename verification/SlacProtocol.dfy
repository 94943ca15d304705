/**
 * One EV and one EVSE over a network that loses, delays, duplicates and reorders frames
 * but never forges them, and the invariants of every joint run.
 */
module SlacProtocol {
  import opened Bytes
  import opened SlacTypes
  import opened SlacSpec

  /** `wire` holds every frame ever sent; each side reads its own monotonic clock. */
  datatype Joint = Joint(ev: Ctx, evse: Ctx, wire: set<Frame>, evClock: nat, evseClock: nat)

  function Frames(sent: seq<Frame>): set<Frame> {
    set f | f in sent
  }

  /** Both sides have entered slac_run on a context fresh from slac_init. */
  ghost predicate Init(s: Joint) {
    && s.ev.isEv && s.ev.state == EvSendParmReq && s.ev.retryCount == 0
    && !s.evse.isEv && s.evse == Started(s.evse)
    && s.wire == {}
  }

  /** A receiver gets nothing, or any frame that was ever sent, any number of times. */
  predicate Delivered(recv: Option<Frame>, wire: set<Frame>) {
    recv.Some? ==> recv.value in wire
  }

  ghost predicate EvMoves(s: Joint, e: Env, t: Joint) {
    && Delivered(e.recv, s.wire) && s.evClock <= e.now
    && var r := EvStep(s.ev, e);
       t == s.(ev := r.ctx, wire := s.wire + Frames(r.sent), evClock := e.now)
  }

  ghost predicate EvseMoves(s: Joint, e: Env, t: Joint) {
    && Delivered(e.recv, s.wire) && s.evseClock <= e.now
    && var r := EvseStep(s.evse, e);
       t == s.(evse := r.ctx, wire := s.wire + Frames(r.sent), evseClock := e.now)
  }

  ghost predicate Next(s: Joint, t: Joint) {
    exists e: Env :: EvMoves(s, e, t) || EvseMoves(s, e, t)
  }

  ghost predicate Linked(tr: seq<Joint>, i: nat)
    requires i + 1 < |tr|
  {
    Next(tr[i], tr[i + 1])
  }

  /** A run: any finite interleaving of the two sides. */
  ghost predicate IsRun(tr: seq<Joint>) {
    |tr| > 0 && Init(tr[0]) && forall i: nat :: i + 1 < |tr| ==> Linked(tr, i)
  }

  ghost predicate Reachable(s: Joint) {
    exists tr: seq<Joint> :: IsRun(tr) && tr[|tr| - 1] == s
  }

  predicate HasRunId(f: Frame) {
    !f.ValidateReq? && !f.ValidateCnf?
  }

  predicate FromEv(f: Frame) {
    f.ParmReq? || f.StartAtten? || f.Sound? || f.AttenRsp? || f.ValidateReq? || f.MatchReq?
  }

  predicate Broadcast(f: Frame) {
    f.ParmReq? || f.StartAtten? || f.Sound?
  }

  predicate RoleInv(s: Joint) {
    && s.ev.isEv && EvState(s.ev.state) && s.ev.state != EvIdle
    && !s.evse.isEv && !EvState(s.evse.state) && s.evse.state != EvseIdle
  }

  /** A MATCH.CNF on the wire pins down the EVSE; a matched EV holds the EVSE's keys; no validation fails. */
  ghost predicate KeyInv(s: Joint) {
    && (forall f :: f in s.wire && f.MatchCnf? ==>
          s.evse.state == EvseMatched && f.nmk == s.evse.nmk && f.nid == s.evse.nid)
    && (forall f :: f in s.wire && f.ValidateCnf? ==> f.result == 0)
    && (s.evse.state == EvseMatched ==> s.evse.nid[6] % 4 == 0)
    && (s.ev.state == EvMatched ==>
          s.evse.state == EvseMatched && s.ev.nmk == s.evse.nmk && s.ev.nid == s.evse.nid)
  }

  /** Has the EV learnt the EVSE's address, hence sent its current run id for sure? */
  predicate EvLinked(s: SlacState) {
    s != EvSendParmReq && s != EvWaitParmCnf && s != EvFailed
  }

  /** Every frame carries its sender's address and, unless broadcast, its peer's. */
  ghost predicate AddressInv(s: Joint) {
    && (forall f :: f in s.wire ==> f.src == if FromEv(f) then s.ev.localMac else s.evse.localMac)
    && (forall f :: f in s.wire && !Broadcast(f) ==>
          f.dst == if FromEv(f) then s.evse.localMac else s.ev.localMac)
    && (EvLinked(s.ev.state) ==> s.ev.peer == s.evse.localMac)
    && (s.evse.state != EvseWaitParmReq ==> s.evse.peer == s.ev.localMac)
  }

  /** Every run id in use was broadcast in a PARM.REQ, and the EVSE uses only one. */
  ghost predicate RunIdInv(s: Joint) {
    && (forall f :: f in s.wire && f.ParmReq? ==> f.src == s.ev.localMac)
    && (forall f :: f in s.wire && HasRunId(f) ==> ParmReq(s.ev.localMac, f.runId) in s.wire)
    && (s.ev.state != EvSendParmReq && s.ev.state != EvFailed ==>
          ParmReq(s.ev.localMac, s.ev.runId) in s.wire)
    && (s.evse.state == EvseWaitParmReq ==> forall f :: f in s.wire ==> FromEv(f))
    && (s.evse.state != EvseWaitParmReq ==> ParmReq(s.ev.localMac, s.evse.runId) in s.wire)
    && (forall f :: f in s.wire && !FromEv(f) && HasRunId(f) ==> f.runId == s.evse.runId)
  }

  /** Until the EV's first time-out there is one run id in the system. */
  ghost predicate FirstAttemptInv(s: Joint) {
    s.ev.retryCount == 0 ==>
      && (s.ev.state == EvSendParmReq ==> s.wire == {})
      && (forall f :: f in s.wire && HasRunId(f) ==> f.runId == s.ev.runId)
  }

  ghost predicate Inv(s: Joint) {
    RoleInv(s) && KeyInv(s) && AddressInv(s) && RunIdInv(s) && FirstAttemptInv(s)
  }

  lemma InitInv(s: Joint)
    requires Init(s)
    ensures Inv(s)
  {
  }

  /** The shape of everything one EV step sends. */
  lemma EvSends(c: Ctx, e: Env)
    ensures var r := EvStep(c, e);
            forall f :: f in r.sent ==>
              && FromEv(f) && f.src == c.localMac
              && (HasRunId(f) ==> f.runId == r.ctx.runId)
              && (!Broadcast(f) ==> f.dst == c.peer)
              && (f.ParmReq? <==> c.state == EvSendParmReq)
              && (Broadcast(f) || EvLinked(c.state))
              && r.ctx.state != EvFailed && r.ctx.state != EvSendParmReq
  {
  }

  /** The shape of everything one EVSE step sends. */
  lemma EvseSends(c: Ctx, e: Env)
    ensures var r := EvseStep(c, e);
            forall f :: f in r.sent ==>
              && !FromEv(f) && f.src == c.localMac && f.dst == c.peer
              && (HasRunId(f) ==> f.runId == c.runId)
              && c.state != EvseWaitParmReq && c.state != EvseMatched
              && r.ctx.runId == c.runId
              && (f.ValidateCnf? ==> f.result == 0)
              && (f.MatchCnf? ==> r.ctx.state == EvseMatched && f.nmk == r.ctx.nmk && f.nid == r.ctx.nid)
  {
  }

  lemma EvKey(s: Joint, e: Env, t: Joint)
    requires RoleInv(s) && KeyInv(s) && EvMoves(s, e, t)
    ensures RoleInv(t) && KeyInv(t)
  {
    EvSends(s.ev, e);
  }

  lemma EvAddress(s: Joint, e: Env, t: Joint)
    requires RoleInv(s) && AddressInv(s) && EvMoves(s, e, t)
    ensures AddressInv(t)
  {
    EvSends(s.ev, e);
  }

  lemma EvRunId(s: Joint, e: Env, t: Joint)
    requires RoleInv(s) && RunIdInv(s) && EvMoves(s, e, t)
    ensures RunIdInv(t)
  {
    EvSends(s.ev, e);
    var sent := EvStep(s.ev, e).sent;
    if s.ev.state == EvSendParmReq && sent != [] {
      assert sent[0] == ParmReq(s.ev.localMac, t.ev.runId) && sent[0] in t.wire;
    } else {
      assert t.ev.runId == s.ev.runId || t.ev.state == EvFailed;
    }
  }

  lemma EvFirst(s: Joint, e: Env, t: Joint)
    requires RoleInv(s) && RunIdInv(s) && FirstAttemptInv(s) && EvMoves(s, e, t)
    ensures FirstAttemptInv(t)
  {
    EvSends(s.ev, e);
  }

  lemma EvseKey(s: Joint, e: Env, t: Joint)
    requires RoleInv(s) && KeyInv(s) && EvseMoves(s, e, t)
    ensures RoleInv(t) && KeyInv(t)
  {
    EvseSends(s.evse, e);
  }

  lemma EvseAddress(s: Joint, e: Env, t: Joint)
    requires RoleInv(s) && AddressInv(s) && EvseMoves(s, e, t)
    ensures AddressInv(t)
  {
    EvseSends(s.evse, e);
  }

  lemma EvseRunId(s: Joint, e: Env, t: Joint)
    requires RoleInv(s) && RunIdInv(s) && EvseMoves(s, e, t)
    ensures RunIdInv(t)
  {
    EvseSends(s.evse, e);
  }

  lemma EvseFirst(s: Joint, e: Env, t: Joint)
    requires RoleInv(s) && RunIdInv(s) && FirstAttemptInv(s) && EvseMoves(s, e, t)
    ensures FirstAttemptInv(t)
  {
    EvseSends(s.evse, e);
  }

  lemma NextPreserves(s: Joint, t: Joint)
    requires Inv(s) && Next(s, t)
    ensures Inv(t)
  {
    var e: Env :| EvMoves(s, e, t) || EvseMoves(s, e, t);
    if EvMoves(s, e, t) {
      EvKey(s, e, t);
      EvAddress(s, e, t);
      EvRunId(s, e, t);
      EvFirst(s, e, t);
    } else {
      EvseKey(s, e, t);
      EvseAddress(s, e, t);
      EvseRunId(s, e, t);
      EvseFirst(s, e, t);
    }
  }

  lemma {:induction false} RunInv(tr: seq<Joint>, i: nat)
    requires IsRun(tr) && i < |tr|
    ensures Inv(tr[i])
  {
    if i == 0 {
      InitInv(tr[0]);
    } else {
      RunInv(tr, i - 1);
      assert Linked(tr, i - 1);
      NextPreserves(tr[i - 1], tr[i]);
    }
  }
}
