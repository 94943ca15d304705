/** When a matched EVSE has a matched EV: what the EV is doing by then, and what it takes. */
module SlacMatching {
  import opened Bytes
  import opened SlacTypes
  import opened SlacSpec
  import opened SlacProtocol
  import opened SlacCausality
  import opened SlacTermination

  lemma MatchReqLeads(c: Ctx, e: Env)
    requires c.state == EvSendMatchReq
    ensures EvStep(c, e).ctx.state == EvWaitMatchCnf
  {
  }

  /** A sent MATCH.REQ leaves the EV waiting for the answer. */
  lemma MatchReqStep(tr: seq<Joint>, j: nat, f: Frame)
    requires IsRun(tr) && SentAt(tr, j, f) && f.MatchReq?
    ensures tr[j + 1].ev.state == EvWaitMatchCnf
  {
    hide EvStep, EvseStep;
    assert Linked(tr, j);
    var e: Env :| EvMoves(tr[j], e, tr[j + 1]) || EvseMoves(tr[j], e, tr[j + 1]);
    SendsInSendState(tr[j].evse, e);
    MatchReqLeads(tr[j].ev, e);
  }

  /** A matched EVSE has an EV that waits for MATCH.CNF, or did so and is matched or failed. */
  lemma EvseMatchedEvWaits(tr: seq<Joint>, i: nat)
    requires IsRun(tr) && i < |tr| && tr[i].evse.state == EvseMatched
    ensures tr[i].ev.state in {EvWaitMatchCnf, EvMatched, EvFailed}
  {
    RunPhase(tr, i);
    RunInv(tr, i);
    var j := KindProvenance(tr, i, KMatchReq);
    var f :| KindOf(f) == KMatchReq && SentAt(tr, j, f);
    MatchReqStep(tr, j, f);
    EvRankMonotone(tr, j + 1, i);
  }

  predicate IsMatchCnf(recv: Option<Frame>) {
    recv.Some? && recv.value.MatchCnf?
  }

  /** No step after k and before n reads the clock more than 12 s after step k did. */
  ghost predicate InTime(env: nat -> Env, k: nat, n: nat) {
    forall m: nat :: k < m < n ==> env(m).now <= env(k).now + 12000
  }

  /** Step n brings a MATCH.CNF, and no step between k and n ran out of time. */
  ghost predicate ConfirmedAt(env: nat -> Env, k: nat, n: nat) {
    k < n && IsMatchCnf(env(n).recv) && InTime(env, k, n)
  }

  ghost predicate MatchedAt(tr: nat -> Ctx, k: nat, n: nat) {
    k < n && tr(n).state == EvMatched
  }

  lemma WaitStep(c: Ctx, e: Env)
    requires c.isEv && c.state == EvWaitMatchCnf
    ensures var d := Step(c, e).ctx;
            && d.isEv && d.lastTime == c.lastTime
            && d.state == if IsMatchCnf(e.recv) then EvMatched
                          else if e.now <= c.lastTime + 12000 then EvWaitMatchCnf else EvFailed
  {
  }

  lemma SendStep(c: Ctx, e: Env)
    requires c.isEv && c.state == EvSendMatchReq
    ensures var d := Step(c, e).ctx; d.isEv && d.state == EvWaitMatchCnf && d.lastTime == e.now
  {
  }

  /** Where the EV stands after step n - 1, if step k sent the MATCH.REQ. */
  lemma {:induction false} InLastWait(tr: nat -> Ctx, env: nat -> Env, k: nat, n: nat)
    requires Trajectory(tr, env) && tr(k).isEv && tr(k).state == EvSendMatchReq && k < n
    ensures tr(n).isEv && tr(n).state in {EvWaitMatchCnf, EvMatched, EvFailed}
    ensures tr(n).state == EvWaitMatchCnf ==> tr(n).lastTime == env(k).now && InTime(env, k, n)
    ensures tr(n).state == EvMatched ==> exists j: nat :: ConfirmedAt(env, k, j)
    ensures tr(n).state == EvFailed ==> forall j: nat :: j >= n ==> !InTime(env, k, j)
    ensures tr(n).state != EvMatched ==> forall j: nat :: j < n ==> !ConfirmedAt(env, k, j)
    decreases n - k
  {
    hide Step;
    var m := n - 1;
    assert StepsAt(tr, env, m);
    if m == k {
      SendStep(tr(k), env(k));
    } else {
      InLastWait(tr, env, k, m);
      StepLeaves(tr(m), env(m));
      if tr(m).state == EvWaitMatchCnf {
        WaitStep(tr(m), env(m));
        if tr(n).state == EvMatched {
          assert ConfirmedAt(env, k, m);
        }
      }
    }
  }

  /**
   * The EV matches if and only if some step after the one that sends the MATCH.REQ receives a
   * MATCH.CNF, and every step between the two reads the clock within 12 s of the sending.
   */
  lemma EvMatchesIff(tr: nat -> Ctx, env: nat -> Env, k: nat)
    requires Trajectory(tr, env) && tr(k).isEv && tr(k).state == EvSendMatchReq
    ensures (exists n: nat :: MatchedAt(tr, k, n)) <==> (exists n: nat :: ConfirmedAt(env, k, n))
  {
    if n: nat :| MatchedAt(tr, k, n) {
      InLastWait(tr, env, k, n);
    }
    if n: nat :| ConfirmedAt(env, k, n) {
      InLastWait(tr, env, k, n + 1);
      assert MatchedAt(tr, k, n + 1);
    }
  }

  /** For 12 s from sending the MATCH.REQ the EV is waiting or matched. */
  lemma EvPatience(tr: nat -> Ctx, env: nat -> Env, k: nat, n: nat)
    requires Trajectory(tr, env) && tr(k).isEv && tr(k).state == EvSendMatchReq && k < n && InTime(env, k, n)
    ensures tr(n).state == EvWaitMatchCnf || tr(n).state == EvMatched
  {
    InLastWait(tr, env, k, n);
  }
}
