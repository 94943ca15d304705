/** The SLAC state machines as the code runs them: one context, updated in place. */
module SlacContext {
  import opened Bytes
  import opened SlacTypes
  import Spec = SlacSpec
  import Termination = SlacTermination

  class Context {
    const isEv: bool
    const localMac: Mac
    const aag: array<Byte>
    var state: SlacState
    var peer: Mac
    var runId: RunId
    var nmk: Nmk
    var nid: Nid
    var soundCount: Byte
    var retryCount: nat
    var lastTime: nat

    ghost predicate Valid() {
      aag.Length == NUM_GROUPS
    }

    ghost function Value(): Ctx
      requires Valid()
      reads this, aag
    {
      Ctx(isEv, state, localMac, peer, runId, nmk, nid, aag[..], soundCount, retryCount, lastTime)
    }

    /** slac_init on an interface with address mac; the struct is zeroed. */
    constructor (isEv: bool, mac: Mac)
      ensures Valid() && fresh(aag)
      ensures Value() == Ctx(isEv, if isEv then EvIdle else EvseIdle, mac, [0, 0, 0, 0, 0, 0],
                             [0, 0, 0, 0, 0, 0, 0, 0], seq(16, _ => 0), [0, 0, 0, 0, 0, 0, 0],
                             seq(NUM_GROUPS, _ => 0), 0, 0, 0)
    {
      this.isEv := isEv;
      localMac := mac;
      aag := new Byte[NUM_GROUPS](_ => 0);
      state := if isEv then EvIdle else EvseIdle;
      peer := [0, 0, 0, 0, 0, 0];
      runId := [0, 0, 0, 0, 0, 0, 0, 0];
      nmk := seq(16, _ => 0);
      nid := [0, 0, 0, 0, 0, 0, 0];
      soundCount, retryCount, lastTime := 0, 0, 0;
    }

    /** The M-SOUND burst, stopping at the first send that fails. */
    method SendMnbcSounds(ok: nat) returns (sent: seq<Frame>)
      requires Valid()
      ensures sent == Spec.Sounds(Value(), NUM_SOUNDS, ok)
      ensures |sent| == if ok < 10 then ok else 10
      ensures forall k :: 0 <= k < |sent| ==> sent[k] == Sound(localMac, 9 - k, runId)
    {
      hide Spec.Sounds;
      sent := [];
      var i: int, left := NUM_SOUNDS - 1, ok;
      while i >= 0
        invariant -1 <= i < NUM_SOUNDS && 0 <= left
        invariant |sent| == NUM_SOUNDS - 1 - i && |sent| + left == ok
        invariant forall k :: 0 <= k < |sent| ==> sent[k] == Sound(localMac, NUM_SOUNDS - 1 - k, runId)
      {
        if left == 0 {
          return;
        }
        sent, left := sent + [Sound(localMac, i, runId)], left - 1;
        i := i - 1;
      }
    }

    /** memcpy into the accumulator array. */
    method StoreGroups(g: Groups)
      requires Valid()
      modifies aag
      ensures aag[..] == g
    {
      for i := 0 to NUM_GROUPS
        invariant aag[..i] == g[..i]
      {
        aag[i] := g[i];
      }
      assert aag[..] == aag[..NUM_GROUPS];
    }

    /** One simulated measurement, added to every group with 8-bit wrap-around. */
    method AddMeasurement(rands: Rands)
      requires Valid()
      modifies aag
      ensures aag[..] == Spec.Accumulate(old(aag[..]), rands)
    {
      for g := 0 to NUM_GROUPS
        invariant forall k :: 0 <= k < g ==> aag[k] == (old(aag[k]) + Spec.Sample(rands[k])) % 256
        invariant forall k :: g <= k < NUM_GROUPS ==> aag[k] == old(aag[k])
      {
        aag[g] := (aag[g] + Spec.Sample(rands[g])) % 256;
      }
    }

    /** The averaging loop of the ATTEN_CHAR.IND sender. */
    method AverageGroups() returns (avg: Groups)
      requires Valid()
      ensures avg == Spec.Averaged(aag[..], soundCount)
    {
      var out := new Byte[NUM_GROUPS](_ => 0);
      for g := 0 to NUM_GROUPS
        invariant forall k :: 0 <= k < g ==> out[k] == if soundCount > 0 then aag[k] / soundCount else 0
      {
        out[g] := if soundCount > 0 then aag[g] / soundCount else 0;
      }
      avg := out[..];
    }

    /** ev_step. */
    method EvStep(e: Env) returns (sent: seq<Frame>)
      requires Valid()
      modifies this, aag
      ensures Value() == Spec.EvStep(old(Value()), e).ctx && sent == Spec.EvStep(old(Value()), e).sent
    {
      sent := [];
      match state
      case EvSendParmReq =>
        runId := e.freshRunId;
        if e.sendOk == 0 {
          state := EvFailed;
        } else {
          sent := [ParmReq(localMac, runId)];
          state, lastTime := EvWaitParmCnf, e.now;
        }
      case EvWaitParmCnf =>
        if e.recv.Some? && e.recv.value.ParmCnf? {
          peer, state := e.recv.value.src, EvSendStartAtten;
        } else if e.now - lastTime > PARM_CNF_MS {
          retryCount := retryCount + 1;
          state := if retryCount >= EV_MATCH_RETRY then EvFailed else EvSendParmReq;
        }
      case EvSendStartAtten =>
        sent := Spec.Send(e, StartAtten(localMac, runId));
        state := EvSendMnbcSounds;
      case EvSendMnbcSounds =>
        sent := SendMnbcSounds(e.sendOk);
        state, lastTime := EvWaitAttenChar, e.now;
      case EvWaitAttenChar =>
        if e.recv.Some? && e.recv.value.AttenChar? {
          StoreGroups(e.recv.value.aag);
          state := EvSendAttenRsp;
        } else if e.now - lastTime > ATTEN_CHAR_MS {
          state := EvFailed;
        }
      case EvSendAttenRsp =>
        sent := Spec.Send(e, AttenRsp(localMac, peer, runId));
        state := EvSendValidate;
      case EvSendValidate =>
        sent := Spec.Send(e, ValidateReq(localMac, peer));
        state, lastTime := EvWaitValidateCnf, e.now;
      case EvWaitValidateCnf =>
        if e.recv.Some? && e.recv.value.ValidateCnf? {
          state := if e.recv.value.result == 0 then EvSendMatchReq else EvFailed;
        } else if e.now - lastTime > VALIDATE_CNF_MS {
          state := EvFailed;
        }
      case EvSendMatchReq =>
        sent := Spec.Send(e, MatchReq(localMac, peer, runId));
        state, lastTime := EvWaitMatchCnf, e.now;
      case EvWaitMatchCnf =>
        if e.recv.Some? && e.recv.value.MatchCnf? {
          nmk, nid := e.recv.value.nmk, e.recv.value.nid;
          state := EvMatched;
        } else if e.now - lastTime > MATCH_JOIN_MS {
          state := EvFailed;
        }
      case _ =>
    }

    /** The sound-collection case of evse_step. */
    method CollectSounds(e: Env)
      requires Valid() && state == EvseCollectSounds
      modifies this, aag
      ensures Value() == Spec.EvseStep(old(Value()), e).ctx
      ensures Spec.EvseStep(old(Value()), e).sent == []
    {
      if e.recv.Some? && e.recv.value.Sound? {
        AddMeasurement(e.rands);
        soundCount := (soundCount + 1) % 256;
        if soundCount >= NUM_SOUNDS {
          state := EvseSendAttenChar;
        }
      } else if e.now - lastTime > EVSE_MNBC_MS {
        state := if soundCount > 0 then EvseSendAttenChar else EvseFailed;
      }
    }

    /** evse_step. */
    method EvseStep(e: Env) returns (sent: seq<Frame>)
      requires Valid()
      modifies this, aag
      ensures Value() == Spec.EvseStep(old(Value()), e).ctx && sent == Spec.EvseStep(old(Value()), e).sent
    {
      sent := [];
      match state
      case EvseWaitParmReq =>
        if e.recv.Some? && e.recv.value.ParmReq? {
          peer, runId := e.recv.value.src, e.recv.value.runId;
          state := EvseSendParmCnf;
        }
      case EvseSendParmCnf =>
        sent := Spec.Send(e, ParmCnf(localMac, peer, runId));
        state, lastTime := EvseWaitStartAtten, e.now;
      case EvseWaitStartAtten =>
        if e.recv.Some? && e.recv.value.StartAtten? {
          state, soundCount, lastTime := EvseCollectSounds, 0, e.now;
        } else if e.now - lastTime > START_ATTEN_MS {
          state := EvseFailed;
        }
      case EvseCollectSounds =>
        CollectSounds(e);
      case EvseSendAttenChar =>
        var avg := AverageGroups();
        sent := Spec.Send(e, AttenChar(localMac, peer, runId, soundCount, avg));
        state, lastTime := EvseWaitAttenRsp, e.now;
      case EvseWaitAttenRsp =>
        if e.recv.Some? && e.recv.value.AttenRsp? {
          state, lastTime := EvseWaitValidateReq, e.now;
        } else if e.now - lastTime > ATTEN_RSP_MS {
          state := EvseFailed;
        }
      case EvseWaitValidateReq =>
        if e.recv.Some? && e.recv.value.ValidateReq? {
          state := EvseSendValidateCnf;
        } else if e.now - lastTime > VALIDATE_REQ_MS {
          state := EvseFailed;
        }
      case EvseSendValidateCnf =>
        sent := Spec.Send(e, ValidateCnf(localMac, peer, 0));
        state, lastTime := EvseWaitMatchReq, e.now;
      case EvseWaitMatchReq =>
        if e.recv.Some? && e.recv.value.MatchReq? {
          state := EvseSendMatchCnf;
        } else if e.now - lastTime > MATCH_JOIN_MS {
          state := EvseFailed;
        }
      case EvseSendMatchCnf =>
        nmk, nid := e.freshNmk, Spec.ClearLowBits(e.freshNid);
        sent := Spec.Send(e, MatchCnf(localMac, peer, runId, nmk, nid));
        state := EvseMatched;
      case _ =>
    }

    /** slac_step: 1 when matched, -1 when failed, 0 while in progress. */
    method Step(e: Env) returns (rc: int, sent: seq<Frame>)
      requires Valid()
      modifies this, aag
      ensures Value() == Spec.Step(old(Value()), e).ctx && sent == Spec.Step(old(Value()), e).sent
      ensures Final(old(state)) ==> Value() == old(Value()) && sent == []
      ensures isEv && state == EvMatched && old(state) != EvMatched ==>
                e.recv.Some? && e.recv.value.MatchCnf? && nmk == e.recv.value.nmk && nid == e.recv.value.nid
      ensures !isEv && state == EvseMatched && old(state) != EvseMatched ==>
                nmk == e.freshNmk && nid[..6] == e.freshNid[..6] && nid[6] + e.freshNid[6] % 4 == e.freshNid[6]
                && nid[6] % 4 == 0 && sent == Spec.Send(e, MatchCnf(localMac, peer, runId, nmk, nid))
      ensures rc == 0 <==> !Final(state)
      ensures rc == 1 <==> state == EvMatched || state == EvseMatched
      ensures rc == -1 <==> state == EvFailed || state == EvseFailed
    {
      hide Spec.EvStep, Spec.EvseStep;
      ghost var c := Value();
      if Final(state) {
        Spec.FinalStays(c, e);
      }
      if isEv {
        sent := EvStep(e);
        if state == EvMatched && c.state != EvMatched {
          Spec.EvMatchingStep(c, e);
        }
      } else {
        sent := EvseStep(e);
        if state == EvseMatched && c.state != EvseMatched {
          Spec.EvseMatchingStep(c, e);
        }
      }
      rc := if state == EvMatched || state == EvseMatched then 1
            else if state == EvFailed || state == EvseFailed then -1 else 0;
    }

    /** The entry of slac_run. */
    method Start()
      requires Valid()
      modifies this, aag
      ensures Value() == Spec.Started(old(Value()))
      ensures isEv ==> Value() == old(Value()).(state := EvSendParmReq)
      ensures !isEv ==> Value() == old(Value()).(state := EvseWaitParmReq, soundCount := 0, aag := seq(58, _ => 0))
    {
      if isEv {
        state := EvSendParmReq;
      } else {
        state, soundCount := EvseWaitParmReq, 0;
        StoreGroups(seq(NUM_GROUPS, _ => 0));
      }
    }

    method StepAlong(env: nat -> Env, ghost tr: nat -> Ctx, i: nat)
      requires Valid() && Value() == tr(i) && Termination.Trajectory(tr, env)
      modifies this, aag
      ensures Value() == tr(i + 1)
    {
      var _, _ := Step(env(i));
      assert Termination.StepsAt(tr, env, i);
    }

    /** The loop of slac_run, along the run tr that it follows to its first final context. */
    method Loop(env: nat -> Env, ghost tr: nat -> Ctx, ghost last: nat) returns (ghost n: nat)
      requires Valid() && Value() == tr(0)
      requires Termination.Trajectory(tr, env) && Final(tr(last).state)
      modifies this, aag
      ensures Value() == tr(n) && Final(state)
      ensures forall k: nat :: k < n ==> !Final(tr(k).state)
    {
      var i: nat := 0;
      while !Final(state)
        invariant Value() == tr(i) && i <= last
        invariant forall k: nat :: k < i ==> !Final(tr(k).state)
        decreases last - i
      {
        StepAlong(env, tr, i);
        i := i + 1;
      }
      n := i;
    }

    /**
     * slac_run: step until a final state. The result is the first final context of the run
     * from the started one; an EVSE returns only if some PARM.REQ ever reaches it.
     */
    method Run(env: nat -> Env, ghost start: nat) returns (rc: int, ghost n: nat)
      requires Valid()
      requires Termination.Monotonic(env, start) && Termination.Ticking(env)
      requires !isEv ==> Termination.ParmReqArrives(env)
      modifies this, aag
      ensures Value() == Spec.After(Spec.Started(old(Value())), env, n)
      ensures Final(state)
      ensures forall k: nat :: k < n ==> !Final(Spec.After(Spec.Started(old(Value())), env, k).state)
      ensures rc == if state == EvMatched || state == EvseMatched then 0 else -1
    {
      ghost var tr, last := Termination.FirstEnd(Value(), env, start);
      Start();
      n := Loop(env, tr, last);
      rc := if state == EvMatched || state == EvseMatched then 0 else -1;
    }
  }
}
