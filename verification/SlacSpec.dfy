/** What one call of ev_step and of evse_step does, as functions of the context. */
module SlacSpec {
  import opened Bytes
  import opened SlacTypes

  /** send_frame for a single frame whose failure the caller ignores. */
  function Send(e: Env, f: Frame): seq<Frame> {
    if e.sendOk > 0 then [f] else []
  }

  /** The burst of M-SOUNDs counting down from i - 1, cut at the first failing send. */
  function Sounds(c: Ctx, i: Byte, ok: nat): (s: seq<Frame>)
    ensures |s| == if i <= ok then i else ok
    ensures forall k :: 0 <= k < |s| ==> s[k] == Sound(c.localMac, i - 1 - k, c.runId)
  {
    if i == 0 || ok == 0 then [] else [Sound(c.localMac, i - 1, c.runId)] + Sounds(c, i - 1, ok - 1)
  }

  predicate TimedOut(c: Ctx, e: Env, limit: nat) {
    e.now - c.lastTime > limit
  }

  /** A wait that accepted nothing: keep waiting, or move to `failed` past the deadline. */
  function GiveUp(c: Ctx, e: Env, limit: nat, failed: SlacState): Stepped {
    Stepped(if TimedOut(c, e, limit) then c.(state := failed) else c, [])
  }

  function EvStep(c: Ctx, e: Env): Stepped {
    match c.state
    case EvSendParmReq =>
      var c1 := c.(runId := e.freshRunId);
      if e.sendOk == 0 then Stepped(c1.(state := EvFailed), [])
      else Stepped(c1.(state := EvWaitParmCnf, lastTime := e.now), [ParmReq(c.localMac, e.freshRunId)])
    case EvWaitParmCnf =>
      if e.recv.Some? && e.recv.value.ParmCnf? then
        Stepped(c.(peer := e.recv.value.src, state := EvSendStartAtten), [])
      else if TimedOut(c, e, PARM_CNF_MS) then
        Stepped(c.(retryCount := c.retryCount + 1,
                   state := if c.retryCount + 1 >= EV_MATCH_RETRY then EvFailed else EvSendParmReq), [])
      else Stepped(c, [])
    case EvSendStartAtten =>
      Stepped(c.(state := EvSendMnbcSounds), Send(e, StartAtten(c.localMac, c.runId)))
    case EvSendMnbcSounds =>
      Stepped(c.(state := EvWaitAttenChar, lastTime := e.now), Sounds(c, NUM_SOUNDS, e.sendOk))
    case EvWaitAttenChar =>
      if e.recv.Some? && e.recv.value.AttenChar? then
        Stepped(c.(aag := e.recv.value.aag, state := EvSendAttenRsp), [])
      else GiveUp(c, e, ATTEN_CHAR_MS, EvFailed)
    case EvSendAttenRsp =>
      Stepped(c.(state := EvSendValidate), Send(e, AttenRsp(c.localMac, c.peer, c.runId)))
    case EvSendValidate =>
      Stepped(c.(state := EvWaitValidateCnf, lastTime := e.now), Send(e, ValidateReq(c.localMac, c.peer)))
    case EvWaitValidateCnf =>
      if e.recv.Some? && e.recv.value.ValidateCnf? then
        Stepped(c.(state := if e.recv.value.result == 0 then EvSendMatchReq else EvFailed), [])
      else GiveUp(c, e, VALIDATE_CNF_MS, EvFailed)
    case EvSendMatchReq =>
      Stepped(c.(state := EvWaitMatchCnf, lastTime := e.now), Send(e, MatchReq(c.localMac, c.peer, c.runId)))
    case EvWaitMatchCnf =>
      if e.recv.Some? && e.recv.value.MatchCnf? then
        Stepped(c.(nmk := e.recv.value.nmk, nid := e.recv.value.nid, state := EvMatched), [])
      else GiveUp(c, e, MATCH_JOIN_MS, EvFailed)
    case _ => Stepped(c, [])
  }

  /** A simulated attenuation measurement: 20 + rand() % 20. */
  function Sample(r: nat): (b: Byte)
    ensures 20 <= b <= 39
  {
    20 + r % 20
  }

  /** Over successive draws the measurement runs through 20..39 in a circle. */
  lemma SampleCycle(r: nat)
    ensures Sample(0) == 20 && Sample(r + 1) == if Sample(r) == 39 then 20 else Sample(r) + 1
  {
  }

  /** Adding one measurement to every group; the accumulators are 8 bits wide. */
  function Accumulate(aag: Groups, rands: Rands): Groups {
    seq(NUM_GROUPS, g requires 0 <= g < NUM_GROUPS => (aag[g] + Sample(rands[g])) % 256)
  }

  /** What CM_ATTEN_CHAR.IND reports: each accumulator divided by the number of sounds. */
  function Averaged(aag: Groups, count: Byte): Groups {
    seq(NUM_GROUPS, g requires 0 <= g < NUM_GROUPS => if count > 0 then aag[g] / count else 0)
  }

  /** nid[6] &= 0xFC. */
  function ClearLowBits(nid: Nid): Nid {
    nid[6 := nid[6] - nid[6] % 4]
  }

  function EvseStep(c: Ctx, e: Env): Stepped {
    match c.state
    case EvseWaitParmReq =>
      if e.recv.Some? && e.recv.value.ParmReq? then
        Stepped(c.(peer := e.recv.value.src, runId := e.recv.value.runId, state := EvseSendParmCnf), [])
      else Stepped(c, [])
    case EvseSendParmCnf =>
      Stepped(c.(state := EvseWaitStartAtten, lastTime := e.now), Send(e, ParmCnf(c.localMac, c.peer, c.runId)))
    case EvseWaitStartAtten =>
      if e.recv.Some? && e.recv.value.StartAtten? then
        Stepped(c.(state := EvseCollectSounds, soundCount := 0, lastTime := e.now), [])
      else GiveUp(c, e, START_ATTEN_MS, EvseFailed)
    case EvseCollectSounds =>
      if e.recv.Some? && e.recv.value.Sound? then
        var n: Byte := (c.soundCount + 1) % 256;
        Stepped(c.(aag := Accumulate(c.aag, e.rands), soundCount := n,
                   state := if n >= NUM_SOUNDS then EvseSendAttenChar else EvseCollectSounds), [])
      else if TimedOut(c, e, EVSE_MNBC_MS) then
        Stepped(c.(state := if c.soundCount > 0 then EvseSendAttenChar else EvseFailed), [])
      else Stepped(c, [])
    case EvseSendAttenChar =>
      Stepped(c.(state := EvseWaitAttenRsp, lastTime := e.now),
              Send(e, AttenChar(c.localMac, c.peer, c.runId, c.soundCount, Averaged(c.aag, c.soundCount))))
    case EvseWaitAttenRsp =>
      if e.recv.Some? && e.recv.value.AttenRsp? then
        Stepped(c.(state := EvseWaitValidateReq, lastTime := e.now), [])
      else GiveUp(c, e, ATTEN_RSP_MS, EvseFailed)
    case EvseWaitValidateReq =>
      if e.recv.Some? && e.recv.value.ValidateReq? then Stepped(c.(state := EvseSendValidateCnf), [])
      else GiveUp(c, e, VALIDATE_REQ_MS, EvseFailed)
    case EvseSendValidateCnf =>
      Stepped(c.(state := EvseWaitMatchReq, lastTime := e.now), Send(e, ValidateCnf(c.localMac, c.peer, 0)))
    case EvseWaitMatchReq =>
      if e.recv.Some? && e.recv.value.MatchReq? then Stepped(c.(state := EvseSendMatchCnf), [])
      else GiveUp(c, e, MATCH_JOIN_MS, EvseFailed)
    case EvseSendMatchCnf =>
      var nid := ClearLowBits(e.freshNid);
      Stepped(c.(nmk := e.freshNmk, nid := nid, state := EvseMatched),
              Send(e, MatchCnf(c.localMac, c.peer, c.runId, e.freshNmk, nid)))
    case _ => Stepped(c, [])
  }

  function Step(c: Ctx, e: Env): Stepped {
    if c.isEv then EvStep(c, e) else EvseStep(c, e)
  }

  lemma FinalStays(c: Ctx, e: Env)
    requires Final(c.state)
    ensures Step(c, e) == Stepped(c, [])
  {
  }

  /** The EV step that matches takes over the keys of the MATCH.CNF it receives. */
  lemma EvMatchingStep(c: Ctx, e: Env)
    requires EvStep(c, e).ctx.state == EvMatched && c.state != EvMatched
    ensures e.recv.Some? && e.recv.value.MatchCnf?
    ensures EvStep(c, e) == Stepped(c.(nmk := e.recv.value.nmk, nid := e.recv.value.nid, state := EvMatched), [])
  {
  }

  /** The EVSE step that matches draws the keys and sends them, unless the send fails. */
  lemma EvseMatchingStep(c: Ctx, e: Env)
    requires EvseStep(c, e).ctx.state == EvseMatched && c.state != EvseMatched
    ensures var r := EvseStep(c, e);
            && r.ctx == c.(nmk := e.freshNmk, nid := r.ctx.nid, state := EvseMatched)
            && r.ctx.nid[..6] == e.freshNid[..6] && r.ctx.nid[6] % 4 == 0
            && r.ctx.nid[6] + e.freshNid[6] % 4 == e.freshNid[6]
            && r.sent == Send(e, MatchCnf(c.localMac, c.peer, c.runId, r.ctx.nmk, r.ctx.nid))
  {
  }

  /** The context slac_run starts its loop from. */
  function Started(c: Ctx): Ctx {
    if c.isEv then c.(state := EvSendParmReq)
    else c.(state := EvseWaitParmReq, soundCount := 0, aag := seq(NUM_GROUPS, _ => 0))
  }

  /** The context after n steps of a run in the environment env. */
  function After(c: Ctx, env: nat -> Env, n: nat): Ctx {
    if n == 0 then c else Step(After(c, env, n - 1), env(n - 1)).ctx
  }
}
