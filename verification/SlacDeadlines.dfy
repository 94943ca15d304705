/**
 * How long every timed wait lasts, in milliseconds from the clock of the step that began it,
 * and what ends it. Nothing here mentions the timer field a context keeps.
 */
module SlacDeadlines {
  import opened Bytes
  import opened SlacTypes
  import opened SlacSpec
  import opened SlacCausality
  import opened SlacTermination

  /** The deadline of each wait that has one, in milliseconds. */
  function Deadline(w: SlacState): Option<nat> {
    match w
    case EvWaitParmCnf => Some(400)
    case EvWaitAttenChar => Some(800)
    case EvWaitValidateCnf => Some(1200)
    case EvWaitMatchCnf => Some(12000)
    case EvseWaitStartAtten => Some(800)
    case EvseCollectSounds => Some(600)
    case EvseWaitAttenRsp => Some(800)
    case EvseWaitValidateReq => Some(1500)
    case EvseWaitMatchReq => Some(12000)
    case _ => None
  }

  predicate Timed(w: SlacState) {
    Deadline(w).Some?
  }

  /** The kind of frame each wait is for. */
  function Awaited(w: SlacState): Kind
    requires Timed(w)
  {
    match w
    case EvWaitParmCnf => KParmCnf
    case EvWaitAttenChar => KAttenChar
    case EvWaitValidateCnf => KValidateCnf
    case EvWaitMatchCnf => KMatchCnf
    case EvseWaitStartAtten => KStartAtten
    case EvseCollectSounds => KSound
    case EvseWaitAttenRsp => KAttenRsp
    case EvseWaitValidateReq => KValidateReq
    case EvseWaitMatchReq => KMatchReq
  }

  predicate Accepts(w: SlacState, recv: Option<Frame>)
    requires Timed(w)
  {
    recv.Some? && KindOf(recv.value) == Awaited(w)
  }

  // ---- One step ----

  /** Whatever state a step goes to, a timed wait that it begins counts from the step's clock. */
  lemma TimerStarts(c: Ctx, e: Env)
    requires Running(c) && Step(c, e).ctx.state != c.state && Timed(Step(c, e).ctx.state)
    ensures Step(c, e).ctx.lastTime == e.now
  {
  }

  /** A step that stays in a timed wait leaves its timer alone. */
  lemma TimerKept(c: Ctx, e: Env)
    requires Running(c) && Timed(c.state) && Step(c, e).ctx.state == c.state
    ensures Step(c, e).ctx.lastTime == c.lastTime
  {
  }

  /**
   * How a wait that began at `start` goes on: the awaited frame moves the side to its next
   * phase, however late; without it the wait goes on until the deadline is past.
   */
  predicate Outcome(c: Ctx, e: Env, start: nat, d: Ctx)
    requires Timed(c.state) && c.state != EvseCollectSounds
  {
    if Accepts(c.state, e.recv) then
      if e.recv.value.ValidateCnf? && e.recv.value.result != 0 then d.state == EvFailed
      else Rank(d.state) == Rank(c.state) + 1
    else if e.now <= start + Deadline(c.state).value then d == c
    else if c.state == EvWaitParmCnf then
      d.retryCount == c.retryCount + 1 && d.state == if d.retryCount < 3 then EvSendParmReq else EvFailed
    else d.state == if c.isEv then EvFailed else EvseFailed
  }

  lemma EvOutcome(c: Ctx, e: Env)
    requires Running(c) && c.isEv && Timed(c.state)
    ensures Outcome(c, e, c.lastTime, Step(c, e).ctx)
  {
  }

  lemma EvseOutcome(c: Ctx, e: Env)
    requires Running(c) && !c.isEv && Timed(c.state) && c.state != EvseCollectSounds
    ensures Outcome(c, e, c.lastTime, Step(c, e).ctx)
  {
  }

  /** The sound collection: the tenth sound ends it, or the deadline, with a sound or in failure. */
  predicate CollectOutcome(c: Ctx, e: Env, start: nat, sounds: nat, d: Ctx) {
    if Accepts(EvseCollectSounds, e.recv) then
      d.state == if sounds + 1 < 10 then EvseCollectSounds else EvseSendAttenChar
    else if e.now <= start + 600 then d == c
    else d.state == if sounds > 0 then EvseSendAttenChar else EvseFailed
  }

  lemma CollectStep(c: Ctx, e: Env)
    requires Running(c) && c.state == EvseCollectSounds
    ensures CollectOutcome(c, e, c.lastTime, c.soundCount, Step(c, e).ctx)
    ensures Step(c, e).ctx.state == EvseCollectSounds ==>
              Step(c, e).ctx.soundCount == c.soundCount + if Accepts(EvseCollectSounds, e.recv) then 1 else 0
  {
  }

  lemma CollectStarts(c: Ctx, e: Env)
    requires Running(c) && c.state != EvseCollectSounds && Step(c, e).ctx.state == EvseCollectSounds
    ensures Step(c, e).ctx.soundCount == 0
  {
  }

  // ---- A whole wait ----

  /** Step k of the run begins the wait w. */
  ghost predicate Begins(tr: nat -> Ctx, w: SlacState, k: nat) {
    Timed(w) && tr(k).state != w && tr(k + 1).state == w
  }

  /** After every step from k up to n - 1 the side is in w. */
  ghost predicate Stays(tr: nat -> Ctx, w: SlacState, k: nat, n: nat) {
    forall m: nat :: k < m <= n ==> tr(m).state == w
  }

  /** No step after k and before n brings what w waits for. */
  ghost predicate NothingComes(env: nat -> Env, w: SlacState, k: nat, n: nat)
    requires Timed(w)
  {
    forall m: nat :: k < m < n ==> !Accepts(w, env(m).recv)
  }

  /** No step after k and before n reads the clock more than `ms` after step k did. */
  ghost predicate Punctual(env: nat -> Env, k: nat, ms: nat, n: nat) {
    forall m: nat :: k < m < n ==> env(m).now <= env(k).now + ms
  }

  lemma RunningAt(tr: nat -> Ctx, env: nat -> Env, n: nat)
    requires Trajectory(tr, env) && Running(tr(0))
    ensures Running(tr(n)) && tr(n + 1) == Step(tr(n), env(n)).ctx
  {
    AlwaysRunning(tr, env, n);
    assert StepsAt(tr, env, n);
  }

  lemma {:induction false} TimerHolds(tr: nat -> Ctx, env: nat -> Env, w: SlacState, k: nat, n: nat)
    requires Trajectory(tr, env) && Running(tr(0)) && Begins(tr, w, k) && k < n && Stays(tr, w, k, n)
    ensures tr(n).lastTime == env(k).now
    decreases n - k
  {
    hide Step, Running;
    RunningAt(tr, env, n - 1);
    if n == k + 1 {
      TimerStarts(tr(k), env(k));
    } else {
      TimerHolds(tr, env, w, k, n - 1);
      TimerKept(tr(n - 1), env(n - 1));
    }
  }

  /** Step n of a wait that step k began, measured from the clock of step k. */
  lemma WaitGoesOn(tr: nat -> Ctx, env: nat -> Env, w: SlacState, k: nat, n: nat)
    requires Trajectory(tr, env) && Running(tr(0)) && Begins(tr, w, k) && w != EvseCollectSounds
    requires k < n && Stays(tr, w, k, n)
    ensures Outcome(tr(n), env(n), env(k).now, tr(n + 1))
  {
    hide Step, Running, Outcome;
    RunningAt(tr, env, n);
    TimerHolds(tr, env, w, k, n);
    if tr(n).isEv {
      EvOutcome(tr(n), env(n));
    } else {
      EvRoleOnly(tr(n));
      EvseOutcome(tr(n), env(n));
    }
  }

  lemma EvRoleOnly(c: Ctx)
    requires Running(c)
    ensures c.isEv <==> EvState(c.state)
  {
  }

  lemma OutcomeStays(c: Ctx, e: Env, start: nat, d: Ctx)
    requires Timed(c.state) && c.state != EvseCollectSounds && Outcome(c, e, start, d)
    ensures d.state == c.state <==> !Accepts(c.state, e.recv) && e.now <= start + Deadline(c.state).value
  {
  }

  /**
   * The side is still in the wait exactly when nothing it waits for has come and the clock
   * has not been read past the deadline, counted from the step that began the wait.
   */
  lemma {:induction false} WaitLastsIff(tr: nat -> Ctx, env: nat -> Env, w: SlacState, k: nat, n: nat)
    requires Trajectory(tr, env) && Running(tr(0)) && Begins(tr, w, k) && w != EvseCollectSounds && k < n
    ensures Stays(tr, w, k, n) <==> NothingComes(env, w, k, n) && Punctual(env, k, Deadline(w).value, n)
    decreases n - k
  {
    hide Running, Outcome, Accepts, Deadline;
    if n > k + 1 {
      WaitLastsIff(tr, env, w, k, n - 1);
      if Stays(tr, w, k, n - 1) {
        WaitGoesOn(tr, env, w, k, n - 1);
        OutcomeStays(tr(n - 1), env(n - 1), env(k).now, tr(n));
        assert Stays(tr, w, k, n) <==> tr(n).state == w;
      }
    }
  }

  /** Step n ends the wait by taking what it is for. */
  ghost predicate TakenAt(tr: nat -> Ctx, env: nat -> Env, w: SlacState, k: nat, n: nat)
    requires Timed(w)
  {
    k < n && Stays(tr, w, k, n) && Accepts(w, env(n).recv)
  }

  /** Step n brings what w waits for, and no step of the wait before it was late. */
  ghost predicate ComesInTime(env: nat -> Env, w: SlacState, k: nat, n: nat)
    requires Timed(w)
  {
    k < n && Accepts(w, env(n).recv) && Punctual(env, k, Deadline(w).value, n)
  }

  /** The first step, at n or before, that brings what w waits for. */
  lemma {:induction false} FirstAccepted(env: nat -> Env, w: SlacState, k: nat, n: nat) returns (j: nat)
    requires Timed(w) && k < n && Accepts(w, env(n).recv)
    ensures k < j <= n && Accepts(w, env(j).recv) && NothingComes(env, w, k, j)
    decreases n
  {
    if NothingComes(env, w, k, n) {
      j := n;
    } else {
      var m: nat :| k < m < n && Accepts(w, env(m).recv);
      j := FirstAccepted(env, w, k, m);
    }
  }

  /** A wait succeeds if and only if what it is for comes before the clock is read past the deadline. */
  lemma WaitSucceedsIff(tr: nat -> Ctx, env: nat -> Env, w: SlacState, k: nat)
    requires Trajectory(tr, env) && Running(tr(0)) && Begins(tr, w, k) && w != EvseCollectSounds
    ensures (exists n: nat :: TakenAt(tr, env, w, k, n)) <==> (exists n: nat :: ComesInTime(env, w, k, n))
  {
    hide Running, Accepts, Deadline;
    if n: nat :| TakenAt(tr, env, w, k, n) {
      WaitLastsIff(tr, env, w, k, n);
      assert ComesInTime(env, w, k, n);
    }
    if n: nat :| ComesInTime(env, w, k, n) {
      var j := FirstAccepted(env, w, k, n);
      assert Punctual(env, k, Deadline(w).value, j);
      WaitLastsIff(tr, env, w, k, j);
      assert TakenAt(tr, env, w, k, j);
    }
  }

  /** Patience: until the clock is past the deadline a side is in its wait, or has taken what it is for. */
  lemma {:induction false} Patience(tr: nat -> Ctx, env: nat -> Env, w: SlacState, k: nat, n: nat)
    requires Trajectory(tr, env) && Running(tr(0)) && Begins(tr, w, k) && w != EvseCollectSounds && k < n
    requires Punctual(env, k, Deadline(w).value, n)
    ensures Stays(tr, w, k, n) || exists j: nat :: j < n && TakenAt(tr, env, w, k, j)
  {
    hide Running, Accepts, Deadline;
    WaitLastsIff(tr, env, w, k, n);
    if !Stays(tr, w, k, n) {
      var m: nat :| k < m < n && Accepts(w, env(m).recv);
      var j := FirstAccepted(env, w, k, m);
      WaitLastsIff(tr, env, w, k, j);
      assert TakenAt(tr, env, w, k, j);
    }
  }

  // ---- The sound collection ----

  /** How many sounds the steps after k and before n bring. */
  ghost function SoundsIn(env: nat -> Env, k: nat, n: nat): nat {
    if n <= k + 1 then 0
    else SoundsIn(env, k, n - 1) + if Accepts(EvseCollectSounds, env(n - 1).recv) then 1 else 0
  }

  /** No step after k and before n that brings no sound is more than 600 ms late. */
  ghost predicate SilencePunctual(env: nat -> Env, k: nat, n: nat) {
    forall m: nat :: k < m < n && !Accepts(EvseCollectSounds, env(m).recv) ==> env(m).now <= env(k).now + 600
  }

  lemma {:induction false} CollectCounts(tr: nat -> Ctx, env: nat -> Env, k: nat, n: nat)
    requires Trajectory(tr, env) && Running(tr(0)) && Begins(tr, EvseCollectSounds, k)
    requires k < n && Stays(tr, EvseCollectSounds, k, n)
    ensures tr(n).soundCount == SoundsIn(env, k, n)
    ensures CollectOutcome(tr(n), env(n), env(k).now, SoundsIn(env, k, n), tr(n + 1))
    decreases n - k
  {
    hide Step, Running, CollectOutcome;
    RunningAt(tr, env, n - 1);
    RunningAt(tr, env, n);
    TimerHolds(tr, env, EvseCollectSounds, k, n);
    if n == k + 1 {
      CollectStarts(tr(k), env(k));
    } else {
      CollectCounts(tr, env, k, n - 1);
      CollectStep(tr(n - 1), env(n - 1));
    }
    CollectStep(tr(n), env(n));
  }

  /**
   * The EVSE is still collecting exactly when fewer than ten sounds have come and no silent
   * step was past the deadline; a step that brings a sound is never too late.
   */
  lemma {:induction false} CollectLastsIff(tr: nat -> Ctx, env: nat -> Env, k: nat, n: nat)
    requires Trajectory(tr, env) && Running(tr(0)) && Begins(tr, EvseCollectSounds, k) && k < n
    ensures Stays(tr, EvseCollectSounds, k, n) <==> SoundsIn(env, k, n) < 10 && SilencePunctual(env, k, n)
    decreases n - k
  {
    hide Running, Accepts;
    if n > k + 1 {
      CollectLastsIff(tr, env, k, n - 1);
      if Stays(tr, EvseCollectSounds, k, n - 1) {
        CollectCounts(tr, env, k, n - 1);
        assert Stays(tr, EvseCollectSounds, k, n) <==> tr(n).state == EvseCollectSounds;
      }
    }
  }

  // ---- The steps between the waits ----

  predicate Sends(s: SlacState) {
    exists k :: SendState(k) == s
  }

  /** How many frames a sending state has to send. */
  function Planned(s: SlacState): nat {
    if s == EvSendMnbcSounds then 10 else if Sends(s) then 1 else 0
  }

  /**
   * A step sends what its state has to send, cut at the first failing send; a sending state
   * takes the side to its next phase all the same, but for a PARM.REQ that could not be sent.
   */
  lemma EvSendingStep(c: Ctx, e: Env)
    requires Running(c) && c.isEv
    ensures var r := EvStep(c, e);
            && |r.sent| == (if e.sendOk < Planned(c.state) then e.sendOk else Planned(c.state))
            && (Sends(c.state) ==>
                  if c.state == EvSendParmReq && e.sendOk == 0 then r.ctx.state == EvFailed
                  else Rank(r.ctx.state) == Rank(c.state) + 1)
            && (c.state == EvSendParmReq ==> r.ctx.runId == e.freshRunId)
  {
    SendStates(c.state);
  }

  lemma EvseSendingStep(c: Ctx, e: Env)
    requires Running(c) && !c.isEv
    ensures var r := EvseStep(c, e);
            && |r.sent| == (if e.sendOk < Planned(c.state) then e.sendOk else Planned(c.state))
            && (Sends(c.state) ==> Rank(r.ctx.state) == Rank(c.state) + 1)
  {
    SendStates(c.state);
  }

  lemma SendStates(s: SlacState)
    ensures Sends(s) <==>
            s in {EvSendParmReq, EvSendStartAtten, EvSendMnbcSounds, EvSendAttenRsp, EvSendValidate, EvSendMatchReq,
                  EvseSendParmCnf, EvseSendAttenChar, EvseSendValidateCnf, EvseSendMatchCnf}
  {
    assert SendState(KParmReq) == EvSendParmReq && SendState(KParmCnf) == EvseSendParmCnf;
    assert SendState(KStartAtten) == EvSendStartAtten && SendState(KSound) == EvSendMnbcSounds;
    assert SendState(KAttenChar) == EvseSendAttenChar && SendState(KAttenRsp) == EvSendAttenRsp;
    assert SendState(KValidateReq) == EvSendValidate && SendState(KValidateCnf) == EvseSendValidateCnf;
    assert SendState(KMatchReq) == EvSendMatchReq && SendState(KMatchCnf) == EvseSendMatchCnf;
  }
}
