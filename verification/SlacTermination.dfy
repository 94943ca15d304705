/** slac_run always ends for the EV, and ends for the EVSE exactly when a PARM.REQ arrives. */
module SlacTermination {
  import opened Bytes
  import opened SlacTypes
  import opened SlacSpec

  /** Milliseconds until a wait that began at `last` is past its deadline. */
  function Left(last: nat, limit: nat, clock: nat): (n: nat) {
    if clock <= last + limit then last + limit + 1 - clock else 0
  }

  /** The longest one PARM.REQ attempt can take. */
  const EV_ROUND: nat := PARM_CNF_MS + 3

  /** Time for the PARM.REQ attempts still possible after the current one. */
  function RetryTime(retryCount: nat): nat {
    if retryCount + 2 < EV_MATCH_RETRY then 2 * EV_ROUND
    else if retryCount + 1 < EV_MATCH_RETRY then EV_ROUND
    else 0
  }

  /** Upper bounds on the rest of a run, from each state that starts a new wait. */
  const EV_FROM_MATCH_REQ: nat := MATCH_JOIN_MS + 3
  const EV_FROM_ATTEN_RSP: nat := EV_FROM_MATCH_REQ + VALIDATE_CNF_MS + 4
  const EV_FROM_START_ATTEN: nat := EV_FROM_ATTEN_RSP + ATTEN_CHAR_MS + 4

  /** Retries left, then phase, then time to the deadline, packed into one number. */
  function EvMeasure(c: Ctx, clock: nat): nat {
    match c.state
    case EvSendParmReq => EV_FROM_START_ATTEN + RetryTime(c.retryCount) + EV_ROUND
    case EvWaitParmCnf =>
      EV_FROM_START_ATTEN + RetryTime(c.retryCount) + 1 + Left(c.lastTime, PARM_CNF_MS, clock)
    case EvSendStartAtten => EV_FROM_START_ATTEN
    case EvSendMnbcSounds => EV_FROM_START_ATTEN - 1
    case EvWaitAttenChar => EV_FROM_ATTEN_RSP + 1 + Left(c.lastTime, ATTEN_CHAR_MS, clock)
    case EvSendAttenRsp => EV_FROM_ATTEN_RSP
    case EvSendValidate => EV_FROM_ATTEN_RSP - 1
    case EvWaitValidateCnf => EV_FROM_MATCH_REQ + 1 + Left(c.lastTime, VALIDATE_CNF_MS, clock)
    case EvSendMatchReq => EV_FROM_MATCH_REQ
    case EvWaitMatchCnf => 1 + Left(c.lastTime, MATCH_JOIN_MS, clock)
    case _ => 0
  }

  const EVSE_FROM_VALIDATE_CNF: nat := MATCH_JOIN_MS + 4
  const EVSE_FROM_WAIT_VALIDATE: nat := EVSE_FROM_VALIDATE_CNF + VALIDATE_REQ_MS + 2
  const EVSE_FROM_ATTEN_CHAR: nat := EVSE_FROM_WAIT_VALIDATE + ATTEN_RSP_MS + 3
  const EVSE_FROM_COLLECT: nat := EVSE_FROM_ATTEN_CHAR + EVSE_MNBC_MS + 2 + NUM_SOUNDS
  const EVSE_FROM_PARM_CNF: nat := EVSE_FROM_COLLECT + START_ATTEN_MS + 3

  function EvseMeasure(c: Ctx, clock: nat): nat {
    match c.state
    case EvseWaitParmReq => EVSE_FROM_PARM_CNF + 1
    case EvseSendParmCnf => EVSE_FROM_PARM_CNF
    case EvseWaitStartAtten => EVSE_FROM_COLLECT + 1 + Left(c.lastTime, START_ATTEN_MS, clock)
    case EvseCollectSounds =>
      var soundsLeft: nat := if c.soundCount < NUM_SOUNDS then NUM_SOUNDS - c.soundCount else 0;
      EVSE_FROM_ATTEN_CHAR + 1 + soundsLeft + Left(c.lastTime, EVSE_MNBC_MS, clock)
    case EvseSendAttenChar => EVSE_FROM_ATTEN_CHAR
    case EvseWaitAttenRsp => EVSE_FROM_WAIT_VALIDATE + 1 + Left(c.lastTime, ATTEN_RSP_MS, clock)
    case EvseWaitValidateReq => EVSE_FROM_VALIDATE_CNF + 1 + Left(c.lastTime, VALIDATE_REQ_MS, clock)
    case EvseSendValidateCnf => EVSE_FROM_VALIDATE_CNF
    case EvseWaitMatchReq => 2 + Left(c.lastTime, MATCH_JOIN_MS, clock)
    case EvseSendMatchCnf => 1
    case _ => 0
  }

  function Measure(c: Ctx, clock: nat): nat {
    if c.isEv then EvMeasure(c, clock) else EvseMeasure(c, clock)
  }

  /** The contexts slac_run can be in: a state of its role, in the middle of a run. */
  predicate Running(c: Ctx) {
    && (c.isEv <==> EvState(c.state)) && c.state != EvIdle && c.state != EvseIdle
    && (c.state == EvseCollectSounds ==> c.soundCount < NUM_SOUNDS)
  }

  /** A wait step that took no frame, met no deadline and saw no time pass. */
  predicate Stutters(c: Ctx, clock: nat, e: Env) {
    e.now == clock && Step(c, e).ctx == c
  }

  lemma StepKeepsRunning(c: Ctx, e: Env)
    requires Running(c)
    ensures Running(Step(c, e).ctx) && Step(c, e).ctx.isEv == c.isEv
  {
  }

  /** No step raises the measure, and every step that is not a stutter lowers it. */
  ghost predicate Drops(c: Ctx, clock: nat, e: Env) {
    var m, n := Measure(c, clock), Measure(Step(c, e).ctx, e.now);
    n <= m && (Final(c.state) || c.state == EvseWaitParmReq || Stutters(c, clock, e) || n < m)
  }

  lemma RetryDrops(c: Ctx, clock: nat, e: Env)
    requires c.isEv && (c.state == EvSendParmReq || c.state == EvWaitParmCnf) && clock <= e.now
    ensures Drops(c, clock, e)
  {
  }

  lemma EvDrops(c: Ctx, clock: nat, e: Env)
    requires Running(c) && c.isEv && c.state != EvSendParmReq && c.state != EvWaitParmCnf && clock <= e.now
    ensures Drops(c, clock, e)
  {
  }

  lemma CollectDrops(c: Ctx, clock: nat, e: Env)
    requires Running(c) && c.state == EvseCollectSounds && clock <= e.now
    ensures Drops(c, clock, e)
  {
  }

  lemma EvseDrops(c: Ctx, clock: nat, e: Env)
    requires Running(c) && !c.isEv && c.state != EvseCollectSounds && clock <= e.now
    ensures Drops(c, clock, e)
  {
  }

  lemma StepDrops(c: Ctx, clock: nat, e: Env)
    requires Running(c) && clock <= e.now
    ensures Drops(c, clock, e)
  {
    if c.state == EvseCollectSounds {
      CollectDrops(c, clock, e);
    } else if !c.isEv {
      EvseDrops(c, clock, e);
    } else if c.state == EvSendParmReq || c.state == EvWaitParmCnf {
      RetryDrops(c, clock, e);
    } else {
      EvDrops(c, clock, e);
    }
  }

  /** tr lists the contexts of one run of slac_run in the environment env. */
  ghost predicate Trajectory(tr: nat -> Ctx, env: nat -> Env) {
    forall n: nat :: StepsAt(tr, env, n)
  }

  ghost predicate StepsAt(tr: nat -> Ctx, env: nat -> Env, n: nat) {
    tr(n + 1) == Step(tr(n), env(n)).ctx
  }

  /** The run that starts in c. */
  function RunFrom(c: Ctx, env: nat -> Env): nat -> Ctx {
    (n: nat) => After(c, env, n)
  }

  lemma RunFromIsTrajectory(c: Ctx, env: nat -> Env)
    ensures Trajectory(RunFrom(c, env), env)
  {
    forall n: nat
      ensures StepsAt(RunFrom(c, env), env, n)
    {
      var tr := RunFrom(c, env);
      assert tr(n + 1) == After(c, env, n + 1) == Step(After(c, env, n), env(n)).ctx;
    }
  }

  /** The clock as it stands before step n. */
  function ClockAt(env: nat -> Env, start: nat, n: nat): nat {
    if n == 0 then start else env(n - 1).now
  }

  /** millis() never goes back. */
  ghost predicate Monotonic(env: nat -> Env, start: nat) {
    forall n: nat :: NotBefore(env, start, n)
  }

  ghost predicate NotBefore(env: nat -> Env, start: nat, n: nat) {
    ClockAt(env, start, n) <= env(n).now
  }

  /** ... and passes every instant sooner or later. */
  ghost predicate Ticking(env: nat -> Env) {
    forall t: nat :: Passes(env, t)
  }

  ghost predicate Passes(env: nat -> Env, t: nat) {
    exists n: nat :: env(n).now > t
  }

  /** From step k on, a wait step that takes no frame and meets no deadline sees the clock advance. */
  ghost predicate NoStutter(tr: nat -> Ctx, env: nat -> Env, start: nat, k: nat) {
    forall n: nat :: k <= n ==> ProgressAt(tr, env, start, n)
  }

  ghost predicate ProgressAt(tr: nat -> Ctx, env: nat -> Env, start: nat, n: nat) {
    !Final(tr(n).state) ==> !Stutters(tr(n), ClockAt(env, start, n), env(n))
  }

  lemma {:induction false} AlwaysRunning(tr: nat -> Ctx, env: nat -> Env, n: nat)
    requires Trajectory(tr, env) && Running(tr(0))
    ensures Running(tr(n)) && tr(n).isEv == tr(0).isEv
  {
    if n > 0 {
      AlwaysRunning(tr, env, n - 1);
      assert StepsAt(tr, env, n - 1);
      StepKeepsRunning(tr(n - 1), env(n - 1));
    }
  }

  /** No step goes back to WAIT_PARM_REQ, and a finished run stays as it is. */
  lemma StepLeaves(c: Ctx, e: Env)
    ensures c.state != EvseWaitParmReq ==> Step(c, e).ctx.state != EvseWaitParmReq
    ensures Final(c.state) ==> Step(c, e).ctx == c
  {
  }

  lemma {:induction false} StaysPast(tr: nat -> Ctx, env: nat -> Env, m: nat, n: nat)
    requires Trajectory(tr, env) && m <= n
    ensures tr(m).state != EvseWaitParmReq ==> tr(n).state != EvseWaitParmReq
    ensures Final(tr(m).state) ==> Final(tr(n).state)
    decreases n - m
  {
    if m < n {
      StaysPast(tr, env, m, n - 1);
      assert StepsAt(tr, env, n - 1);
      StepLeaves(tr(n - 1), env(n - 1));
    }
  }

  /** The shape of a terminating run, stripped of the protocol: done, lower, or frozen in time. */
  ghost predicate DescentAt(done: nat -> bool, m: nat -> nat, clock: nat -> nat, k: nat) {
    done(k) || m(k + 1) < m(k) || (m(k + 1) == m(k) && clock(k + 1) == clock(k))
  }

  ghost predicate Descent(done: nat -> bool, m: nat -> nat, clock: nat -> nat, from: nat) {
    forall k: nat :: from <= k ==> DescentAt(done, m, clock, k)
  }

  /** If the clock has moved by step n, the run is done or lower by then. */
  lemma {:induction false} Advance(done: nat -> bool, m: nat -> nat, clock: nat -> nat, k: nat, n: nat)
    returns (j: nat)
    requires Descent(done, m, clock, k) && k < n && clock(k) != clock(n)
    ensures k <= j && (done(j) || m(j) < m(k))
    decreases n - k
  {
    assert DescentAt(done, m, clock, k);
    if done(k) {
      j := k;
    } else if m(k + 1) < m(k) {
      j := k + 1;
    } else {
      j := Advance(done, m, clock, k + 1, n);
    }
  }

  ghost predicate Moves(clock: nat -> nat, k: nat) {
    exists n: nat :: k < n && clock(k) != clock(n)
  }

  lemma {:induction false} DescentEnds(done: nat -> bool, m: nat -> nat, clock: nat -> nat, k: nat)
    returns (n: nat)
    requires Descent(done, m, clock, k) && forall i: nat :: Moves(clock, i)
    ensures k <= n && done(n)
    decreases m(k)
  {
    assert Moves(clock, k);
    var i: nat :| k < i && clock(k) != clock(i);
    n := Advance(done, m, clock, k, i);
    if !done(n) {
      n := DescentEnds(done, m, clock, n);
    }
  }

  /** One step of a run that has left the EVSE's open-ended first wait. */
  lemma DropsAt(tr: nat -> Ctx, env: nat -> Env, start: nat, n: nat)
    requires Trajectory(tr, env) && Running(tr(0)) && Monotonic(env, start)
    requires tr(n).state != EvseWaitParmReq
    ensures var m, m' := Measure(tr(n), ClockAt(env, start, n)), Measure(tr(n + 1), ClockAt(env, start, n + 1));
            && m' <= m
            && (Final(tr(n).state) || m' < m ||
                (ClockAt(env, start, n + 1) == ClockAt(env, start, n) &&
                 Stutters(tr(n), ClockAt(env, start, n), env(n))))
  {
    AlwaysRunning(tr, env, n);
    assert NotBefore(env, start, n);
    assert StepsAt(tr, env, n);
    StepDrops(tr(n), ClockAt(env, start, n), env(n));
  }

  lemma {:induction false} ClockMonotonic(env: nat -> Env, start: nat, k: nat, n: nat)
    requires Monotonic(env, start) && k <= n
    ensures ClockAt(env, start, k) <= ClockAt(env, start, n)
    decreases n - k
  {
    if k < n {
      assert NotBefore(env, start, n - 1);
      ClockMonotonic(env, start, k, n - 1);
    }
  }

  lemma ClockMoves(env: nat -> Env, start: nat, k: nat)
    requires Monotonic(env, start) && Ticking(env)
    ensures exists n: nat :: k < n && ClockAt(env, start, k) != ClockAt(env, start, n)
  {
    assert Passes(env, ClockAt(env, start, k));
    var i: nat :| env(i).now > ClockAt(env, start, k);
    assert ClockAt(env, start, i + 1) == env(i).now;
    if i + 1 <= k {
      ClockMonotonic(env, start, i + 1, k);
    }
  }

  function Done(tr: nat -> Ctx): nat -> bool {
    (n: nat) => Final(tr(n).state)
  }

  function Clock(env: nat -> Env, start: nat): nat -> nat {
    (n: nat) => ClockAt(env, start, n)
  }

  function Measures(tr: nat -> Ctx, env: nat -> Env, start: nat): nat -> nat {
    (n: nat) => Measure(tr(n), ClockAt(env, start, n))
  }

  lemma RunDescends(tr: nat -> Ctx, env: nat -> Env, start: nat, k: nat)
    requires Trajectory(tr, env) && Running(tr(0)) && Monotonic(env, start)
    requires tr(k).state != EvseWaitParmReq
    ensures Descent(Done(tr), Measures(tr, env, start), Clock(env, start), k)
  {
    forall i: nat | k <= i
      ensures DescentAt(Done(tr), Measures(tr, env, start), Clock(env, start), i)
    {
      StaysPast(tr, env, k, i);
      DropsAt(tr, env, start, i);
    }
  }

  /** Past the first wait a run ends, on no more than a clock that keeps going. */
  lemma EndsEventually(tr: nat -> Ctx, env: nat -> Env, start: nat, k: nat) returns (n: nat)
    requires Trajectory(tr, env) && Running(tr(0)) && Monotonic(env, start) && Ticking(env)
    requires tr(k).state != EvseWaitParmReq
    ensures k <= n && Final(tr(n).state)
  {
    RunDescends(tr, env, start, k);
    forall i: nat
      ensures Moves(Clock(env, start), i)
    {
      ClockMoves(env, start, i);
      var j: nat :| i < j && ClockAt(env, start, i) != ClockAt(env, start, j);
      assert Clock(env, start)(i) != Clock(env, start)(j);
    }
    n := DescentEnds(Done(tr), Measures(tr, env, start), Clock(env, start), k);
  }

  ghost predicate StrictAt(done: nat -> bool, m: nat -> nat, k: nat) {
    if done(k) then done(k + 1) else m(k + 1) < m(k)
  }

  lemma {:induction false} StrictDescent(done: nat -> bool, m: nat -> nat, k: nat, n: nat)
    requires k <= n && forall i: nat :: k <= i ==> StrictAt(done, m, i)
    ensures done(n) || m(n) + (n - k) <= m(k)
    decreases n - k
  {
    if n > k {
      StrictDescent(done, m, k, n - 1);
      assert StrictAt(done, m, n - 1);
    }
  }

  lemma StrictStep(tr: nat -> Ctx, env: nat -> Env, start: nat, k: nat, i: nat)
    requires Trajectory(tr, env) && Running(tr(0)) && tr(k).state != EvseWaitParmReq && k <= i
    requires Monotonic(env, start) && NoStutter(tr, env, start, k)
    ensures StrictAt(Done(tr), Measures(tr, env, start), i)
  {
    StaysPast(tr, env, k, i);
    DropsAt(tr, env, start, i);
    StaysPast(tr, env, i, i + 1);
    assert ProgressAt(tr, env, start, i);
  }

  /**
   * A step-count bound: from any step k past the first wait, a run whose waits do not
   * stutter is over after as many more steps as the measure at k.
   */
  lemma EndsWithinMeasure(tr: nat -> Ctx, env: nat -> Env, start: nat, k: nat, n: nat)
    requires Trajectory(tr, env) && Running(tr(0)) && tr(k).state != EvseWaitParmReq && k <= n
    requires Monotonic(env, start) && NoStutter(tr, env, start, k)
    ensures Final(tr(n).state)
            || Measure(tr(n), ClockAt(env, start, n)) + (n - k) <= Measure(tr(k), ClockAt(env, start, k))
  {
    forall i: nat | k <= i
      ensures StrictAt(Done(tr), Measures(tr, env, start), i)
    {
      StrictStep(tr, env, start, k, i);
    }
    StrictDescent(Done(tr), Measures(tr, env, start), k, n);
  }

  lemma MeasurePositive(c: Ctx, clock: nat)
    requires Running(c) && !Final(c.state)
    ensures Measure(c, clock) > 0
  {
  }

  lemma FinalAfter(tr: nat -> Ctx, env: nat -> Env, start: nat, k: nat, n: nat)
    requires Trajectory(tr, env) && Running(tr(0)) && tr(k).state != EvseWaitParmReq
    requires Monotonic(env, start) && NoStutter(tr, env, start, k)
    requires n >= k + Measure(tr(k), ClockAt(env, start, k))
    ensures Final(tr(n).state)
  {
    EndsWithinMeasure(tr, env, start, k, n);
    AlwaysRunning(tr, env, n);
    if !Final(tr(n).state) {
      MeasurePositive(tr(n), ClockAt(env, start, n));
    }
  }

  ghost predicate Ends(tr: nat -> Ctx) {
    exists n: nat :: Final(tr(n).state)
  }

  predicate IsParmReq(recv: Option<Frame>) {
    recv.Some? && recv.value.ParmReq?
  }

  ghost predicate ParmReqArrives(env: nat -> Env) {
    exists i: nat :: IsParmReq(env(i).recv)
  }

  /** Until a PARM.REQ arrives the EVSE stays exactly where slac_run put it. */
  lemma {:induction false} WaitsForParmReq(tr: nat -> Ctx, env: nat -> Env, n: nat)
    requires Trajectory(tr, env) && !tr(0).isEv && tr(0).state == EvseWaitParmReq
    requires !ParmReqArrives(env)
    ensures tr(n) == tr(0)
  {
    if n > 0 {
      WaitsForParmReq(tr, env, n - 1);
      assert StepsAt(tr, env, n - 1);
      assert !IsParmReq(env(n - 1).recv);
    }
  }

  /** The EV role always ends, whatever frames arrive and whatever its retry count is. */
  lemma EvRunEnds(c: Ctx, tr: nat -> Ctx, env: nat -> Env, start: nat)
    requires c.isEv && tr(0) == Started(c) && Trajectory(tr, env)
    requires Monotonic(env, start) && Ticking(env)
    ensures Ends(tr)
  {
    var n := EndsEventually(tr, env, start, 0);
  }

  const EV_STEP_BOUND: nat := EV_FROM_START_ATTEN + 3 * EV_ROUND

  /** A fresh EV is done after 15220 steps if every idle wait step takes time. */
  lemma EvRunBound(c: Ctx, tr: nat -> Ctx, env: nat -> Env, start: nat, n: nat)
    requires c.isEv && c.retryCount == 0 && tr(0) == Started(c) && Trajectory(tr, env)
    requires Monotonic(env, start) && NoStutter(tr, env, start, 0)
    requires n >= EV_STEP_BOUND
    ensures Final(tr(n).state) && EV_STEP_BOUND == 15220
  {
    FinalAfter(tr, env, start, 0, n);
  }

  /** An EVSE that has taken a PARM.REQ is done 15724 steps later, on the same terms. */
  lemma EvseRunBound(c: Ctx, tr: nat -> Ctx, env: nat -> Env, start: nat, k: nat, n: nat)
    requires !c.isEv && tr(0) == Started(c) && Trajectory(tr, env)
    requires tr(k).state == EvseSendParmCnf
    requires Monotonic(env, start) && NoStutter(tr, env, start, k)
    requires n >= k + EVSE_FROM_PARM_CNF
    ensures Final(tr(n).state) && EVSE_FROM_PARM_CNF == 15724
  {
    AlwaysRunning(tr, env, k);
    FinalAfter(tr, env, start, k, n);
  }

  /** The EVSE role ends if and only if some PARM.REQ reaches it: its first wait has no deadline. */
  lemma EvseRunEndsIff(c: Ctx, tr: nat -> Ctx, env: nat -> Env, start: nat)
    requires !c.isEv && tr(0) == Started(c) && Trajectory(tr, env)
    requires Monotonic(env, start) && Ticking(env)
    ensures Ends(tr) <==> ParmReqArrives(env)
  {
    if ParmReqArrives(env) {
      var i: nat :| IsParmReq(env(i).recv);
      AlwaysRunning(tr, env, i);
      assert StepsAt(tr, env, i);
      StaysPast(tr, env, i, i + 1);
      assert tr(i + 1).state != EvseWaitParmReq;
      var n := EndsEventually(tr, env, start, i + 1);
    } else {
      forall n: nat
        ensures !Final(tr(n).state)
      {
        WaitsForParmReq(tr, env, n);
      }
    }
  }

  /** Such a run that waits for ever: the clock goes on, and nothing is ever received. */
  lemma EvseWaitsForEver(c: Ctx) returns (tr: nat -> Ctx, env: nat -> Env)
    requires !c.isEv
    ensures tr(0) == Started(c) && Trajectory(tr, env) && Monotonic(env, 0) && Ticking(env) && !Ends(tr)
  {
    env := (n: nat) => Env(None, n, 0, c.runId, c.nmk, c.nid, seq(NUM_GROUPS, _ => 0));
    tr := RunFrom(Started(c), env);
    RunFromIsTrajectory(Started(c), env);
    assert tr(0) == Started(c);
    forall t: nat
      ensures Passes(env, t) && NotBefore(env, 0, t)
    {
      assert env(t + 1).now > t;
    }
    EvseRunEndsIff(c, tr, env, 0);
  }

  /** How many of the first n steps were attempts to broadcast a PARM.REQ. */
  ghost function Attempts(tr: nat -> Ctx, n: nat): nat {
    if n == 0 then 0 else Attempts(tr, n - 1) + if tr(n - 1).state == EvSendParmReq then 1 else 0
  }

  /** The number of attempts made in a run that began with `used` retries, against the retry counter. */
  predicate Counted(d: Ctx, used: nat, attempts: nat) {
    && attempts <= (if used < 3 then 3 - used else 1)
    && (d.state == EvSendParmReq ==>
          used + attempts == d.retryCount && (attempts == 0 || d.retryCount < 3))
    && (d.state != EvSendParmReq && d.state != EvFailed ==> used + attempts == d.retryCount + 1)
    && (d.state == EvFailed ==> used + attempts == d.retryCount || used + attempts == d.retryCount + 1)
  }

  lemma CountedStep(d: Ctx, e: Env, used: nat, attempts: nat)
    requires Running(d) && d.isEv && Counted(d, used, attempts)
    ensures Counted(EvStep(d, e).ctx, used, attempts + if d.state == EvSendParmReq then 1 else 0)
  {
  }

  /**
   * A fresh EV attempts at most three PARM.REQ broadcasts; the number attempted is the retry
   * count, plus one once the current attempt is made and has not timed out. A context that is
   * run again has the attempts it used before counted too, but for one it always makes.
   */
  lemma {:induction false} AttemptsCounted(c: Ctx, tr: nat -> Ctx, env: nat -> Env, n: nat)
    requires c.isEv && tr(0) == Started(c) && Trajectory(tr, env)
    ensures Counted(tr(n), c.retryCount, Attempts(tr, n))
  {
    if n > 0 {
      AttemptsCounted(c, tr, env, n - 1);
      AlwaysRunning(tr, env, n - 1);
      assert StepsAt(tr, env, n - 1);
      CountedStep(tr(n - 1), env(n - 1), c.retryCount, Attempts(tr, n - 1));
    }
  }

  /** The run slac_run takes, and a step by which it is over. */
  lemma FirstEnd(c: Ctx, env: nat -> Env, start: nat) returns (tr: nat -> Ctx, n: nat)
    requires Monotonic(env, start) && Ticking(env)
    requires !c.isEv ==> ParmReqArrives(env)
    ensures Trajectory(tr, env) && tr(0) == Started(c) && Final(tr(n).state)
    ensures forall k: nat :: tr(k) == After(Started(c), env, k)
  {
    tr := RunFrom(Started(c), env);
    RunFromIsTrajectory(Started(c), env);
    assert tr(0) == Started(c);
    if c.isEv {
      EvRunEnds(c, tr, env, start);
    } else {
      EvseRunEndsIff(c, tr, env, start);
    }
    n :| Final(tr(n).state);
  }
}
