/**
 * Over a clean channel every run matches both sides: no send fails, frames arrive in order
 * and are taken one by one, and no deadline passes. Nothing is asked of the interleaving but
 * that neither side stops stepping.
 */
module SlacLiveness {
  import opened Bytes
  import opened SlacTypes
  import opened SlacSpec
  import opened SlacProtocol
  import opened SlacCausality
  import opened SlacDeadlines
  import opened SlacTermination

  import opened SlacWitness

  /**
   * A joint state, the frames under way to each side, next one first, and the clock reading
   * of the step that took each side to its present state.
   */
  datatype Net = Net(joint: Joint, toEv: seq<Frame>, toEvse: seq<Frame>, evSince: nat, evseSince: nat)

  predicate Waits(s: SlacState) {
    Timed(s) || s == EvseWaitParmReq
  }

  /** What the channel and the clock do for one step of a side, given its inbox. */
  predicate Served(c: Ctx, e: Env, inbox: seq<Frame>, since: nat) {
    && e.sendOk >= NUM_SOUNDS
    && if Waits(c.state) && inbox != [] then e.recv == Some(inbox[0])
       else e.recv == None && (Timed(c.state) ==> e.now <= since + Deadline(c.state).value)
  }

  function Taken(recv: Option<Frame>, inbox: seq<Frame>): seq<Frame> {
    if recv.Some? && inbox != [] then inbox[1..] else inbox
  }

  function Since(c: Ctx, d: Ctx, since: nat, now: nat): nat {
    if d.state == c.state then since else now
  }

  ghost predicate EvTurn(s: Net, e: Env, t: Net) {
    && EvMoves(s.joint, e, t.joint) && Served(s.joint.ev, e, s.toEv, s.evSince)
    && t.toEv == Taken(e.recv, s.toEv) && t.toEvse == s.toEvse + EvStep(s.joint.ev, e).sent
    && t.evSince == Since(s.joint.ev, t.joint.ev, s.evSince, e.now) && t.evseSince == s.evseSince
  }

  ghost predicate EvseTurn(s: Net, e: Env, t: Net) {
    && EvseMoves(s.joint, e, t.joint) && Served(s.joint.evse, e, s.toEvse, s.evseSince)
    && t.toEvse == Taken(e.recv, s.toEvse) && t.toEv == s.toEv + EvseStep(s.joint.evse, e).sent
    && t.evseSince == Since(s.joint.evse, t.joint.evse, s.evseSince, e.now) && t.evSince == s.evSince
  }

  ghost predicate Turn(s: Net, evTurn: bool, e: Env, t: Net) {
    if evTurn then EvTurn(s, e, t) else EvseTurn(s, e, t)
  }

  // ---- The scripts both sides follow ----

  /** The i-th frame the EV sends in the whole exchange, and the i-th frame the EVSE sends. */
  function EvScript(i: nat): Kind {
    if i == 0 then KParmReq else if i == 1 then KStartAtten else if i < 2 + NUM_SOUNDS then KSound
    else if i == 2 + NUM_SOUNDS then KAttenRsp else if i == 3 + NUM_SOUNDS then KValidateReq else KMatchReq
  }

  function EvseScript(i: nat): Kind {
    if i == 0 then KParmCnf else if i == 1 then KAttenChar else if i == 2 then KValidateCnf else KMatchCnf
  }

  /** How many frames the EV has sent and taken in each state. */
  function EvSent(s: SlacState): nat {
    var r := Rank(s);
    if r <= 1 then 0 else if r <= 3 then 1 else if r == 4 then 2 else
    NUM_SOUNDS + if r <= 6 then 2 else if r == 7 then 3 else if r <= 9 then 4 else 5
  }

  function EvTaken(s: SlacState): nat {
    var r := Rank(s);
    if r <= 2 then 0 else if r <= 5 then 1 else if r <= 8 then 2 else if r <= 10 then 3 else 4
  }

  function EvseSent(s: SlacState): nat {
    var r := Rank(s);
    if r <= 2 then 0 else if r <= 5 then 1 else if r <= 8 then 2 else if r <= 10 then 3 else 4
  }

  function EvseTaken(c: Ctx): nat {
    var r := Rank(c.state);
    if r <= 1 then 0 else if r <= 3 then 1 else if r == 4 then 2 + c.soundCount else
    NUM_SOUNDS + if r <= 6 then 2 else if r == 7 then 3 else if r <= 9 then 4 else 5
  }

  /** The inbox holds the script's frames from number `taken` up to number `sent`. */
  predicate Follows(inbox: seq<Frame>, script: nat -> Kind, taken: nat, sent: nat) {
    taken + |inbox| == sent && forall i :: 0 <= i < |inbox| ==> KindOf(inbox[i]) == script(taken + i)
  }

  predicate EvGoing(c: Ctx) {
    c.isEv && EvState(c.state) && 1 <= Rank(c.state) && c.retryCount == 0
  }

  predicate EvseGoing(c: Ctx) {
    && !c.isEv && !EvState(c.state) && 1 <= Rank(c.state)
    && (c.state == EvseCollectSounds ==> c.soundCount < NUM_SOUNDS)
  }

  /** Neither side has failed, and the frames under way are just those sent and not yet taken. */
  ghost predicate Sync(s: Net) {
    && EvGoing(s.joint.ev) && EvseGoing(s.joint.evse)
    && Follows(s.toEvse, EvScript, EvseTaken(s.joint.evse), EvSent(s.joint.ev.state))
    && Follows(s.toEv, EvseScript, EvTaken(s.joint.ev.state), EvseSent(s.joint.evse.state))
    && (forall f :: f in s.toEv && f.ValidateCnf? ==> f.result == 0)
    && OnClock(s.joint.ev, s.evSince) && OnClock(s.joint.evse, s.evseSince)
  }

  predicate OnClock(c: Ctx, since: nat) {
    Timed(c.state) ==> c.lastTime == since
  }

  lemma ClockKept(c: Ctx, e: Env, since: nat)
    requires (EvGoing(c) || EvseGoing(c)) && OnClock(c, since)
    ensures var d := Step(c, e).ctx; OnClock(d, Since(c, d, since, e.now))
  {
    hide Step;
    var d := Step(c, e).ctx;
    if d.state != c.state && Timed(d.state) {
      TimerStarts(c, e);
    } else if Timed(c.state) && d.state == c.state {
      TimerKept(c, e);
    }
  }

  /** How far a side is from its end, in steps that get it further. */
  function EvLeft(c: Ctx): nat {
    11 - Rank(c.state)
  }

  function EvseLeft(c: Ctx): nat
    requires EvseGoing(c)
  {
    11 - Rank(c.state) + if Rank(c.state) < 4 then NUM_SOUNDS
                         else if Rank(c.state) == 4 then NUM_SOUNDS - c.soundCount else 0
  }

  function TurnsLeft(s: Net): nat
    requires EvseGoing(s.joint.evse)
  {
    EvLeft(s.joint.ev) + EvseLeft(s.joint.evse)
  }

  /** Can this side get further: it has something to send, or something to take? */
  predicate Ready(c: Ctx, inbox: seq<Frame>) {
    Rank(c.state) < 11 && (Waits(c.state) ==> inbox != [])
  }

  predicate SideReady(s: Net, evTurn: bool) {
    if evTurn then Ready(s.joint.ev, s.toEv) else Ready(s.joint.evse, s.toEvse)
  }

  /** Nothing but the clocks differs. */
  predicate Idle(s: Net, t: Net) {
    && t.joint.ev == s.joint.ev && t.joint.evse == s.joint.evse && t.toEv == s.toEv && t.toEvse == s.toEvse
    && t.evSince == s.evSince && t.evseSince == s.evseSince
  }

  /** One step of the EV on a script: the frames it sends and the one it takes. */
  lemma EvStepOnScript(c: Ctx, e: Env, inbox: seq<Frame>, since: nat)
    requires EvGoing(c) && Served(c, e, inbox, since) && OnClock(c, since)
    requires inbox != [] ==> KindOf(inbox[0]) == EvseScript(EvTaken(c.state))
    requires inbox != [] && inbox[0].ValidateCnf? ==> inbox[0].result == 0
    ensures var r := EvStep(c, e);
            && EvGoing(r.ctx) && EvSent(r.ctx.state) == EvSent(c.state) + |r.sent|
            && (forall i :: 0 <= i < |r.sent| ==> KindOf(r.sent[i]) == EvScript(EvSent(c.state) + i))
            && EvTaken(r.ctx.state) == EvTaken(c.state) + (if e.recv.Some? then 1 else 0)
            && if Ready(c, inbox) then EvLeft(r.ctx) < EvLeft(c) else r == Stepped(c, []) && e.recv == None
  {
  }

  /** One step of the EVSE on its script. */
  ghost predicate EvseOnScript(c: Ctx, e: Env, inbox: seq<Frame>)
    requires EvseGoing(c)
  {
    var r := EvseStep(c, e);
    && EvseGoing(r.ctx) && EvseSent(r.ctx.state) == EvseSent(c.state) + |r.sent|
    && (forall i :: 0 <= i < |r.sent| ==> KindOf(r.sent[i]) == EvseScript(EvseSent(c.state) + i))
    && EvseTaken(r.ctx) == EvseTaken(c) + (if e.recv.Some? then 1 else 0)
    && (forall f :: f in r.sent && f.ValidateCnf? ==> f.result == 0)
    && if Ready(c, inbox) then EvseLeft(r.ctx) < EvseLeft(c) else r == Stepped(c, []) && e.recv == None
  }

  lemma EvseCollectsOnScript(c: Ctx, e: Env, inbox: seq<Frame>, since: nat)
    requires EvseGoing(c) && Served(c, e, inbox, since) && OnClock(c, since) && c.state == EvseCollectSounds
    requires inbox != [] ==> KindOf(inbox[0]) == KSound
    ensures EvseOnScript(c, e, inbox)
  {
  }

  lemma EvseTakesOnScript(c: Ctx, e: Env, inbox: seq<Frame>, since: nat)
    requires EvseGoing(c) && Served(c, e, inbox, since) && OnClock(c, since)
    requires Waits(c.state) && c.state != EvseCollectSounds
    requires inbox != [] ==> KindOf(inbox[0]) == EvScript(EvseTaken(c))
    ensures EvseOnScript(c, e, inbox)
  {
  }

  lemma EvseSendsOnScript(c: Ctx, e: Env, inbox: seq<Frame>, since: nat)
    requires EvseGoing(c) && Served(c, e, inbox, since) && OnClock(c, since) && !Waits(c.state)
    ensures EvseOnScript(c, e, inbox)
  {
  }

  lemma EvseStepOnScript(c: Ctx, e: Env, inbox: seq<Frame>, since: nat)
    requires EvseGoing(c) && Served(c, e, inbox, since) && OnClock(c, since)
    requires inbox != [] ==> KindOf(inbox[0]) == EvScript(EvseTaken(c))
    ensures EvseOnScript(c, e, inbox)
  {
    hide EvseOnScript, Served, OnClock;
    if !Waits(c.state) {
      EvseSendsOnScript(c, e, inbox, since);
    } else if c.state == EvseCollectSounds {
      EvseCollectsOnScript(c, e, inbox, since);
    } else {
      EvseTakesOnScript(c, e, inbox, since);
    }
  }

  lemma FollowsSend(inbox: seq<Frame>, script: nat -> Kind, taken: nat, sent: nat, more: seq<Frame>)
    requires Follows(inbox, script, taken, sent)
    requires forall i :: 0 <= i < |more| ==> KindOf(more[i]) == script(sent + i)
    ensures Follows(inbox + more, script, taken, sent + |more|)
  {
    var all := inbox + more;
    forall i | 0 <= i < |all|
      ensures KindOf(all[i]) == script(taken + i)
    {
      if i >= |inbox| {
        assert all[i] == more[i - |inbox|];
      }
    }
  }

  lemma FollowsTake(inbox: seq<Frame>, script: nat -> Kind, taken: nat, sent: nat)
    requires Follows(inbox, script, taken, sent) && inbox != []
    ensures Follows(inbox[1..], script, taken + 1, sent)
  {
    forall i | 0 <= i < |inbox| - 1
      ensures KindOf(inbox[1..][i]) == script(taken + 1 + i)
    {
      assert inbox[1..][i] == inbox[i + 1];
    }
  }

  /** A step of a side that can get further does so; any other changes nothing but the clock. */
  lemma EvTurnOnScript(s: Net, e: Env, t: Net)
    requires Sync(s) && EvTurn(s, e, t)
    ensures Sync(t)
    ensures if SideReady(s, true) then TurnsLeft(t) < TurnsLeft(s) else Idle(s, t)
  {
    hide EvScript, EvseScript, EvSent, EvseSent, EvTaken, EvseTaken, EvStep, EvseStep, Rank, KindOf, EvLeft;
    hide EvseLeft, Deadline, OnClock;
    var c := s.joint.ev;
    EvStepOnScript(c, e, s.toEv, s.evSince);
    ClockKept(c, e, s.evSince);
    FollowsSend(s.toEvse, EvScript, EvseTaken(s.joint.evse), EvSent(c.state), EvStep(c, e).sent);
    if e.recv.Some? {
      FollowsTake(s.toEv, EvseScript, EvTaken(c.state), EvseSent(s.joint.evse.state));
    }
  }

  lemma EvseTurnOnScript(s: Net, e: Env, t: Net)
    requires Sync(s) && EvseTurn(s, e, t)
    ensures Sync(t)
    ensures if SideReady(s, false) then TurnsLeft(t) < TurnsLeft(s) else Idle(s, t)
  {
    hide EvScript, EvseScript, EvSent, EvseSent, EvTaken, EvseTaken, EvStep, EvseStep, Rank, KindOf, EvLeft;
    hide EvseLeft, Deadline, OnClock;
    var c := s.joint.evse;
    EvseStepOnScript(c, e, s.toEvse, s.evseSince);
    ClockKept(c, e, s.evseSince);
    FollowsSend(s.toEv, EvseScript, EvTaken(s.joint.ev.state), EvseSent(c.state), EvseStep(c, e).sent);
    if e.recv.Some? {
      FollowsTake(s.toEvse, EvScript, EvseTaken(c), EvSent(s.joint.ev.state));
    }
  }

  /** No deadlock: unless both sides are matched, one of them can get further. */
  lemma NoDeadlock(s: Net)
    requires Sync(s)
    ensures BothMatched(s.joint) || SideReady(s, true) || SideReady(s, false)
  {
  }

  // ---- Whole runs ----

  /** One clean run: turn(n) tells whether step n is the EV's. */
  ghost predicate CleanRun(tr: nat -> Net, turn: nat -> bool, env: nat -> Env) {
    && Init(tr(0).joint) && tr(0).toEv == [] && tr(0).toEvse == []
    && forall n: nat :: TurnAt(tr, turn, env, n)
  }

  ghost predicate TurnAt(tr: nat -> Net, turn: nat -> bool, env: nat -> Env, n: nat) {
    Turn(tr(n), turn(n), env(n), tr(n + 1))
  }

  /** From every step on, each side gets another turn. */
  ghost predicate Fair(turn: nat -> bool) {
    forall n: nat, side: bool :: ComesAgain(turn, n, side)
  }

  ghost predicate ComesAgain(turn: nat -> bool, n: nat, side: bool) {
    exists m: nat :: n <= m && turn(m) == side
  }

  lemma TurnOnScript(tr: nat -> Net, turn: nat -> bool, env: nat -> Env, n: nat)
    requires CleanRun(tr, turn, env) && Sync(tr(n))
    ensures Sync(tr(n + 1))
    ensures if SideReady(tr(n), turn(n)) then TurnsLeft(tr(n + 1)) < TurnsLeft(tr(n)) else Idle(tr(n), tr(n + 1))
  {
    hide Sync, SideReady, TurnsLeft, Idle, EvTurn, EvseTurn;
    assert TurnAt(tr, turn, env, n);
    if turn(n) {
      EvTurnOnScript(tr(n), env(n), tr(n + 1));
    } else {
      EvseTurnOnScript(tr(n), env(n), tr(n + 1));
    }
  }

  lemma {:induction false} AlwaysSync(tr: nat -> Net, turn: nat -> bool, env: nat -> Env, n: nat)
    requires CleanRun(tr, turn, env)
    ensures Sync(tr(n))
  {
    if n > 0 {
      AlwaysSync(tr, turn, env, n - 1);
      TurnOnScript(tr, turn, env, n - 1);
    }
  }

  /** A side that can get further still can when its turn comes, or the run has got further by then. */
  lemma {:induction false} GetsFurther(tr: nat -> Net, turn: nat -> bool, env: nat -> Env, n: nat, m: nat)
    returns (k: nat)
    requires CleanRun(tr, turn, env) && n <= m && Sync(tr(n)) && SideReady(tr(n), turn(m))
    ensures n < k && Sync(tr(k)) && TurnsLeft(tr(k)) < TurnsLeft(tr(n))
    decreases m - n
  {
    hide Sync, TurnsLeft;
    TurnOnScript(tr, turn, env, n);
    AlwaysSync(tr, turn, env, n);
    AlwaysSync(tr, turn, env, n + 1);
    if SideReady(tr(n), turn(n)) {
      k := n + 1;
    } else {
      IdleKeepsLeft(tr(n), tr(n + 1));
      k := GetsFurther(tr, turn, env, n + 1, m);
    }
  }

  lemma IdleKeepsLeft(s: Net, t: Net)
    requires Sync(s) && Idle(s, t)
    ensures Sync(t) && TurnsLeft(t) == TurnsLeft(s)
  {
  }

  lemma {:induction false} MatchesFrom(tr: nat -> Net, turn: nat -> bool, env: nat -> Env, n: nat) returns (k: nat)
    requires CleanRun(tr, turn, env) && Fair(turn) && Sync(tr(n))
    ensures n <= k && BothMatched(tr(k).joint)
    decreases TurnsLeft(tr(n))
  {
    if BothMatched(tr(n).joint) {
      k := n;
    } else {
      NoDeadlock(tr(n));
      var side := SideReady(tr(n), true);
      assert ComesAgain(turn, n, side);
      var m: nat :| n <= m && turn(m) == side;
      var j := GetsFurther(tr, turn, env, n, m);
      k := MatchesFrom(tr, turn, env, j);
    }
  }

  /** The joint states of a clean run are a run of the protocol. */
  lemma CleanIsRun(tr: nat -> Net, turn: nat -> bool, env: nat -> Env, n: nat) returns (joints: seq<Joint>)
    requires CleanRun(tr, turn, env)
    ensures |joints| == n + 1 && IsRun(joints) && forall i :: 0 <= i <= n ==> joints[i] == tr(i).joint
  {
    joints := seq(n + 1, i requires 0 <= i <= n => tr(i).joint);
    forall i: nat | i + 1 < |joints|
      ensures Linked(joints, i)
    {
      assert TurnAt(tr, turn, env, i);
    }
  }

  /**
   * Every clean run in which neither side stops stepping matches both sides, at the first
   * attempt, with the same key and the same run id.
   */
  lemma CleanRunMatches(tr: nat -> Net, turn: nat -> bool, env: nat -> Env) returns (n: nat)
    requires CleanRun(tr, turn, env) && Fair(turn)
    ensures BothMatched(tr(n).joint) && tr(n).joint.ev.retryCount == 0
    ensures tr(n).joint.ev.nmk == tr(n).joint.evse.nmk && tr(n).joint.ev.nid == tr(n).joint.evse.nid
    ensures tr(n).joint.ev.runId == tr(n).joint.evse.runId
  {
    AlwaysSync(tr, turn, env, 0);
    n := MatchesFrom(tr, turn, env, 0);
    AlwaysSync(tr, turn, env, n);
    var joints := CleanIsRun(tr, turn, env, n);
    KeyAgreement(joints, n);
    OneRunIdWithoutTimeout(joints, n);
  }

  // ---- Such runs exist ----

  /** A step that takes what is next, at clock zero, and draws the run id `id` if it draws one. */
  function CleanEnv(c: Ctx, inbox: seq<Frame>, id: RunId): Env {
    World(if Waits(c.state) && inbox != [] then Some(inbox[0]) else None, 0, id)
  }

  function TurnEnv(s: Net, evTurn: bool, id: RunId): Env {
    if evTurn then CleanEnv(s.joint.ev, s.toEv, id) else CleanEnv(s.joint.evse, s.toEvse, id)
  }

  function AfterTurn(s: Net, evTurn: bool, id: RunId): Net {
    var e := TurnEnv(s, evTurn, id);
    if evTurn then
      var r := EvStep(s.joint.ev, e);
      Net(s.joint.(ev := r.ctx, wire := s.joint.wire + Frames(r.sent), evClock := 0),
          Taken(e.recv, s.toEv), s.toEvse + r.sent, 0, 0)
    else
      var r := EvseStep(s.joint.evse, e);
      Net(s.joint.(evse := r.ctx, wire := s.joint.wire + Frames(r.sent), evseClock := 0),
          s.toEv + r.sent, Taken(e.recv, s.toEvse), 0, 0)
  }

  predicate Even(n: nat) {
    n % 2 == 0
  }

  /** The sides take turns. */
  function Alternating(id: RunId, n: nat): Net {
    if n == 0 then Net(Begin(), [], [], 0, 0) else AfterTurn(Alternating(id, n - 1), Even(n - 1), id)
  }

  /** Both clocks stand at zero and what is under way was sent. */
  predicate AtZero(s: Net) {
    && s.joint.evClock == 0 && s.joint.evseClock == 0 && s.evSince == 0 && s.evseSince == 0
    && forall f :: f in s.toEv + s.toEvse ==> f in s.joint.wire
  }

  lemma TurnIsClean(s: Net, evTurn: bool, id: RunId)
    requires AtZero(s)
    ensures Turn(s, evTurn, TurnEnv(s, evTurn, id), AfterTurn(s, evTurn, id)) && AtZero(AfterTurn(s, evTurn, id))
  {
    hide EvStep, EvseStep;
  }

  lemma {:induction false} AlternatingStarted(id: RunId, n: nat)
    ensures AtZero(Alternating(id, n))
  {
    if n > 0 {
      AlternatingStarted(id, n - 1);
      TurnIsClean(Alternating(id, n - 1), Even(n - 1), id);
    }
  }

  lemma EvenIsFair()
    ensures Fair(Even)
  {
    forall n: nat, side: bool
      ensures ComesAgain(Even, n, side)
    {
      assert Even(n) == side || Even(n + 1) == side;
    }
  }

  lemma CleanRunExists(id: RunId) returns (tr: nat -> Net, turn: nat -> bool, env: nat -> Env)
    ensures CleanRun(tr, turn, env) && Fair(turn)
  {
    hide Turn, AfterTurn, TurnEnv, AtZero, Even, Fair;
    tr := (n: nat) => Alternating(id, n);
    turn := Even;
    env := (n: nat) => TurnEnv(Alternating(id, n), Even(n), id);
    assert tr(0) == Net(Begin(), [], [], 0, 0);
    forall n: nat
      ensures TurnAt(tr, turn, env, n)
    {
      AlternatingStarted(id, n);
      TurnIsClean(Alternating(id, n), Even(n), id);
      assert tr(n + 1) == AfterTurn(tr(n), turn(n), id);
    }
    EvenIsFair();
  }
}
