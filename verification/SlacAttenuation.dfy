/** The 8-bit attenuation arithmetic, and exactly when its reported averages are right. */
module SlacAttenuation {
  import opened Bytes
  import opened SlacTypes
  import opened SlacSpec
  import opened SlacTermination

  /** The true sum of group g over a list of measurements. */
  function GroupSum(samples: seq<Rands>, g: nat): (n: nat)
    requires g < NUM_GROUPS
    ensures 20 * |samples| <= n <= 39 * |samples|
  {
    if samples == [] then 0
    else GroupSum(samples[..|samples| - 1], g) + Sample(samples[|samples| - 1][g])
  }

  /** The accumulators after a list of measurements, from zero. */
  function AccumulateAll(samples: seq<Rands>): Groups {
    if samples == [] then seq(NUM_GROUPS, _ => 0)
    else Accumulate(AccumulateAll(samples[..|samples| - 1]), samples[|samples| - 1])
  }

  lemma AddModulo(a: nat, b: nat)
    ensures (a % 256 + b) % 256 == (a + b) % 256
  {
  }

  lemma {:induction false} AccumulatedModulo(samples: seq<Rands>, g: nat)
    requires g < NUM_GROUPS
    ensures AccumulateAll(samples)[g] == GroupSum(samples, g) % 256
  {
    if samples != [] {
      var init, last := samples[..|samples| - 1], samples[|samples| - 1];
      AccumulatedModulo(init, g);
      AddModulo(GroupSum(init, g), Sample(last[g]));
    }
  }

  /** The measurements an EVSE run has taken in its first n steps. */
  ghost function Samples(tr: nat -> Ctx, env: nat -> Env, n: nat): seq<Rands> {
    if n == 0 then []
    else Samples(tr, env, n - 1) + if TakesSample(tr(n - 1), env(n - 1)) then [env(n - 1).rands] else []
  }

  predicate TakesSample(c: Ctx, e: Env) {
    c.state == EvseCollectSounds && e.recv.Some? && e.recv.value.Sound?
  }

  /** The measurements a context holds, as they show in its fields. */
  predicate Holds(c: Ctx, samples: seq<Rands>) {
    && c.aag == AccumulateAll(samples) && c.soundCount == |samples| <= NUM_SOUNDS
    && (c.state == EvseWaitParmReq || c.state == EvseSendParmCnf || c.state == EvseWaitStartAtten ==> samples == [])
    && (c.state == EvseCollectSounds ==> |samples| < NUM_SOUNDS)
    && (c.state == EvseSendAttenChar ==> 1 <= |samples|)
  }

  lemma HoldsStep(c: Ctx, e: Env, samples: seq<Rands>)
    requires !c.isEv && Running(c) && Holds(c, samples)
    ensures Holds(EvseStep(c, e).ctx, samples + if TakesSample(c, e) then [e.rands] else [])
  {
    if TakesSample(c, e) {
      var all := samples + [e.rands];
      assert all[..|all| - 1] == samples;
    } else {
      hide AccumulateAll;
      assert samples + [] == samples;
    }
  }

  /** At every step the accumulators are the sums of the measurements, modulo 256. */
  lemma {:induction false} RunHolds(c: Ctx, tr: nat -> Ctx, env: nat -> Env, n: nat)
    requires !c.isEv && tr(0) == Started(c) && Trajectory(tr, env)
    ensures Holds(tr(n), Samples(tr, env, n))
    ensures forall g :: 0 <= g < NUM_GROUPS ==> tr(n).aag[g] == GroupSum(Samples(tr, env, n), g) % 256
  {
    if n > 0 {
      RunHolds(c, tr, env, n - 1);
      AlwaysRunning(tr, env, n - 1);
      assert StepsAt(tr, env, n - 1);
      HoldsStep(tr(n - 1), env(n - 1), Samples(tr, env, n - 1));
    }
    forall g | 0 <= g < NUM_GROUPS
      ensures tr(n).aag[g] == GroupSum(Samples(tr, env, n), g) % 256
    {
      AccumulatedModulo(Samples(tr, env, n), g);
    }
  }

  lemma Scale(x: int, y: int, k: nat)
    ensures x <= y ==> x * k <= y * k
  {
  }

  lemma QuotientBetween(a: nat, k: nat, lo: int, hi: int)
    requires k > 0 && lo * k <= a < (hi + 1) * k
    ensures lo <= a / k <= hi
  {
    var q := a / k;
    assert q * k <= a < (q + 1) * k;
    Scale(q + 1, lo, k);
    Scale(hi + 1, q, k);
  }

  /** One group's report: exact, and in the range of a measurement, exactly up to a sum of 255. */
  lemma ReportExactIff(total: nat, k: nat)
    requires 1 <= k <= NUM_SOUNDS && 20 * k <= total <= 39 * k
    ensures total % 256 / k == total / k <==> total <= 255
    ensures 20 <= total % 256 / k <= 39 <==> total <= 255
    ensures k <= 6 ==> total <= 255
  {
    QuotientBetween(total, k, 20, 39);
    if total > 255 {
      assert total % 256 == total - 256;
      QuotientBetween(total - 256, k, 0, 19);
    } else {
      assert total % 256 == total;
    }
  }

  /**
   * What an EVSE run puts into ATTEN_CHAR.IND: between one and ten sounds, and for every
   * group the floor of the true average if and only if the true sum fits in a byte.
   */
  lemma ReportedAverages(c: Ctx, tr: nat -> Ctx, env: nat -> Env, n: nat, f: Frame, g: nat)
    requires !c.isEv && tr(0) == Started(c) && Trajectory(tr, env)
    requires tr(n).state == EvseSendAttenChar && f in EvseStep(tr(n), env(n)).sent && g < NUM_GROUPS
    ensures f.AttenChar?
    ensures var s := Samples(tr, env, n);
            && 1 <= f.numSounds == |s| <= 10 && |f.aag| == 58
            && f.aag[g] == GroupSum(s, g) % 256 / |s|
            && (f.aag[g] == GroupSum(s, g) / |s| <==> GroupSum(s, g) <= 255)
            && (20 <= f.aag[g] <= 39 <==> GroupSum(s, g) <= 255)
            && (|s| <= 6 ==> GroupSum(s, g) <= 255)
  {
    RunHolds(c, tr, env, n);
    var s := Samples(tr, env, n);
    ReportExactIff(GroupSum(s, g), |s|);
  }

  /** Six is tight: seven measurements of 39 dB are reported as an average of 2 dB. */
  lemma SevenSoundsMisreported() returns (s: seq<Rands>)
    ensures |s| == 7
    ensures forall g :: 0 <= g < NUM_GROUPS ==>
              GroupSum(s, g) / 7 == 39 && Averaged(AccumulateAll(s), 7)[g] == 2
  {
    var loud: Rands := seq(NUM_GROUPS, _ => 19);
    s := [loud, loud, loud, loud, loud, loud, loud];
    forall g | 0 <= g < NUM_GROUPS
      ensures GroupSum(s, g) / 7 == 39 && Averaged(AccumulateAll(s), 7)[g] == 2
    {
      SumOfEqual(s, g, 19);
      AccumulatedModulo(s, g);
    }
  }

  /** What an EVSE is to receive for that: a PARM.REQ, START_ATTEN and seven loud sounds, then silence. */
  function SevenSoundsEnv(n: nat, src: Mac, id: RunId): Env {
    var recv := if n == 0 then Some(ParmReq(src, id))
                else if n == 2 then Some(StartAtten(src, id))
                else if 3 <= n < 10 then Some(Sound(src, 0, id)) else None;
    Env(recv, 1000 * n, 1, id, seq(16, _ => 0), [0, 0, 0, 0, 0, 0, 0], Loud())
  }

  function Loud(): Rands {
    seq(NUM_GROUPS, _ => 19)
  }

  /** Where that run is after n steps. */
  predicate SevenSoundsPhase(c: Ctx, n: nat) {
    && !c.isEv && (2 <= n ==> c.lastTime <= 2000)
    && c.state == (if n == 0 then EvseWaitParmReq else if n == 1 then EvseSendParmCnf
                   else if n == 2 then EvseWaitStartAtten else if n <= 10 then EvseCollectSounds
                   else EvseSendAttenChar)
    && (3 <= n ==> c.soundCount == if n <= 10 then n - 3 else 7)
  }

  lemma SevenSoundsStep(c: Ctx, src: Mac, id: RunId, n: nat)
    requires SevenSoundsPhase(c, n) && n <= 10
    ensures SevenSoundsPhase(Step(c, SevenSoundsEnv(n, src, id)).ctx, n + 1)
    ensures TakesSample(c, SevenSoundsEnv(n, src, id)) <==> 3 <= n < 10
  {
    hide Accumulate, Loud;
  }

  lemma {:induction false} SevenSoundsAt(c: Ctx, tr: nat -> Ctx, env: nat -> Env, src: Mac, id: RunId, n: nat)
    requires !c.isEv && tr(0) == Started(c) && Trajectory(tr, env) && n <= 11
    requires forall i: nat :: env(i) == SevenSoundsEnv(i, src, id)
    ensures SevenSoundsPhase(tr(n), n)
    ensures Samples(tr, env, n) == seq(if n <= 3 then 0 else if n <= 10 then n - 3 else 7, _ => Loud())
  {
    hide Loud, Step, SevenSoundsPhase, TakesSample;
    if n == 0 {
      SevenSoundsStart(c);
    } else {
      SevenSoundsAt(c, tr, env, src, id, n - 1);
      assert StepsAt(tr, env, n - 1);
      SevenSoundsStep(tr(n - 1), src, id, n - 1);
      assert env(n - 1).rands == Loud();
    }
  }

  lemma SevenSoundsStart(c: Ctx)
    requires !c.isEv
    ensures SevenSoundsPhase(Started(c), 0)
  {
  }

  lemma SevenSoundsReport(c: Ctx, tr: nat -> Ctx, env: nat -> Env) returns (f: Frame)
    requires !c.isEv && tr(0) == Started(c) && Trajectory(tr, env)
    requires tr(11).state == EvseSendAttenChar && env(11).sendOk > 0
    requires Samples(tr, env, 11) == seq(7, _ => Loud())
    ensures f in EvseStep(tr(11), env(11)).sent && f.AttenChar? && f.numSounds == 7
    ensures forall s :: s in Samples(tr, env, 11) ==> forall g :: 0 <= g < NUM_GROUPS ==> Sample(s[g]) == 39
    ensures forall g :: 0 <= g < NUM_GROUPS ==> f.aag[g] == 2
  {
    hide Samples;
    var s := Samples(tr, env, 11);
    RunHolds(c, tr, env, 11);
    f := EvseStep(tr(11), env(11)).sent[0];
    forall g | 0 <= g < NUM_GROUPS
      ensures f.aag[g] == 2
    {
      SumOfEqual(s, g, 19);
    }
  }

  /** On a run: the EVSE reports an average of 2 dB in every group, where 39 dB was measured each time. */
  lemma SevenSoundsRun(c: Ctx, src: Mac, id: RunId) returns (tr: nat -> Ctx, env: nat -> Env, f: Frame)
    requires !c.isEv
    ensures tr(0) == Started(c) && Trajectory(tr, env) && f in EvseStep(tr(11), env(11)).sent
    ensures f.AttenChar? && f.numSounds == 7
    ensures forall s :: s in Samples(tr, env, 11) ==> forall g :: 0 <= g < NUM_GROUPS ==> Sample(s[g]) == 39
    ensures forall g :: 0 <= g < NUM_GROUPS ==> f.aag[g] == 2
  {
    env := (n: nat) => SevenSoundsEnv(n, src, id);
    tr := RunFrom(Started(c), env);
    RunFromIsTrajectory(Started(c), env);
    assert tr(0) == Started(c);
    SevenSoundsAt(c, tr, env, src, id, 11);
    f := SevenSoundsReport(c, tr, env);
  }

  lemma {:induction false} SumOfEqual(s: seq<Rands>, g: nat, r: nat)
    requires g < NUM_GROUPS && forall i :: 0 <= i < |s| ==> s[i][g] == r
    ensures GroupSum(s, g) == |s| * Sample(r)
  {
    if s != [] {
      SumOfEqual(s[..|s| - 1], g, r);
    }
  }
}
