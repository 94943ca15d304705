/** The attenuation profile the EV takes over is the one its EVSE averaged. */
module SlacProfile {
  import opened Bytes
  import opened SlacTypes
  import opened SlacSpec
  import opened SlacProtocol
  import opened SlacCausality

  function Report(c: Ctx): Groups {
    Averaged(c.aag, c.soundCount)
  }

  /** Has this EVSE's sound collection been reported, so that its measurements are final? */
  predicate Reported(s: SlacState) {
    Rank(s) >= 6 || s == EvseFailed
  }

  ghost predicate ProfileInv(s: Joint) {
    && (forall f :: f in s.wire && f.AttenChar? ==>
          Reported(s.evse.state) && f.aag == Report(s.evse) && f.numSounds == s.evse.soundCount)
    && (Rank(s.ev.state) >= 6 ==> Reported(s.evse.state) && s.ev.aag == Report(s.evse))
  }

  lemma EvProfileStep(s: Joint, e: Env, t: Joint)
    requires RoleInv(s) && ProfileInv(s) && EvMoves(s, e, t)
    ensures ProfileInv(t)
  {
    hide Averaged;
    EvSends(s.ev, e);
  }

  /** Once reported the measurements stay; only the reporting step itself sends an ATTEN_CHAR.IND. */
  lemma ReportStep(c: Ctx, e: Env)
    requires !EvState(c.state)
    ensures var r := EvseStep(c, e);
            && (Reported(c.state) ==> Reported(r.ctx.state) && r.ctx.aag == c.aag && r.ctx.soundCount == c.soundCount)
            && forall f :: f in r.sent && f.AttenChar? ==>
                 Reported(r.ctx.state) && f.aag == Report(r.ctx) && f.numSounds == r.ctx.soundCount
  {
    hide Averaged;
  }

  lemma EvseProfileStep(s: Joint, e: Env, t: Joint)
    requires RoleInv(s) && ProfileInv(s) && EvseMoves(s, e, t)
    ensures ProfileInv(t)
  {
    hide EvseStep, Averaged, Rank;
    ReportStep(s.evse, e);
  }

  lemma NextProfile(s: Joint, t: Joint)
    requires Inv(s) && ProfileInv(s) && Next(s, t)
    ensures ProfileInv(t)
  {
    hide EvMoves, EvseMoves, ProfileInv, KeyInv, AddressInv, RunIdInv, FirstAttemptInv, RoleInv;
    var e: Env :| EvMoves(s, e, t) || EvseMoves(s, e, t);
    if EvMoves(s, e, t) {
      EvProfileStep(s, e, t);
    } else {
      EvseProfileStep(s, e, t);
    }
  }

  lemma {:induction false} RunProfile(tr: seq<Joint>, i: nat)
    requires IsRun(tr) && i < |tr|
    ensures ProfileInv(tr[i])
  {
    hide ProfileInv, Inv, Next, Init;
    if i == 0 {
      InitProfile(tr[0]);
    } else {
      RunProfile(tr, i - 1);
      RunInv(tr, i - 1);
      assert Linked(tr, i - 1);
      NextProfile(tr[i - 1], tr[i]);
    }
  }

  lemma InitProfile(s: Joint)
    requires Init(s)
    ensures ProfileInv(s)
  {
  }

  /** An EV past the profile holds just what its EVSE averaged, in every run. */
  lemma ProfileAgreement(tr: seq<Joint>, i: nat)
    requires IsRun(tr) && i < |tr| && Rank(tr[i].ev.state) >= 6
    ensures tr[i].ev.aag == Averaged(tr[i].evse.aag, tr[i].evse.soundCount)
  {
    RunProfile(tr, i);
  }
}
