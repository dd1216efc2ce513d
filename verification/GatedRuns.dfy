/** The composed system together with the gate's own protocol: what the gates decide is what the system hears. */
module GatedRuns {
  import opened Policy
  import opened Ladder
  import opened Enforcer
  import opened Protocol
  import opened ProtocolRuns
  import EV = Evaluator
  import HG = HumanGates

  // ----- superseded gates -----

  /** Step j calls the cancel function of gate n, if it is still held: a confirmed tick or an override. */
  ghost predicate Cancels(r: Run, j: nat, n: nat)
    requires r.Follows()
  {
    j < |r.steps| && (r.Confirms(j) || r.Forces(j)) && n in r.states[j].fired
  }

  /** A gate is only reported superseded after its cancel function was called. */
  ghost predicate SupersededWereCancelled(r: Run)
    requires r.Follows()
  {
    forall k | 0 <= k < |r.steps| && r.steps[k].Decide? && r.steps[k].outcome.Superseded? ::
      exists j: nat | j < k :: Cancels(r, j, r.steps[k].seqNo)
  }

  predicate Numbered(s: System) {
    forall n | n in s.fired :: n <= s.gateSeq
  }

  lemma NumberedStep(u: Setup, s: System, step: Step)
    requires |u.tiers| > 0 && Numbered(s)
    ensures Numbered(Next(u, s, step))
  {
    hide Applied, QueueMoved, LockedTo, EscalatedTo, Resolved, Forced, EV.Evaluated;
    if step.Force? { ForceControl(u, s, step); }
  }

  lemma {:induction false} FiredAreNumbered(r: Run, k: nat)
    requires r.Follows() && k <= |r.steps|
    ensures Numbered(r.states[k])
  {
    if k > 0 {
      hide Next;
      FiredAreNumbered(r, k - 1);
      assert r.MovesAt(k - 1);
      NumberedStep(r.u, r.states[k - 1], r.steps[k - 1]);
    }
  }

  /** A superseded decision can only come from a gate that is no longer live: the cancel function is called
      together with dropping the gate, and a dropped gate never comes back. So every run in which gates are only
      superseded after their cancellation is a run that the lemmas about the system speak of. */
  lemma CancelledRunsAreValid(r: Run)
    requires r.Follows() && SupersededWereCancelled(r)
    ensures r.Valid()
  {
    hide Next, Run.Follows, EV.Evaluated, Dead;
    forall k | 0 <= k < |r.steps| ensures Possible(r.states[k], r.steps[k]) {
      if r.steps[k].Decide? && r.steps[k].outcome.Superseded? {
        var n := r.steps[k].seqNo;
        var j: nat :| j < k && Cancels(r, j, n);
        CancelledGateIsDead(r, j, n);
        DeadFromThenOn(r, j + 1, k, n);
        DeadIsNotLive(r.states[k], n);
      }
    }
    ValidMeansPossible(r);
  }

  lemma CancelledGateIsDead(r: Run, j: nat, n: nat)
    requires r.Follows() && Cancels(r, j, n)
    ensures Dead(r.states[j + 1], n)
  {
    hide Next, EV.Evaluated;
    FiredAreNumbered(r, j);
    assert r.MovesAt(j);
    NewProposalsKillGates(r.u, r.states[j], r.steps[j], n);
  }

  lemma DeadIsNotLive(s: System, n: nat)
    requires Dead(s, n)
    ensures !LiveGate(s, n)
  {}

  // ----- the system joined with its gates -----

  /** How a run of the gates goes with a run of the system: `seqOf` says which gate of the enforcer each fired
      gate is (goroutines may fire in another order), `at` which step of the system is the last
      begun when a gate step happens. */
  datatype Join = Join(gates: HG.Run, seqOf: map<nat, nat>, at: seq<nat>)

  /** By the time of step k, after j steps of the gates, gate g has decided what step k reports. */
  ghost predicate Reports(r: Run, join: Join, k: nat, j: nat, g: nat)
    requires r.Follows() && join.gates.Valid() && |join.at| == |join.gates.steps| && k < |r.steps| && r.steps[k].Decide?
  {
    && j <= |join.gates.steps| && (forall i | 0 <= i < j :: join.at[i] < k)
    && g in join.seqOf && join.seqOf[g] == r.steps[k].seqNo
    && g in join.gates.states[j].decided && join.gates.states[j].decided[g] == r.steps[k].outcome
  }

  ghost predicate Reported(r: Run, join: Join, k: nat)
    requires r.Follows() && join.gates.Valid() && |join.at| == |join.gates.steps| && k < |r.steps| && r.steps[k].Decide?
  {
    exists j: nat, g: nat :: Reports(r, join, k, j, g)
  }

  /** Contexts are only cancelled by the enforcer, and a decision step reports what a gate has decided. */
  ghost predicate Joined(r: Run, join: Join)
    requires r.Follows()
  {
    && join.gates.Valid() && |join.at| == |join.gates.steps|
    && (forall j | 0 <= j < |join.at| && join.gates.steps[j].Cancel? ::
          join.gates.steps[j].n in join.seqOf && Cancels(r, join.at[j], join.seqOf[join.gates.steps[j].n]))
    && (forall k | 0 <= k < |r.steps| && r.steps[k].Decide? :: Reported(r, join, k))
  }

  /** Joined with its gates, the system only ever takes possible steps. */
  lemma JoinedRunsAreValid(r: Run, join: Join)
    requires r.Follows() && Joined(r, join)
    ensures r.Valid()
  {
    hide Run.Follows, HG.Run.Valid, Cancels;
    forall k | 0 <= k < |r.steps| && r.steps[k].Decide? && r.steps[k].outcome.Superseded?
      ensures exists j: nat | j < k :: Cancels(r, j, r.steps[k].seqNo)
    {
      assert Reported(r, join, k);
      var j: nat, g: nat :| Reports(r, join, k, j, g);
      var i := HG.DecisionsHaveACause(join.gates, j, g);
      assert join.at[i] < k && Cancels(r, join.at[i], join.seqOf[g]);
    }
    CancelledRunsAreValid(r);
  }

  /** Before step k an operator answered the gate it reports on, and the answer says what the step does. */
  ghost predicate Answered(r: Run, join: Join, k: nat, i: nat)
    requires r.Follows() && Joined(r, join) && k < |r.steps| && r.steps[k].Decide?
  {
    && i < |join.at| && join.at[i] < k && join.gates.steps[i].Send?
    && join.gates.steps[i].n in join.seqOf && join.seqOf[join.gates.steps[i].n] == r.steps[k].seqNo
    && HG.Says(join.gates.steps[i].r, r.steps[k].outcome)
  }

  /** Before step k the timer of the gate it reports on fired. */
  ghost predicate RanOut(r: Run, join: Join, k: nat, i: nat)
    requires r.Follows() && Joined(r, join) && k < |r.steps| && r.steps[k].Decide?
  {
    && i < |join.at| && join.at[i] < k && join.gates.steps[i].Settle? && join.gates.steps[i].choice.TimerFired?
    && join.gates.steps[i].n in join.seqOf && join.seqOf[join.gates.steps[i].n] == r.steps[k].seqNo
    && r.steps[k].outcome.TimedOut?
  }

  /** Who can raise the applied tier into a gated tier: an override of that tier, an operator's earlier answer to
      the very gate that is open, or that gate's timer. */
  lemma RisesIntoGatedTiersHaveACause(r: Run, join: Join, k: nat) returns (i: nat)
    requires r.Follows() && Joined(r, join) && k < |r.steps|
    requires var i := r.states[k + 1].appliedIdx;
      r.states[k].appliedIdx < i && 0 <= i < |r.u.tiers| && r.u.tiers[i].gateSpec.Some?
    ensures Sanctions(r.u, r.states[k], r.steps[k], r.states[k + 1].applied)
    ensures || r.steps[k].Force?
            || (r.steps[k].Decide? && LiveGate(r.states[k], r.steps[k].seqNo)
                  && (Answered(r, join, k, i) || RanOut(r, join, k, i)))
  {
    hide Run.Valid, HG.Run.Valid, Next, Joint, Cancels, WellFormed, GateSpecOf;
    i := 0;
    JoinedRunsAreValid(r, join);
    JointInvariant(r, k);
    StepTaken(r, k);
    RisesIntoGatedTiersAreSanctioned(r.u, r.states[k], r.steps[k]);
    if r.steps[k].Decide? {
      assert Reported(r, join, k);
      var j: nat, g: nat :| Reports(r, join, k, j, g);
      i := HG.DecisionsHaveACause(join.gates, j, g);
    }
  }

  /** What the words of an operator do when they are reported on the open gate: "override" applies and locks a
      declared target for the asked minutes, or holds where it is; "escalate" applies and locks the top tier; any
      other word applies the pending tier. Without an answer, the gate's timer ran out. */
  lemma AnswersTakeEffect(r: Run, join: Join, k: nat) returns (i: nat)
    requires r.Follows() && Joined(r, join) && k < |r.steps|
    requires r.steps[k].Decide? && LiveGate(r.states[k], r.steps[k].seqNo)
    ensures RanOut(r, join, k, i) || Answered(r, join, k, i)
    ensures !RanOut(r, join, k, i) ==>
      var s, s', now := r.states[k], r.states[k + 1], r.steps[k].now;
      var a := join.gates.steps[i].r;
      var hold := if r.u.hold > 0 then r.u.hold else 600_000_000_000;
      match a.action
      case "override" =>
        if exists t | 0 <= t < |r.u.tiers| :: r.u.tiers[t].name == a.target
        then HeldAt(s', a.target, now + (if a.durationMin > 0 then a.durationMin * 60_000_000_000 else hold))
        else HeldAt(s', s.applied, now + hold)
      case "escalate" => HeldAt(s', r.u.tiers[|r.u.tiers| - 1].name, now + hold)
      case _ => s'.applied == s.pending && s'.pending == ""
  {
    hide Run.Valid, HG.Run.Valid, Next, Joint, Cancels, WellFormed, HeldAt;
    JoinedRunsAreValid(r, join);
    JointInvariant(r, k);
    StepTaken(r, k);
    assert Reported(r, join, k);
    var j: nat, g: nat :| Reports(r, join, k, j, g);
    i := HG.DecisionsHaveACause(join.gates, j, g);
    DecisionTable(r.u, r.states[k], r.steps[k].outcome, r.steps[k].now);
  }

  /** However often a gate is reported on, it is with the same outcome. */
  lemma OneOutcomePerGate(r: Run, join: Join, k: nat, l: nat)
    requires r.Follows() && Joined(r, join) && k < |r.steps| && l < |r.steps|
    requires r.steps[k].Decide? && r.steps[l].Decide? && r.steps[k].seqNo == r.steps[l].seqNo
    requires forall g, h | g in join.seqOf && h in join.seqOf && join.seqOf[g] == join.seqOf[h] :: g == h
    ensures r.steps[k].outcome == r.steps[l].outcome
  {
    hide Run.Follows, HG.Run.Valid, Cancels;
    assert Reported(r, join, k) && Reported(r, join, l);
    var j: nat, g: nat :| Reports(r, join, k, j, g);
    var i: nat, h: nat :| Reports(r, join, l, i, h);
    if j <= i { HG.DecisionsAreFinal(join.gates, j, i, g); } else { HG.DecisionsAreFinal(join.gates, i, j, g); }
  }
}
