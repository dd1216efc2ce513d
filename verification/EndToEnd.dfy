/** From compile time to enforcement: what a run over a compiled policy may rely on. */
module EndToEnd {
  import opened Policy
  import opened Ladder
  import opened Intervals
  import opened TierGaps
  import opened Validator
  import opened Compiler
  import opened Scenario
  import opened Enforcer
  import opened Protocol
  import opened ProtocolRuns
  import Q = WriteQueue

  /** A run of the system whose ladder was emitted by the compiler. */
  ghost predicate RunsPolicy(p: DegradationPolicy, r: Run) {
    Acceptable(p) && r.Valid() && r.u.tiers == LadderOf(p)
  }

  /** The reading is one the compiled single-signal ladder has to cover. */
  ghost predicate InLadder(p: DegradationPolicy, signal: string, vals: Snapshot)
    requires SingleSignal(p.tiers, signal)
  {
    signal in vals && ReachesLadder(p.tiers, signal, vals[signal])
  }

  /** The own condition of the tier called `name` holds. */
  ghost predicate OwnConditionHolds(p: DegradationPolicy, name: string, vals: Snapshot) {
    exists t | t in p.tiers :: t.name == name && EvalCondition(t.when, vals)
  }

  lemma MatchedInLadderHoldsItself(p: DegradationPolicy, signal: string, vals: Snapshot)
    requires Acceptable(p) && SingleSignal(p.tiers, signal) && IgnoredBoundsImpliedEverywhere(p.tiers, signal)
    requires InLadder(p, signal, vals)
    ensures OwnConditionHolds(p, MatchTier(LadderOf(p), vals), vals)
  {
    AcceptedLadderHasNoHoles(p, signal, vals);
    CompiledLadderIsWellFormed(p);
    MatchTierIsMostDegraded(LadderOf(p), vals);
    var m := MatchIndex(LadderOf(p), vals);
    assert p.tiers[m] in p.tiers && p.tiers[m].name == MatchTier(LadderOf(p), vals);
  }

  /** At every tick from i to m whose reading lies in the ladder, the own condition of `to` held. */
  ghost predicate ByOwnCondition(p: DegradationPolicy, r: Run, i: nat, m: nat, to: string, signal: string)
    requires SingleSignal(p.tiers, signal) && m < |r.steps|
  {
    forall k | i <= k <= m && r.steps[k].Tick? && InLadder(p, signal, r.steps[k].vals) ::
      OwnConditionHolds(p, to, r.steps[k].vals)
  }

  /** While readings lie in the ladder, no tier is enforced through the silent fallback: on an accepted
      single-signal ladder, a change of the applied tier that nobody chose was earned by a window of ticks at each
      of which, wherever the reading lies in the ladder, the new tier's own condition held; nothing was confirmed
      or forced between that window and the change. */
  lemma NoMoveByFallback(p: DegradationPolicy, r: Run, n: nat, signal: string) returns (m: nat, i: nat)
    requires RunsPolicy(p, r) && Monotone(r)
    requires SingleSignal(p.tiers, signal) && IgnoredBoundsImpliedEverywhere(p.tiers, signal)
    requires n < |r.steps| && r.states[n + 1].applied != r.states[n].applied
    ensures var to := r.states[n + 1].applied;
      || Chosen(r.u, r.states[n], r.steps[n], to)
      || (i <= m <= n && r.Confirms(m) && Earned(r, i, m, to) && ByOwnCondition(p, r, i, m, to, signal)
            && (forall k | m < k < n :: !r.Confirms(k) && !r.Forces(k)))
  {
    m, i := EveryMoveIsJustified(r, n);
    var to := r.states[n + 1].applied;
    if !Chosen(r.u, r.states[n], r.steps[n], to) {
      forall k | i <= k <= m && r.steps[k].Tick? && InLadder(p, signal, r.steps[k].vals)
        ensures OwnConditionHolds(p, to, r.steps[k].vals)
      {
        MatchedInLadderHoldsItself(p, signal, r.steps[k].vals);
      }
    }
  }

  // ----- what the policy declares is what is enforced -----

  lemma LadderCopiesThePolicy(p: DegradationPolicy)
    ensures |LadderOf(p)| == |p.tiers|
    ensures forall i | 0 <= i < |p.tiers| ::
      var t := LadderOf(p)[i];
      && t.name == p.tiers[i].name && t.condition == p.tiers[i].when
      && t.behavior == p.tiers[i].behavior && t.gateSpec == p.tiers[i].humanGate
  {}

  /** A tier for which the policy declares a human gate is only ever entered from below by an override of it or by
      a decision of the gate that is open. */
  lemma DeclaredGatesAreAsked(p: DegradationPolicy, r: Run, n: nat)
    requires RunsPolicy(p, r) && n < |r.steps|
    requires var i := r.states[n + 1].appliedIdx;
      r.states[n].appliedIdx < i && 0 <= i < |p.tiers| && p.tiers[i].humanGate.Some?
    ensures Sanctions(r.u, r.states[n], r.steps[n], r.states[n + 1].applied)
  {
    hide Joint, Next, WellFormed, Acceptable;
    LadderCopiesThePolicy(p);
    JointInvariant(r, n);
    StepTaken(r, n);
    RisesIntoGatedTiersAreSanctioned(r.u, r.states[n], r.steps[n]);
  }

  /** A confirmed tick that matches tier i of the policy from below holds it behind a gate of the policy's own spec
      when there is one, and applies it at once when there is none. */
  lemma DeclaredGatesHold(p: DegradationPolicy, r: Run, n: nat, i: nat)
    requires RunsPolicy(p, r) && n < |r.steps| && r.Confirms(n) && i < |p.tiers|
    requires r.states[n].appliedIdx < i && p.tiers[i].name == MatchTier(LadderOf(p), r.steps[n].vals)
    ensures var s, s' := r.states[n], r.states[n + 1];
      match p.tiers[i].humanGate
      case Some(spec) => && s'.applied == s.applied && s'.pending == p.tiers[i].name
                         && s'.fired == s.fired[s.gateSeq + 1 := Gate(p.tiers[i].name, spec)]
      case None => s'.applied == p.tiers[i].name && s'.pending == "" && s'.fired == s.fired
  {
    hide Joint, Next, WellFormed, Acceptable;
    LadderCopiesThePolicy(p);
    JointInvariant(r, n);
    StepTaken(r, n);
    TransitionTable(r.u, r.states[n], r.steps[n].vals, r.steps[n].now, i);
  }

  /** In every reachable state mode, flags and buffering are what the policy declares for the applied tier. */
  lemma DeclaredBehaviourIsServed(p: DegradationPolicy, r: Run, n: nat)
    requires RunsPolicy(p, r) && n <= |r.steps|
    ensures 0 <= r.states[n].appliedIdx < |p.tiers|
    ensures var s, t := r.states[n], p.tiers[r.states[n].appliedIdx];
      && s.applied == t.name && s.flags.tier == t.name
      && s.flags.mode == (if t.behavior.mode == "" then "full_service" else t.behavior.mode)
      && (forall f :: f in s.flags.features <==> exists t' :: t' in p.tiers && f in t'.behavior.disable)
      && (forall f | f in s.flags.features ::
            s.flags.features[f] <==> t.behavior.mode in {"", "full_service"} && f !in t.behavior.disable)
      && (s.queue.Some? && t.behavior.queueWrites.None? ==> s.queue.value.items == [])
  {
    hide Joint, Next, WellFormed, Acceptable;
    LadderCopiesThePolicy(p);
    OutputsTrackAppliedTier(r, n);
    var s := r.states[n];
    forall f
      ensures f in s.flags.features <==> exists t' :: t' in p.tiers && f in t'.behavior.disable
    {
      if t' :| t' in LadderOf(p) && f in t'.behavior.disable {
        var k :| 0 <= k < |p.tiers| && LadderOf(p)[k] == t';
        assert p.tiers[k] in p.tiers;
      }
      if t' :| t' in p.tiers && f in t'.behavior.disable {
        var k :| 0 <= k < |p.tiers| && p.tiers[k] == t';
        assert LadderOf(p)[k] in LadderOf(p);
      }
    }
  }

  /** A write is buffered exactly while the policy declares a queue for the applied tier and there is room among the
      live writes. */
  lemma DeclaredQueuesBuffer(p: DegradationPolicy, r: Run, n: nat)
    requires RunsPolicy(p, r) && n < |r.steps| && r.steps[n].WriteReq? && r.states[n].queue.Some?
    ensures 0 <= r.states[n].appliedIdx < |p.tiers|
    ensures var q := r.states[n].queue.value;
      var live := Q.Kept(q.items, q.ttl, r.steps[n].now);
      var written := r.steps[n].w.(enqueuedAt := r.steps[n].stamp);
      var buffered := q.(items := live + [written], dropped := q.dropped + (|q.items| - |live|));
      && (r.states[n + 1].queue == Some(buffered) <==>
            p.tiers[r.states[n].appliedIdx].behavior.queueWrites.Some? && |live| < q.maxDepth)
  {
    hide Next, WellFormed, Acceptable, Q.Kept, Joint, LadderOf;
    LadderCopiesThePolicy(p);
    JointInvariant(r, n);
    StepTaken(r, n);
    OutputsTrackAppliedTier(r, n);
    WriteTable(r.u, r.states[n], r.steps[n].w, r.steps[n].now, r.steps[n].stamp);
  }

  // ----- an accepted tier without a scenario -----

  function AtMost(v: real): Comparator { Comparator(None, Some(v), None, None, None) }

  /** { lte: -5 } and { gt: -5 }. */
  function NegativePolicy(signal: string): DegradationPolicy {
    SmallPolicy([signal], [FlatTier("low", signal, AtMost(-5.0)), FlatTier("high", signal, Above(-5.0))])
  }

  lemma NegativeRanges(signal: string)
    ensures SingleSignal(NegativePolicy(signal).tiers, signal)
    ensures SignalRanges(NegativePolicy(signal).tiers, signal) == [
              TierInterval("low", Interval(NegInf, Fin(-5.0), false, true)),
              TierInterval("high", Interval(Fin(-5.0), PosInf, false, false))]
  {}

  lemma NegativePolicyIsAccepted(signal: string)
    ensures Acceptable(NegativePolicy(signal))
  {
    var p := NegativePolicy(signal);
    FlatTierIsAcceptable(p, "low", signal, AtMost(-5.0));
    FlatTierIsAcceptable(p, "high", signal, Above(-5.0));
    NegativeRanges(signal);
    DetectorSweepsSignalRanges(p.tiers, signal);
    MeetingRangesAreSilent("low", "high", -5.0, true);
    NoGapsMeansSilence(p.tiers);
    hide NoGaps, AcceptableTier, SignalRanges, DetectedGaps, StableSorted, Swept, Acceptable;
    LowHighIsAcceptable([signal], signal, signal, AtMost(-5.0), Above(-5.0));
  }

  lemma FlatConditions(c: Condition, signal: string)
    requires c.allOf == [] && c.anyOf == [] && signal in c.comparisons
    ensures Linear(c) && OneBranch(c)
    ensures Pickable(c) ==> EvalComparator(PickValue(c.comparisons[signal]), c.comparisons[signal])
  {}

  /** The second tier of this accepted policy holds at 0, but its lone gt gets -5.5, which does not land on it,
      so the generator returns nothing. */
  lemma AcceptedTierWithoutScenario(signal: string)
    ensures var p := NegativePolicy(signal);
      && Acceptable(p)
      && MatchTier(LadderOf(p), map[signal := 0.0]) == p.tiers[1].name
      && p.tiers[1].when.anyOf == [] && !LandsOn(BundleOf(p), 1, p.tiers[1].when)
  {
    var p := NegativePolicy(signal);
    NegativePolicyIsAccepted(signal);
    CompiledLadderIsWellFormed(p);
    var b, c := BundleOf(p), p.tiers[1].when;
    var zero: Snapshot := map[signal := 0.0];
    FlatTierHolds("high", signal, Above(-5.0), zero);
    FlatConditions(c, signal);
    assert PickValue(Above(-5.0)) == -5.5;
    assert !EvalComparator(PickValue(c.comparisons[signal]), c.comparisons[signal]);
    hide Acceptable, EvalCondition, Linear, OneBranch, Pickable;
    assert b.tiers[1].condition == c;
    ScenarioExists(b, 1, c);
    MatchFromIsGreatest(b.tiers, 2, zero);
  }
}
