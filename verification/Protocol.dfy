/** The synchronous composition: evaluator ticks, gate decisions, overrides and buffered writes, one atomic
    step at a time and in any order. A confirmed tick and its HandleTransition are one step; a gate's decision
    is a separate step that may come at any later time, more than once, and long after the gate was replaced. */
module Protocol {
  import opened Policy
  import opened Ladder
  import opened Enforcer
  import EV = Evaluator
  import ER = EvaluatorRuns
  import Q = WriteQueue
  import SC = Sidecar

  datatype Step =
    | Tick(now: int, vals: Snapshot)
    | Decide(now: int, seqNo: nat, outcome: Outcome)
    | Force(now: int, tier: string, duration: int, reason: string)
    | Release(now: int)
    | WriteReq(now: int, w: Q.Write, stamp: int)
    | ReadDepth(now: int)

  function Evaluated(u: Setup, s: System, vals: Snapshot, now: int): (EV.State, bool) {
    EV.Evaluated(u.tiers, u.cfg, s.ev, vals, now)
  }

  function Next(u: Setup, s: System, step: Step): System
    requires |u.tiers| > 0
  {
    match step
    case Tick(now, vals) =>
      var (ev, changed) := Evaluated(u, s, vals, now);
      var s := s.(ev := ev);
      if changed then Transitioned(u, s, ev.current, now) else s
    case Decide(now, n, o) => if n in s.fired then Resolved(u, s, n, s.fired[n], o, now) else s
    case Force(now, tier, d, reason) => Forced(u, s, tier, d, reason, now).0
    case Release(_) => Released(s)
    case WriteReq(now, w, stamp) =>
      if QueueActive(u, s) then s.(queue := Some(Q.Enqueued(s.queue.value, w, now, stamp).0)) else s
    case ReadDepth(now) => if s.queue.Some? then s.(queue := Some(Q.Evicted(s.queue.value, now))) else s
  }

  /** A gate is only ever reported superseded after it was cancelled. */
  predicate Possible(s: System, step: Step) {
    step.Decide? && step.outcome.Superseded? ==> !LiveGate(s, step.seqNo)
  }

  // ----- the steps over the objects -----

  method TickStep(e: Enforcer, vals: Snapshot, now: int)
    requires e.Valid()
    modifies e.Repr()
    ensures e.Valid() && fresh(e.Repr() - old(e.Repr()))
    ensures e.Fields() == Next(e.u, old(e.Fields()), Tick(now, vals))
  {
    var to, changed := e.locker.Evaluate(vals, now);
    if changed { e.HandleTransition(to, now); }
  }

  method DecideStep(e: Enforcer, seqNo: nat, o: Outcome, now: int)
    requires e.Valid()
    modifies e.Repr()
    ensures e.Valid() && fresh(e.Repr() - old(e.Repr()))
    ensures e.Fields() == Next(e.u, old(e.Fields()), Decide(now, seqNo, o))
  {
    if seqNo in e.fired { e.ResolveGate(seqNo, e.fired[seqNo], o, now); }
  }

  /** The write endpoint: refused unless the applied tier buffers writes; an accepted write is answered with the
      depth, whose reading evicts once more, in a section of its own. */
  method HandleWrite(e: Enforcer, w: Q.Write, now: int, stamp: int, readAt: int) returns (depth: Option<nat>)
    requires e.Valid()
    modifies e.Repr()
    ensures e.Valid() && fresh(e.Repr() - old(e.Repr()))
    ensures var written := Next(e.u, old(e.Fields()), WriteReq(now, w, stamp));
      e.Fields() == if depth.Some? then Next(e.u, written, ReadDepth(readAt)) else written
    ensures depth.Some? <==>
      QueueActive(e.u, old(e.Fields())) && Q.Enqueued(old(e.Fields()).queue.value, w, now, stamp).1
    ensures depth.Some? ==> depth.value == |e.Fields().queue.value.items|
  {
    hide Q.Enqueued, Q.Evicted, QueueTier, Applied, Resolved, Forced, EV.Evaluated, Transitioned;
    if e.queue == null || !QueueTier(e.u.tiers, e.applied) { return None; }
    var ok := e.queue.Enqueue(w, now, stamp);
    if !ok { return None; }
    var n := e.queue.Depth(readAt);
    return Some(n);
  }

  // ----- the joint invariant -----

  /** transition events form an unbroken chain from `first` to `last`, without self-loops. */
  predicate Chain(audit: seq<Event>, first: string, last: string)
    decreases |audit|
  {
    if audit == [] then first == last else
    var e := audit[|audit| - 1];
    if e.Transition? then e.to == last && e.from != e.to && Chain(audit[..|audit| - 1], first, e.from)
    else Chain(audit[..|audit| - 1], first, last)
  }

  /** What is applied is declared, and every output shows it. */
  ghost predicate OutputsTrack(u: Setup, s: System) {
    && WellFormed(u.tiers)
    && 0 <= s.appliedIdx < |u.tiers| && u.tiers[s.appliedIdx].name == s.applied
    && s.flags == SC.FlagsFor(SC.TableOf(u.tiers), s.applied)
    && (s.queue.Some? && !QueueTier(u.tiers, s.applied) ==> s.queue.value.items == [])
    && Chain(s.audit, u.tiers[0].name, s.applied)
  }

  /** An open gate is recorded, gated, and strictly above the applied tier; without one nothing is pending. */
  ghost predicate GatesConsistent(u: Setup, s: System) {
    && (s.gateOpen <==> s.pending != "")
    && (forall n | n in s.fired :: 0 < n <= s.gateSeq)
    && (s.pending != "" ==>
          && s.gateSeq in s.fired
          && s.fired[s.gateSeq].tier == s.pending
          && GateSpecOf(u.tiers, s.pending) == Some(s.fired[s.gateSeq].spec)
          && Index(u.tiers, s.pending) > s.appliedIdx)
  }

  /** The evaluator proposes the pending tier while a gate is open and the applied tier otherwise; while it
      holds a lock, that tier is applied and no gate is open. */
  ghost predicate Agreement(u: Setup, s: System) {
    && ER.Consistent(u.tiers, s.ev)
    && s.ev.current == (if s.pending != "" then s.pending else s.applied)
    && (s.ev.locked != "" ==> s.applied == s.ev.locked && s.pending == "")
  }

  ghost predicate Joint(u: Setup, s: System) {
    OutputsTrack(u, s) && GatesConsistent(u, s) && Agreement(u, s)
  }

  lemma ChainExtends(audit: seq<Event>, first: string, last: string, e: Event)
    requires Chain(audit, first, last)
    ensures e.Transition? && e.from == last && e.to != last ==> Chain(audit + [e], first, e.to)
    ensures !e.Transition? ==> Chain(audit + [e], first, last)
  {
    assert (audit + [e])[..|audit|] == audit;
  }

  /** Applying a declared tier keeps the outputs in step and touches neither the gate nor the evaluator. */
  lemma AppliedTracks(u: Setup, s: System, to: string, reason: string, now: int)
    requires OutputsTrack(u, s) && Index(u.tiers, to) >= 0
    ensures var s' := Applied(u, s, to, reason, now);
      && OutputsTrack(u, s') && s'.applied == to
      && s'.ev == s.ev && s'.gateSeq == s.gateSeq && s'.gateOpen == s.gateOpen
      && s'.pending == s.pending && s'.fired == s.fired
  {
    if to != s.applied {
      var t := Transition(s.applied, to, reason);
      ChainExtends(s.audit, u.tiers[0].name, s.applied, t);
      if s.queue.Some? {
        ChainExtends(s.audit + [t], u.tiers[0].name, to, QueueDrained(to, |Q.Drained(s.queue.value, now).1|));
      }
    }
  }

  lemma LockedAgrees(u: Setup, s: System, tier: string, duration: int, now: int)
    requires Index(u.tiers, tier) >= 0
    ensures var s' := LockedTo(u, s, tier, duration, now);
      && s' == s.(ev := s'.ev)
      && s'.ev.current == tier && s'.ev.locked == tier && ER.Consistent(u.tiers, s'.ev)
  {}

  lemma OverrideLogged(u: Setup, s: System, e: Event)
    requires OutputsTrack(u, s) && e.Override?
    ensures OutputsTrack(u, s.(audit := s.audit + [e]))
  {
    ChainExtends(s.audit, u.tiers[0].name, s.applied, e);
  }

  lemma TransitionKeepsJoint(u: Setup, s: System, to: string, now: int)
    requires OutputsTrack(u, s) && GatesConsistent(u, s) && ER.Consistent(u.tiers, s.ev)
    requires s.ev.current == to && s.ev.locked == ""
    ensures Joint(u, Transitioned(u, s, to, now))
  {
    assert to != "" && 0 <= s.appliedIdx < |u.tiers| && Index(u.tiers, to) >= 0;
    hide Applied, QueueMoved, OutputsTrack, GateSpecOf;
    var c, s' := Cancelled(s), Transitioned(u, s, to, now);
    OutputsOnlyTrack(u, s, c);
    if s'.pending != "" {
      OutputsOnlyTrack(u, s, s');
    } else if to != s.applied {
      AppliedTracks(u, c, to, "signals", now);
    }
  }

  /** The outputs do not depend on the evaluator or the gates. */
  lemma OutputsOnlyTrack(u: Setup, s: System, s': System)
    requires OutputsTrack(u, s) && s' == s.(ev := s'.ev, gateSeq := s'.gateSeq, gateOpen := s'.gateOpen,
                                            pending := s'.pending, fired := s'.fired)
    ensures OutputsTrack(u, s')
  {}

  lemma EvaluationFacts(u: Setup, s: EV.State, vals: Snapshot, now: int)
    requires WellFormed(u.tiers) && ER.Consistent(u.tiers, s)
    ensures var (s', changed) := EV.Evaluated(u.tiers, u.cfg, s, vals, now);
      && ER.Consistent(u.tiers, s')
      && (changed ==> s'.locked == "")
      && (!changed ==> s'.current == s.current && (s'.locked == "" || s'.locked == s.locked))
  {
    MatchTierIsMostDegraded(u.tiers, vals);
  }

  lemma TickKeepsJoint(u: Setup, s: System, vals: Snapshot, now: int)
    requires Joint(u, s)
    ensures Joint(u, Next(u, s, Tick(now, vals)))
  {
    EvaluationFacts(u, s.ev, vals, now);
    hide EV.Evaluated, Transitioned;
    var (ev, changed) := Evaluated(u, s, vals, now);
    if changed { TransitionKeepsJoint(u, s.(ev := ev), ev.current, now); }
  }

  lemma LockAndApplyKeepsJoint(u: Setup, s: System, tier: string, duration: int, reason: string, now: int)
    requires OutputsTrack(u, s) && GatesConsistent(u, s) && s.pending == "" && Index(u.tiers, tier) >= 0
    ensures Joint(u, Applied(u, LockedTo(u, s, tier, duration, now), tier, reason, now))
  {
    LockedAgrees(u, s, tier, duration, now);
    AppliedTracks(u, LockedTo(u, s, tier, duration, now), tier, reason, now);
  }

  lemma ApproveKeepsJoint(u: Setup, s: System, reason: string, now: int)
    requires Joint(u, s) && s.pending != ""
    ensures Joint(u, Applied(u, Cancelled(s), s.pending, reason, now))
  {
    AppliedTracks(u, Cancelled(s), s.pending, reason, now);
  }

  lemma HoldKeepsJoint(u: Setup, s: System, now: int)
    requires Joint(u, s)
    ensures Joint(u, LockedTo(u, Cancelled(s), s.applied, u.Hold(), now))
  {
    IndexInvertsNames(u.tiers, s.appliedIdx, s.applied);
    LockedAgrees(u, Cancelled(s), s.applied, u.Hold(), now);
  }

  lemma EscalateKeepsJoint(u: Setup, s: System, reason: string, now: int)
    requires Joint(u, s)
    ensures Joint(u, EscalatedTo(u, Cancelled(s), reason, now))
  {
    var top := u.tiers[|u.tiers| - 1].name;
    IndexInvertsNames(u.tiers, |u.tiers| - 1, top);
    assert OutputsTrack(u, Cancelled(s)) && GatesConsistent(u, Cancelled(s));
    hide Applied, LockedTo, OutputsTrack, GatesConsistent, Agreement, Index;
    LockAndApplyKeepsJoint(u, Cancelled(s), top, u.Hold(), reason, now);
  }

  lemma DecisionKeepsJoint(u: Setup, s: System, n: nat, o: Outcome, now: int)
    requires Joint(u, s) && Possible(s, Decide(now, n, o))
    ensures Joint(u, Next(u, s, Decide(now, n, o)))
  {
    hide OutputsTrack, Agreement, Applied, LockedTo, EscalatedTo;
    if n in s.fired && LiveGate(s, n) {
      assert s.fired[n].tier == s.pending;
      match o
      case Approved => ApproveKeepsJoint(u, s, "gate approved", now);
      case Escalated => EscalateKeepsJoint(u, s, "gate escalated", now);
      case Overridden(target, duration) =>
        HoldKeepsJoint(u, s, now);
        if Index(u.tiers, target) >= 0 {
          OverrideKeepsJoint(u, s, target, DurationOr(duration, u.Hold()), now);
        }
      case TimedOut =>
        HoldKeepsJoint(u, s, now);
        EscalateKeepsJoint(u, s, "gate timeout: escalate", now);
        ApproveKeepsJoint(u, s, "gate timeout: execute_policy", now);
      case Superseded =>
    }
  }

  lemma OverrideKeepsJoint(u: Setup, s: System, target: string, d: int, now: int)
    requires Joint(u, s) && Index(u.tiers, target) >= 0
    ensures Joint(u, Applied(u, LockedTo(u, Cancelled(s), target, d, now), target, "gate override", now))
  {
    LockAndApplyKeepsJoint(u, Cancelled(s), target, d, "gate override", now);
  }

  lemma ForceKeepsJoint(u: Setup, s: System, tier: string, d: int, reason: string, now: int)
    requires Joint(u, s)
    ensures Joint(u, Forced(u, s, tier, d, reason, now).0)
  {
    if Index(u.tiers, tier) >= 0 {
      var duration := DurationOr(d, u.Hold());
      var c := Cancelled(LockedTo(u, s, tier, duration, now));
      LockedAgrees(u, s, tier, duration, now);
      var e := Override(c.applied, tier, reason);
      OverrideLogged(u, c, e);
      AppliedTracks(u, c.(audit := c.audit + [e]), tier, reason, now);
    }
  }

  lemma StepKeepsJoint(u: Setup, s: System, step: Step)
    requires Joint(u, s) && Possible(s, step)
    ensures Joint(u, Next(u, s, step))
  {
    match step
    case Tick(now, vals) => TickKeepsJoint(u, s, vals, now);
    case Decide(now, n, o) => DecisionKeepsJoint(u, s, n, o, now);
    case Force(now, tier, d, reason) => ForceKeepsJoint(u, s, tier, d, reason, now);
    case Release(_) =>
    case WriteReq(now, w, stamp) =>
    case ReadDepth(now) =>
  }

  lemma InitialIsJoint(u: Setup, queue: Option<Q.State>)
    requires WellFormed(u.tiers) && (queue.Some? ==> queue.value.items == [])
    ensures Joint(u, Initial(u, queue))
  {
    IndexInvertsNames(u.tiers, 0, u.tiers[0].name);
  }
}
