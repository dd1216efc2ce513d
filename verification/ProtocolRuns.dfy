/** Whole runs of the composed system: the joint invariant, gate safety with arbitrarily delayed decisions,
    and the hysteresis behind every move of the applied tier. */
module ProtocolRuns {
  import opened Policy
  import opened Ladder
  import opened Enforcer
  import opened Protocol
  import EV = Evaluator
  import ER = EvaluatorRuns
  import Q = WriteQueue
  import QR = QueueRuns
  import SC = Sidecar

  /** states[k] is the system before step k, states[|steps|] the one at the end. */
  datatype Run = Run(u: Setup, queue: Option<Q.State>, steps: seq<Step>, states: seq<System>) {

    ghost predicate StepAt(k: nat)
      requires |u.tiers| > 0 && k < |steps| && |states| == |steps| + 1
    {
      Possible(states[k], steps[k]) && states[k + 1] == Next(u, states[k], steps[k])
    }

    ghost predicate Valid()
      ensures Valid() ==> |u.tiers| > 0 && |states| == |steps| + 1
    {
      && WellFormed(u.tiers)
      && (queue.Some? ==> queue.value.items == [])
      && |states| == |steps| + 1
      && states[0] == Initial(u, queue)
      && (forall k | 0 <= k < |steps| :: StepAt(k))
    }

    ghost predicate MovesAt(k: nat)
      requires |u.tiers| > 0 && k < |steps| && |states| == |steps| + 1
    {
      states[k + 1] == Next(u, states[k], steps[k])
    }

    /** The states are those the steps lead through, whether or not the steps are possible. */
    ghost predicate Follows()
      ensures Follows() ==> |u.tiers| > 0 && |states| == |steps| + 1
    {
      && WellFormed(u.tiers)
      && (queue.Some? ==> queue.value.items == [])
      && |states| == |steps| + 1
      && states[0] == Initial(u, queue)
      && (forall k | 0 <= k < |steps| :: MovesAt(k))
    }

    /** Step n is a tick that confirms a transition. */
    predicate Confirms(n: nat)
      requires n < |steps| && |states| == |steps| + 1
    {
      steps[n].Tick? && Evaluated(u, states[n], steps[n].vals, steps[n].now).1
    }

    /** Step n is an override of the tier that takes effect. */
    predicate Forces(n: nat)
      requires n < |steps|
    {
      steps[n].Force? && Index(u.tiers, steps[n].tier) >= 0
    }
  }

  lemma StepTaken(r: Run, k: nat)
    requires r.Valid() && k < |r.steps|
    ensures r.StepAt(k) && WellFormed(r.u.tiers)
  {}

  lemma ValidMeansPossible(r: Run)
    ensures r.Valid() <==> r.Follows() && forall k | 0 <= k < |r.steps| :: Possible(r.states[k], r.steps[k])
  {
    hide Next, Possible, WellFormed;
    if r.Valid() {
      forall k | 0 <= k < |r.steps| ensures r.MovesAt(k) && Possible(r.states[k], r.steps[k]) {
        assert r.StepAt(k);
      }
    }
    if r.Follows() && forall k | 0 <= k < |r.steps| :: Possible(r.states[k], r.steps[k]) {
      forall k | 0 <= k < |r.steps| ensures r.StepAt(k) { assert r.MovesAt(k); }
    }
  }

  /** The joint invariant of evaluator, enforcer and outputs holds in every reachable state. */
  lemma {:induction false} JointInvariant(r: Run, n: nat)
    requires r.Valid() && n <= |r.steps|
    ensures Joint(r.u, r.states[n])
    decreases n
  {
    hide Joint, Next, WellFormed, Run.Valid;
    if n == 0 {
      FirstStateIsJoint(r);
    } else {
      JointInvariant(r, n - 1);
      StepTaken(r, n - 1);
      StepKeepsJoint(r.u, r.states[n - 1], r.steps[n - 1]);
    }
  }

  lemma FirstStateIsJoint(r: Run)
    requires r.Valid()
    ensures Joint(r.u, r.states[0])
  {
    InitialIsJoint(r.u, r.queue);
  }

  /** In every reachable state each feature is on exactly when the applied tier is full_service and does not
      disable it, and the queue is empty unless the applied tier buffers writes. */
  lemma OutputsTrackAppliedTier(r: Run, n: nat)
    requires r.Valid() && n <= |r.steps|
    ensures 0 <= r.states[n].appliedIdx < |r.u.tiers|
    ensures var s, t := r.states[n], r.u.tiers[r.states[n].appliedIdx];
      && t.name == s.applied
      && s.flags.tier == s.applied
      && s.flags.mode == (if t.behavior.mode == "" then "full_service" else t.behavior.mode)
      && (forall f :: f in s.flags.features <==> exists t' :: t' in r.u.tiers && f in t'.behavior.disable)
      && (forall f | f in s.flags.features ::
            s.flags.features[f] <==> t.behavior.mode in {"", "full_service"} && f !in t.behavior.disable)
      && (s.queue.Some? && t.behavior.queueWrites.None? ==> s.queue.value.items == [])
      && Chain(s.audit, r.u.tiers[0].name, s.applied)
  {
    JointInvariant(r, n);
    var s := r.states[n];
    SC.FlagsOfCompiledTier(r.u.tiers, s.appliedIdx);
    IndexInvertsNames(r.u.tiers, s.appliedIdx, s.applied);
  }

  // ----- buffered writes are accounted for across tier changes -----

  /** How many writes the audit log says were drained. */
  function DrainedCount(audit: seq<Event>): nat {
    if audit == [] then 0 else
    var e := audit[|audit| - 1];
    DrainedCount(audit[..|audit| - 1]) + (if e.QueueDrained? then e.count else 0)
  }

  /** Attempted writes are queued, logged as drained, or dropped, and drains are only logged on entering a tier
      that does not buffer. */
  ghost predicate QueueLedger(u: Setup, s: System, attempts: int) {
    s.queue.Some? ==>
      && attempts == |s.queue.value.items| + DrainedCount(s.audit) + s.queue.value.dropped
      && forall e | e in s.audit && e.QueueDrained? :: !QueueTier(u.tiers, e.tier)
  }

  lemma LogKeepsCount(audit: seq<Event>, e: Event)
    ensures DrainedCount(audit + [e]) == DrainedCount(audit) + (if e.QueueDrained? then e.count else 0)
  {
    assert (audit + [e])[..|audit|] == audit;
  }

  lemma AppliedKeepsQueueLedger(u: Setup, s: System, to: string, reason: string, now: int, attempts: int)
    requires QueueLedger(u, s, attempts)
    ensures QueueLedger(u, Applied(u, s, to, reason, now), attempts)
  {
    hide Index, DrainedCount, QueueTier, Q.Kept;
    if to != s.applied && s.queue.Some? {
      var t := Transition(s.applied, to, reason);
      var d := QueueDrained(to, |Q.Drained(s.queue.value, now).1|);
      LogKeepsCount(s.audit, t);
      LogKeepsCount(s.audit + [t], d);
    }
  }

  lemma StepKeepsQueueLedger(u: Setup, s: System, step: Step, attempts: int)
    requires |u.tiers| > 0 && QueueLedger(u, s, attempts)
    ensures QueueLedger(u, Next(u, s, step), attempts + (if step.WriteReq? && QueueActive(u, s) then 1 else 0))
  {
    hide Applied, QueueMoved, EV.Evaluated, EV.Locked, Index, Q.Kept, DrainedCount;
    match step
    case Tick(now, vals) =>
      var ev := Evaluated(u, s, vals, now).0;
      AppliedKeepsQueueLedger(u, Cancelled(s.(ev := ev)), ev.current, "signals", now, attempts);
    case Decide(now, n, o) =>
      if n in s.fired { ResolvedKeepsQueueLedger(u, s, n, s.fired[n], o, now, attempts); }
    case Force(now, tier, d, reason) =>
      var c := Cancelled(LockedTo(u, s, tier, DurationOr(d, u.Hold()), now));
      var e := Override(c.applied, tier, reason);
      LogKeepsCount(c.audit, e);
      AppliedKeepsQueueLedger(u, c.(audit := c.audit + [e]), tier, reason, now, attempts);
    case Release(_) =>
    case WriteReq(now, w, stamp) =>
    case ReadDepth(now) =>
  }

  lemma ResolvedKeepsQueueLedger(u: Setup, s: System, n: nat, g: Gate, o: Outcome, now: int, attempts: int)
    requires |u.tiers| > 0 && QueueLedger(u, s, attempts)
    ensures QueueLedger(u, Resolved(u, s, n, g, o, now), attempts)
  {
    hide Applied, QueueMoved, EV.Locked, Index, DrainedCount;
    var c := Cancelled(s);
    var top := LockedTo(u, c, Top(u), u.Hold(), now);
    AppliedKeepsQueueLedger(u, c, g.tier, "gate approved", now, attempts);
    AppliedKeepsQueueLedger(u, c, g.tier, "gate timeout: execute_policy", now, attempts);
    AppliedKeepsQueueLedger(u, top, Top(u), "gate escalated", now, attempts);
    AppliedKeepsQueueLedger(u, top, Top(u), "gate timeout: escalate", now, attempts);
    if o.Overridden? {
      var locked := LockedTo(u, c, o.target, DurationOr(o.duration, u.Hold()), now);
      AppliedKeepsQueueLedger(u, locked, o.target, "gate override", now, attempts);
    }
  }

  /** The writes offered to the queue in the first n steps. */
  function Attempts(r: Run, n: nat): nat
    requires n <= |r.steps| && |r.states| == |r.steps| + 1
  {
    if n == 0 then 0
    else Attempts(r, n - 1) + (if r.steps[n - 1].WriteReq? && QueueActive(r.u, r.states[n - 1]) then 1 else 0)
  }

  lemma FirstLedger(r: Run)
    requires r.Valid()
    ensures QueueLedger(r.u, r.states[0], if r.queue.Some? then r.queue.value.dropped else 0)
  {}

  /** No write is lost across tier changes, gates and overrides: in every reachable state the writes offered to
      the queue are the queued, the logged as drained and the dropped ones. */
  lemma {:induction false} SystemQueueConservation(r: Run, n: nat)
    requires r.Valid() && n <= |r.steps|
    ensures QueueLedger(r.u, r.states[n], Attempts(r, n) + (if r.queue.Some? then r.queue.value.dropped else 0))
    decreases n
  {
    hide QueueLedger, Next, Run.Valid, WellFormed, QueueActive;
    if n == 0 {
      FirstLedger(r);
    } else {
      SystemQueueConservation(r, n - 1);
      StepTaken(r, n - 1);
      StepKeepsQueueLedger(r.u, r.states[n - 1], r.steps[n - 1],
                           Attempts(r, n - 1) + if r.queue.Some? then r.queue.value.dropped else 0);
    }
  }

  // ----- what tier changes do to buffered writes -----

  predicate Buffers(u: Setup, i: int) {
    0 <= i < |u.tiers| && u.tiers[i].behavior.queueWrites.Some?
  }

  /** Between buffering tiers every write that is live at `now` stays queued, in order; on leaving them the live
      writes leave the queue, and the last log entry counts them. */
  ghost predicate QueueFollows(u: Setup, s: System, s': System, now: int) {
    s.queue.Some? ==>
      && s'.queue.Some? && s'.queue.value.ttl == s.queue.value.ttl && s'.queue.value.maxDepth == s.queue.value.maxDepth
      && var q, q' := s.queue.value, s'.queue.value;
      var live := Q.Kept(q.items, q.ttl, now);
      && (Buffers(u, s'.appliedIdx) ==> Q.Kept(q'.items, q.ttl, now) == live)
      && (Buffers(u, s.appliedIdx) && !Buffers(u, s'.appliedIdx) ==>
            q'.items == [] && |s'.audit| > |s.audit| && s'.audit[|s'.audit| - 1] == QueueDrained(s'.applied, |live|))
      && (!Buffers(u, s.appliedIdx) ==> q'.items == [] && q'.dropped == q.dropped)
  }

  lemma UntouchedQueueFollows(u: Setup, s: System, s': System, now: int)
    requires OutputsTrack(u, s) && s'.queue == s.queue && s'.appliedIdx == s.appliedIdx
    ensures QueueFollows(u, s, s', now)
  {
    LookupsFindTheTier(u.tiers, s.applied);
    hide Index;
  }

  lemma EvictedQueueFollows(u: Setup, s: System, now: int)
    requires OutputsTrack(u, s) && s.queue.Some?
    ensures QueueFollows(u, s, s.(queue := Some(Q.Evicted(s.queue.value, now))), now)
  {
    LookupsFindTheTier(u.tiers, s.applied);
    QR.KeptTwice(s.queue.value.items, s.queue.value.ttl, now, now);
    hide Index;
  }

  lemma AppliedQueueFollows(u: Setup, s: System, to: string, reason: string, now: int)
    requires OutputsTrack(u, s) && Index(u.tiers, to) >= 0
    ensures QueueFollows(u, s, Applied(u, s, to, reason, now), now)
  {
    UntouchedQueueFollows(u, s, s, now);
    LookupsFindTheTier(u.tiers, s.applied);
    if to != s.applied {
      AppliedTable(u, s, s.appliedIdx, Index(u.tiers, to), reason, now);
      if s.queue.Some? { QR.KeptTwice(s.queue.value.items, s.queue.value.ttl, now, now); }
    }
    hide Index, Applied, Q.Kept;
  }

  /** The predicate reads only the queue, the applied tier and the log. */
  lemma FollowsFrom(u: Setup, s: System, c: System, s': System, now: int)
    requires QueueFollows(u, c, s', now)
    requires c.queue == s.queue && c.appliedIdx == s.appliedIdx && s.audit <= c.audit
    ensures QueueFollows(u, s, s', now)
  {}

  /** No step but a write changes which live writes are queued, except by draining them on leaving the buffering
      tiers. */
  lemma LiveWritesSurvive(u: Setup, s: System, step: Step)
    requires Joint(u, s) && Possible(s, step) && !step.WriteReq?
    ensures QueueFollows(u, s, Next(u, s, step), step.now)
  {
    hide QueueFollows, Applied, QueueMoved, EV.Evaluated, Q.Kept, Index, OutputsTrack;
    StepKeepsJoint(u, s, step);
    match step
    case Tick(now, vals) =>
      var (ev, changed) := Evaluated(u, s, vals, now);
      var m := s.(ev := ev);
      UntouchedQueueFollows(u, s, m, now);
      if changed {
        OutputsOnlyTrack(u, s, Cancelled(m));
        ConfirmedTierIsDeclared(u, s, vals, now);
        TransitionedQueueFollows(u, m, ev.current, now);
        FollowsFrom(u, s, m, Next(u, s, step), now);
      }
    case Decide(now, n, o) =>
      UntouchedQueueFollows(u, s, s, now);
      if n in s.fired && LiveGate(s, n) { DecidedQueueFollows(u, s, n, o, now); }
    case Force(now, tier, d, reason) =>
      UntouchedQueueFollows(u, s, s, now);
      if Index(u.tiers, tier) >= 0 {
        var c := Cancelled(LockedTo(u, s, tier, DurationOr(d, u.Hold()), now));
        OutputsOnlyTrack(u, s, c);
        var e := Override(c.applied, tier, reason);
        OverrideLogged(u, c, e);
        AppliedQueueFollows(u, c.(audit := c.audit + [e]), tier, reason, now);
        FollowsFrom(u, s, c.(audit := c.audit + [e]), Next(u, s, step), now);
      }
    case Release(now) => UntouchedQueueFollows(u, s, Next(u, s, step), now);
    case ReadDepth(now) =>
      UntouchedQueueFollows(u, s, s, now);
      if s.queue.Some? { EvictedQueueFollows(u, s, now); }
  }

  lemma ConfirmedTierIsDeclared(u: Setup, s: System, vals: Snapshot, now: int)
    requires WellFormed(u.tiers) && Evaluated(u, s, vals, now).1
    ensures Index(u.tiers, Evaluated(u, s, vals, now).0.current) >= 0
  {
    MatchTierIsMostDegraded(u.tiers, vals);
  }

  lemma TransitionedQueueFollows(u: Setup, s: System, to: string, now: int)
    requires OutputsTrack(u, Cancelled(s)) && Index(u.tiers, to) >= 0
    ensures QueueFollows(u, s, Transitioned(u, s, to, now), now)
  {
    hide QueueFollows, Applied, Index, OutputsTrack, GateSpecOf;
    var c, s' := Cancelled(s), Transitioned(u, s, to, now);
    if s'.queue == c.queue && s'.appliedIdx == c.appliedIdx {
      UntouchedQueueFollows(u, c, s', now);
    } else {
      AppliedQueueFollows(u, c, to, "signals", now);
    }
    FollowsFrom(u, s, c, s', now);
  }

  lemma ResolvedByApplying(u: Setup, s: System, to: string, reason: string, now: int)
    requires OutputsTrack(u, s) && Index(u.tiers, to) >= 0
    ensures QueueFollows(u, s, Applied(u, Cancelled(s), to, reason, now), now)
  {
    hide QueueFollows, Applied, Index, OutputsTrack;
    var c := Cancelled(s);
    OutputsOnlyTrack(u, s, c);
    AppliedQueueFollows(u, c, to, reason, now);
    FollowsFrom(u, s, c, Applied(u, c, to, reason, now), now);
  }

  lemma ResolvedByLocking(u: Setup, s: System, tier: string, d: int, reason: string, now: int)
    requires OutputsTrack(u, s) && Index(u.tiers, tier) >= 0
    ensures var locked := LockedTo(u, Cancelled(s), tier, d, now);
      QueueFollows(u, s, locked, now) && QueueFollows(u, s, Applied(u, locked, tier, reason, now), now)
  {
    hide QueueFollows, Applied, Index, OutputsTrack;
    var locked := LockedTo(u, Cancelled(s), tier, d, now);
    OutputsOnlyTrack(u, s, locked);
    UntouchedQueueFollows(u, s, locked, now);
    AppliedQueueFollows(u, locked, tier, reason, now);
    FollowsFrom(u, s, locked, Applied(u, locked, tier, reason, now), now);
  }

  lemma ResolvedByEscalating(u: Setup, s: System, reason: string, now: int)
    requires OutputsTrack(u, s) && |u.tiers| > 0 && Index(u.tiers, Top(u)) >= 0
    ensures QueueFollows(u, s, EscalatedTo(u, Cancelled(s), reason, now), now)
  {
    ResolvedByLocking(u, s, Top(u), u.Hold(), reason, now);
  }

  lemma PendingIsDeclared(u: Setup, s: System)
    requires Joint(u, s) && s.pending != ""
    ensures Index(u.tiers, s.pending) >= 0 && s.gateSeq in s.fired
  {}

  lemma DecidedQueueFollows(u: Setup, s: System, n: nat, o: Outcome, now: int)
    requires Joint(u, s) && n in s.fired && LiveGate(s, n)
    ensures QueueFollows(u, s, Next(u, s, Decide(now, n, o)), now)
  {
    LiveDecision(u, s, o, now);
    DeclaredEnds(u, s);
    PendingIsDeclared(u, s);
    assert OutputsTrack(u, s);
    hide *;
    match o
    case Approved => ResolvedByApplying(u, s, s.pending, "gate approved", now);
    case Overridden(target, d) =>
      if Index(u.tiers, target) >= 0 {
        ResolvedByLocking(u, s, target, DurationOr(d, u.Hold()), "gate override", now);
      } else {
        ResolvedByLocking(u, s, s.applied, u.Hold(), "", now);
      }
    case Escalated => ResolvedByEscalating(u, s, "gate escalated", now);
    case TimedOut =>
      ResolvedByLocking(u, s, s.applied, u.Hold(), "", now);
      ResolvedByEscalating(u, s, "gate timeout: escalate", now);
      ResolvedByApplying(u, s, s.pending, "gate timeout: execute_policy", now);
    case Superseded => UntouchedQueueFollows(u, s, Cancelled(s), now);
  }

  /** When a write is buffered: a queue exists, the applied tier itself declares one, and fewer writes than the
      maximum are live. Then it is stamped and appended; when only the depth is missing it counts as dropped; when
      the tier does not buffer nothing changes. Reading the depth leaves the live writes and counts the others. */
  lemma WriteTable(u: Setup, s: System, w: Q.Write, now: int, stamp: int)
    requires Joint(u, s) && s.queue.Some?
    ensures var s', q := Next(u, s, WriteReq(now, w, stamp)), s.queue.value;
      var live := Q.Kept(q.items, q.ttl, now);
      var expired := |q.items| - |live|;
      if u.tiers[s.appliedIdx].behavior.queueWrites.None? then s' == s
      else if |live| < q.maxDepth
      then s' == s.(queue := Some(q.(items := live + [w.(enqueuedAt := stamp)], dropped := q.dropped + expired)))
      else s' == s.(queue := Some(q.(items := live, dropped := q.dropped + expired + 1)))
    ensures var q := s.queue.value;
      var live := Q.Kept(q.items, q.ttl, now);
      Next(u, s, ReadDepth(now))
        == s.(queue := Some(q.(items := live, dropped := q.dropped + (|q.items| - |live|))))
  {
    LookupsFindTheTier(u.tiers, s.applied);
    hide Index, Q.Kept;
  }

  // ----- what a decision does -----

  function Top(u: Setup): string
    requires |u.tiers| > 0
  {
    u.tiers[|u.tiers| - 1].name
  }

  ghost predicate HeldAt(s: System, tier: string, until: int) {
    s.applied == tier && s.pending == "" && s.ev.current == tier && s.ev.locked == tier && s.ev.lockUntil == until
  }

  /** The applied tier changed, and the first thing logged was the move with this reason. */
  ghost predicate Logged(s: System, s': System, reason: string) {
    s'.applied != s.applied ==>
      |s'.audit| > |s.audit| && s'.audit[|s.audit|] == Transition(s.applied, s'.applied, reason)
  }

  /** The documented effect of each answer to the open gate, and of each timeout policy; the default lock lasts ten
      minutes. */
  lemma DecisionTable(u: Setup, s: System, o: Outcome, now: int)
    requires Joint(u, s) && s.pending != "" && !o.Superseded?
    ensures var s' := Next(u, s, Decide(now, s.gateSeq, o));
      var onTimeout := s.fired[s.gateSeq].spec.onTimeout;
      var hold := if u.hold > 0 then u.hold else 600_000_000_000;
      var top := u.tiers[|u.tiers| - 1].name;
      match o
      case Approved => s'.applied == s.pending && s'.pending == "" && s'.ev == s.ev && Logged(s, s', "gate approved")
      case Overridden(target, d) =>
        if exists i | 0 <= i < |u.tiers| :: u.tiers[i].name == target
        then HeldAt(s', target, now + (if d > 0 then d else hold)) && Logged(s, s', "gate override")
        else HeldAt(s', s.applied, now + hold) && s'.audit == s.audit
      case Escalated => HeldAt(s', top, now + hold) && Logged(s, s', "gate escalated")
      case TimedOut =>
        && (onTimeout == "hold" ==> HeldAt(s', s.applied, now + hold) && s'.audit == s.audit)
        && (onTimeout == "escalate" ==> HeldAt(s', top, now + hold) && Logged(s, s', "gate timeout: escalate"))
        && (onTimeout !in {"hold", "escalate"} ==>
              && s'.applied == s.pending && s'.pending == "" && s'.ev == s.ev
              && Logged(s, s', "gate timeout: execute_policy"))
  {
    HoldLasts(u);
    match o
    case Approved => ApprovedDecision(u, s, now);
    case Overridden(target, d) => OverriddenDecision(u, s, target, d, now);
    case Escalated => EscalatedDecision(u, s, now);
    case TimedOut => TimedOutDecision(u, s, now);
    case Superseded =>
    hide *;
  }

  lemma HoldLasts(u: Setup)
    ensures u.Hold() == if u.hold > 0 then u.hold else 600_000_000_000
  {}

  lemma ApprovedDecision(u: Setup, s: System, now: int)
    requires Joint(u, s) && s.pending != ""
    ensures var s' := Next(u, s, Decide(now, s.gateSeq, Approved));
      s'.applied == s.pending && s'.pending == "" && s'.ev == s.ev && Logged(s, s', "gate approved")
  {
    LiveDecision(u, s, Approved, now);
    var c := Cancelled(s);
    hide Next, Applied, Joint, Logged;
    AppliedIsLogged(u, c, s.pending, "gate approved", now);
    LoggedWithoutGate(s, Applied(u, c, s.pending, "gate approved", now));
  }

  lemma OverriddenDecision(u: Setup, s: System, target: string, d: int, now: int)
    requires Joint(u, s) && s.pending != ""
    ensures var s' := Next(u, s, Decide(now, s.gateSeq, Overridden(target, d)));
      if exists i | 0 <= i < |u.tiers| :: u.tiers[i].name == target
      then HeldAt(s', target, now + (if d > 0 then d else u.Hold())) && Logged(s, s', "gate override")
      else HeldAt(s', s.applied, now + u.Hold()) && s'.audit == s.audit
  {
    LiveDecision(u, s, Overridden(target, d), now);
    DeclaredEnds(u, s);
    IndexMeansDeclared(u.tiers, target);
    var c := Cancelled(s);
    hide Next, Applied, LockedTo, Joint, OutputsTrack, HeldAt, Logged, Index;
    if Index(u.tiers, target) >= 0 {
      LockedAndAppliedIsHeld(u, c, target, DurationOr(d, u.Hold()), "gate override", now);
      LoggedWithoutGate(s, Next(u, s, Decide(now, s.gateSeq, Overridden(target, d))));
    } else {
      LockedIsHeld(u, c, s.applied, u.Hold(), now);
    }
  }

  lemma EscalatedDecision(u: Setup, s: System, now: int)
    requires Joint(u, s) && s.pending != ""
    ensures var s' := Next(u, s, Decide(now, s.gateSeq, Escalated));
      HeldAt(s', Top(u), now + u.Hold()) && Logged(s, s', "gate escalated")
  {
    LiveDecision(u, s, Escalated, now);
    DeclaredEnds(u, s);
    hide Next, EscalatedTo, Joint, OutputsTrack, HeldAt, Logged, Index;
    EscalatedIsHeld(u, Cancelled(s), "gate escalated", now);
    LoggedWithoutGate(s, Next(u, s, Decide(now, s.gateSeq, Escalated)));
  }

  lemma TimedOutDecision(u: Setup, s: System, now: int)
    requires Joint(u, s) && s.pending != ""
    ensures var s' := Next(u, s, Decide(now, s.gateSeq, TimedOut));
      var onTimeout := s.fired[s.gateSeq].spec.onTimeout;
      && (onTimeout == "hold" ==> HeldAt(s', s.applied, now + u.Hold()) && s'.audit == s.audit)
      && (onTimeout == "escalate" ==>
            HeldAt(s', Top(u), now + u.Hold()) && Logged(s, s', "gate timeout: escalate"))
      && (onTimeout !in {"hold", "escalate"} ==>
            && s'.applied == s.pending && s'.pending == "" && s'.ev == s.ev
            && Logged(s, s', "gate timeout: execute_policy"))
  {
    LiveDecision(u, s, TimedOut, now);
    DeclaredEnds(u, s);
    var c := Cancelled(s);
    hide Next, Applied, LockedTo, EscalatedTo, Joint, OutputsTrack, HeldAt, Logged, Index;
    LockedIsHeld(u, c, s.applied, u.Hold(), now);
    EscalatedIsHeld(u, c, "gate timeout: escalate", now);
    AppliedIsLogged(u, c, s.pending, "gate timeout: execute_policy", now);
    LoggedWithoutGate(s, Next(u, s, Decide(now, s.gateSeq, TimedOut)));
  }

  /** The decision of the open gate, unfolded. */
  lemma LiveDecision(u: Setup, s: System, o: Outcome, now: int)
    requires Joint(u, s) && s.pending != ""
    ensures var c, s', g := Cancelled(s), Next(u, s, Decide(now, s.gateSeq, o)), s.fired[s.gateSeq];
      match o
      case Approved => s' == Applied(u, c, s.pending, "gate approved", now)
      case Overridden(target, d) =>
        s' == (if Index(u.tiers, target) < 0 then LockedTo(u, c, s.applied, u.Hold(), now)
               else Applied(u, LockedTo(u, c, target, DurationOr(d, u.Hold()), now), target, "gate override", now))
      case Escalated => s' == EscalatedTo(u, c, "gate escalated", now)
      case TimedOut =>
        s' == (if g.spec.onTimeout == "hold" then LockedTo(u, c, s.applied, u.Hold(), now)
               else if g.spec.onTimeout == "escalate" then EscalatedTo(u, c, "gate timeout: escalate", now)
               else Applied(u, c, s.pending, "gate timeout: execute_policy", now))
      case Superseded => s' == c
  {
    assert s.fired[s.gateSeq].tier == s.pending && s.gateSeq in s.fired;
    hide Applied, LockedTo, EscalatedTo, Joint, Index;
  }

  lemma DeclaredEnds(u: Setup, s: System)
    requires OutputsTrack(u, s)
    ensures |u.tiers| > 0 && Index(u.tiers, Top(u)) >= 0 && Index(u.tiers, s.applied) >= 0
  {
    IndexInvertsNames(u.tiers, |u.tiers| - 1, Top(u));
    IndexInvertsNames(u.tiers, s.appliedIdx, s.applied);
  }

  lemma IndexMeansDeclared(tiers: Tiers, name: string)
    ensures Index(tiers, name) >= 0 <==> exists i | 0 <= i < |tiers| :: tiers[i].name == name
  {
    if Index(tiers, name) >= 0 { assert tiers[Index(tiers, name)].name == name; }
  }

  lemma LoggedWithoutGate(s: System, s': System)
    ensures forall reason :: Logged(Cancelled(s), s', reason) <==> Logged(s, s', reason)
  {}

  lemma LockedIsHeld(u: Setup, s: System, tier: string, d: int, now: int)
    requires Index(u.tiers, tier) >= 0 && s.pending == "" && s.applied == tier
    ensures HeldAt(LockedTo(u, s, tier, d, now), tier, now + d) && LockedTo(u, s, tier, d, now).audit == s.audit
  {}

  lemma LockedAndAppliedIsHeld(u: Setup, s: System, tier: string, d: int, reason: string, now: int)
    requires Index(u.tiers, tier) >= 0 && s.pending == ""
    ensures var s' := Applied(u, LockedTo(u, s, tier, d, now), tier, reason, now);
      HeldAt(s', tier, now + d) && Logged(s, s', reason)
  {
    hide Applied;
    AppliedIsLogged(u, LockedTo(u, s, tier, d, now), tier, reason, now);
  }

  lemma EscalatedIsHeld(u: Setup, s: System, reason: string, now: int)
    requires |u.tiers| > 0 && Index(u.tiers, Top(u)) >= 0 && s.pending == ""
    ensures HeldAt(EscalatedTo(u, s, reason, now), Top(u), now + u.Hold())
    ensures Logged(s, EscalatedTo(u, s, reason, now), reason)
  {
    LockedAndAppliedIsHeld(u, s, Top(u), u.Hold(), reason, now);
  }

  lemma AppliedIsLogged(u: Setup, s: System, to: string, reason: string, now: int)
    ensures Logged(s, Applied(u, s, to, reason, now), reason)
    ensures s.audit <= Applied(u, s, to, reason, now).audit
  {}

  /** Handling a confirmed move to tier i: upward into a gated tier it is held behind a new gate of that tier's own
      spec and nothing else changes; anything else is applied at once and opens no gate. */
  lemma HandlingTable(u: Setup, s: System, i: nat, now: int)
    requires OutputsTrack(u, s) && i < |u.tiers|
    ensures var to, spec := u.tiers[i].name, u.tiers[i].gateSpec;
      var s' := Transitioned(u, s, to, now);
      if i > s.appliedIdx && spec.Some?
      then s' == s.(pending := to, gateOpen := true, gateSeq := s.gateSeq + 1,
                    fired := s.fired[s.gateSeq + 1 := Gate(to, spec.value)])
      else && s'.applied == to && s'.appliedIdx == i && s'.pending == "" && !s'.gateOpen && s'.ev == s.ev
           && s'.gateSeq == s.gateSeq && s'.fired == s.fired && Logged(s, s', "signals")
  {
    LookupsFindTheTier(u.tiers, u.tiers[i].name);
    LookupsFindTheTier(u.tiers, s.applied);
    hide Index, Applied, QueueMoved, GateSpecOf, WellFormed;
    AppliedIsLogged(u, Cancelled(s), u.tiers[i].name, "signals", now);
  }

  lemma ConfirmedTier(u: Setup, s: EV.State, vals: Snapshot, now: int)
    requires EV.Evaluated(u.tiers, u.cfg, s, vals, now).1
    ensures EV.Evaluated(u.tiers, u.cfg, s, vals, now).0.current == MatchTier(u.tiers, vals)
  {}

  /** A confirmed tick, on the matched tier itself: a move up into a tier with a gate is held behind a new gate of
      that tier's spec, whatever else the tier declares; any other is applied at once. */
  lemma TransitionTable(u: Setup, s: System, vals: Snapshot, now: int, i: nat)
    requires Joint(u, s) && Evaluated(u, s, vals, now).1
    requires i < |u.tiers| && u.tiers[i].name == MatchTier(u.tiers, vals)
    ensures var s' := Next(u, s, Tick(now, vals));
      var to, spec := u.tiers[i].name, u.tiers[i].gateSpec;
      && s'.ev.current == to
      && if i > s.appliedIdx && spec.Some?
         then && s'.applied == s.applied && s'.appliedIdx == s.appliedIdx && s'.pending == to
              && s'.gateSeq == s.gateSeq + 1 && s'.fired == s.fired[s.gateSeq + 1 := Gate(to, spec.value)]
              && s'.flags == s.flags && s'.queue == s.queue && s'.audit == s.audit
         else && s'.applied == to && s'.appliedIdx == i && s'.pending == ""
              && s'.gateSeq == s.gateSeq && s'.fired == s.fired && Logged(s, s', "signals")
  {
    hide EV.Evaluated, Transitioned;
    ConfirmedTier(u, s.ev, vals, now);
    HandlingTable(u, s.(ev := Evaluated(u, s, vals, now).0), i, now);
  }

  /** An override applies a declared tier, locks it for the asked (or default) time, drops any gate and logs both
      the override and the move; an unknown tier changes nothing. A release only drops the lock. */
  lemma OverrideTable(u: Setup, s: System, tier: string, d: int, reason: string, now: int)
    requires Joint(u, s)
    ensures var s' := Next(u, s, Force(now, tier, d, reason));
      var hold := if u.hold > 0 then u.hold else 600_000_000_000;
      if exists i | 0 <= i < |u.tiers| :: u.tiers[i].name == tier
      then && HeldAt(s', tier, now + (if d > 0 then d else hold))
           && s.audit + [Override(s.applied, tier, reason)] <= s'.audit
           && Logged(s.(audit := s.audit + [Override(s.applied, tier, reason)]), s', reason)
      else s' == s
    ensures var s' := Next(u, s, Release(now));
      s' == s.(ev := s'.ev) && s'.ev == s.ev.(locked := "", lockUntil := s'.ev.lockUntil)
  {
    hide Applied, QueueMoved, OutputsTrack, GatesConsistent;
    var i := Index(u.tiers, tier);
    if i >= 0 {
      assert u.tiers[i].name == tier;
      ForcedControl(u, s, tier, d, reason, now);
      var c := Cancelled(LockedTo(u, s, tier, DurationOr(d, u.Hold()), now));
      AppliedIsLogged(u, c.(audit := c.audit + [Override(c.applied, tier, reason)]), tier, reason, now);
    }
  }

  // ----- why a confirmed tick and its handling must be one step -----

  /** Handling a transition at some other time keeps the agreement exactly when it still names the
      evaluator's current tier. */
  lemma StaleTransitionsBreakAgreement(u: Setup, s: System, to: string, now: int)
    requires Joint(u, s) && Index(u.tiers, to) >= 0
    ensures Agreement(u, Transitioned(u, s, to, now)) <==> s.ev.current == to
  {
    IndexInvertsNames(u.tiers, s.appliedIdx, s.applied);
  }

  /** A confirmed tick whose transition is dropped always breaks it. */
  lemma DroppedTransitionsBreakAgreement(u: Setup, s: System, vals: Snapshot, now: int)
    requires Joint(u, s) && Evaluated(u, s, vals, now).1
    ensures !Agreement(u, s.(ev := Evaluated(u, s, vals, now).0))
  {
    MatchTierIsMostDegraded(u.tiers, vals);
  }

  /** The write endpoint checks for a buffering tier before it enqueues, in another section: a write that comes
      after the tier was left keeps the outputs in step exactly when the queue does not accept it. */
  lemma LateWritesStayBehind(u: Setup, s: System, w: Q.Write, now: int, stamp: int)
    requires Joint(u, s) && s.queue.Some? && !QueueTier(u.tiers, s.applied)
    ensures var (q, ok) := Q.Enqueued(s.queue.value, w, now, stamp);
      OutputsTrack(u, s.(queue := Some(q))) <==> !ok
  {}

  // ----- gate safety -----

  /** The step is a cause that may raise the applied tier into the gated tier `to`: an override of the tier,
      or a decision of the gate that is open right now. */
  predicate Sanctions(u: Setup, s: System, step: Step, to: string)
    requires |u.tiers| > 0
  {
    match step
    case Force(_, tier, _, _) => tier == to
    case Decide(_, n, o) =>
      && LiveGate(s, n) && n in s.fired
      && (match o
          case Approved => to == s.pending
          case TimedOut =>
            var onTimeout := s.fired[n].spec.onTimeout;
            onTimeout != "hold" && to == (if onTimeout == "escalate" then Top(u) else s.pending)
          case Overridden(target, _) => to == target
          case Escalated => to == Top(u)
          case Superseded => false)
    case _ => false
  }

  /** Gate safety: no step raises the applied tier into a tier that declares a gate unless it is sanctioned. */
  lemma RisesIntoGatedTiersAreSanctioned(u: Setup, s: System, step: Step)
    requires Joint(u, s) && Possible(s, step)
    requires var i := Next(u, s, step).appliedIdx; s.appliedIdx < i < |u.tiers| && u.tiers[i].gateSpec.Some?
    ensures Sanctions(u, s, step, Next(u, s, step).applied)
  {
    StepKeepsJoint(u, s, step);
    var s' := Next(u, s, step);
    LookupsFindTheTier(u.tiers, s'.applied);
    assert GateSpecOf(u.tiers, s'.applied).Some?;
    GatedRisesAreSanctioned(u, s, step);
  }

  lemma GatedRisesAreSanctioned(u: Setup, s: System, step: Step)
    requires Joint(u, s) && Possible(s, step)
    requires var s' := Next(u, s, step);
      s'.appliedIdx > s.appliedIdx && GateSpecOf(u.tiers, s'.applied).Some?
    ensures Sanctions(u, s, step, Next(u, s, step).applied)
  {
    hide Applied, QueueMoved, LockedTo, EscalatedTo, Transitioned, EV.Evaluated, OutputsTrack, Agreement;
    if step.Force? && Index(u.tiers, step.tier) >= 0 {
      ForcedControl(u, s, step.tier, step.duration, step.reason, step.now);
    }
  }

  /** In every reachable state an open gate is one of the ladder's tiers above the applied one, with that tier's own
      spec. */
  lemma OpenGateIsItsTiers(r: Run, n: nat) returns (i: nat)
    requires r.Valid() && n <= |r.steps| && r.states[n].pending != ""
    ensures var s := r.states[n];
      && s.appliedIdx < i < |r.u.tiers| && r.u.tiers[i].name == s.pending
      && r.u.tiers[i].gateSpec.Some? && s.gateSeq in s.fired
      && s.fired[s.gateSeq] == Gate(s.pending, r.u.tiers[i].gateSpec.value)
  {
    JointInvariant(r, n);
    LookupsFindTheTier(r.u.tiers, r.states[n].pending);
    i := Index(r.u.tiers, r.states[n].pending);
    hide Index;
  }

  /** Gate n was opened and can no longer take effect. */
  predicate Dead(s: System, n: nat) {
    n <= s.gateSeq && !LiveGate(s, n)
  }

  lemma DeadGatesStayDead(u: Setup, s: System, step: Step, n: nat)
    requires |u.tiers| > 0 && Dead(s, n)
    ensures Dead(Next(u, s, step), n)
  {
    hide Applied, QueueMoved, LockedTo, EscalatedTo, Transitioned, Resolved, Forced, EV.Evaluated;
    if step.Force? { ForceControl(u, s, step); }
  }

  lemma ForceControl(u: Setup, s: System, step: Step)
    requires |u.tiers| > 0 && step.Force?
    ensures var s' := Next(u, s, step);
      if Index(u.tiers, step.tier) >= 0 then s'.pending == "" && s'.gateSeq == s.gateSeq && s'.fired == s.fired
      else s' == s
  {
    if Index(u.tiers, step.tier) >= 0 {
      ForcedControl(u, s, step.tier, step.duration, step.reason, step.now);
    }
  }

  lemma DeadGatesAreIgnored(u: Setup, s: System, now: int, n: nat, o: Outcome)
    requires |u.tiers| > 0 && Dead(s, n)
    ensures Next(u, s, Decide(now, n, o)) == s
  {}

  lemma {:induction false} DeadFromThenOn(r: Run, m: nat, k: nat, n: nat)
    requires r.Follows() && m <= k <= |r.steps| && Dead(r.states[m], n)
    ensures Dead(r.states[k], n)
  {
    hide Next, Dead;
    if m < k {
      DeadFromThenOn(r, m, k - 1, n);
      assert r.MovesAt(k - 1);
      DeadGatesStayDead(r.u, r.states[k - 1], r.steps[k - 1], n);
    }
  }

  /** Each gate takes effect at most once: after the decision of an open gate, no further decision of that
      gate changes anything. */
  lemma GatesActAtMostOnce(r: Run, i: nat, j: nat)
    requires r.Valid() && i < j < |r.steps|
    requires r.steps[i].Decide? && r.steps[j].Decide? && r.steps[i].seqNo == r.steps[j].seqNo
    requires LiveGate(r.states[i], r.steps[i].seqNo)
    ensures r.states[j + 1] == r.states[j]
  {
    hide Joint, Next, WellFormed, Run.Valid;
    var n := r.steps[i].seqNo;
    JointInvariant(r, i);
    StepTaken(r, i);
    StepTaken(r, j);
    DecisionClosesGate(r.u, r.states[i], r.steps[i]);
    ValidMeansPossible(r);
    DeadFromThenOn(r, i + 1, j, n);
    DeadGatesAreIgnored(r.u, r.states[j], r.steps[j].now, n, r.steps[j].outcome);
  }

  lemma DecisionClosesGate(u: Setup, s: System, step: Step)
    requires Joint(u, s) && step.Decide? && LiveGate(s, step.seqNo)
    ensures Dead(Next(u, s, step), step.seqNo)
  {
    hide Applied, QueueMoved, LockedTo, EscalatedTo, Transitioned, Resolved, Forced, EV.Evaluated;
  }

  /** Whoever replaced or cancelled a gate, its decision changes nothing: once a confirmed tick or an override
      has happened, no gate opened before it can take effect. */
  lemma ReplacedGatesChangeNothing(r: Run, i: nat, j: nat)
    requires r.Valid() && i < j < |r.steps| && (r.Confirms(i) || r.Forces(i))
    requires r.steps[j].Decide? && r.steps[j].seqNo in r.states[i].fired
    ensures r.states[j + 1] == r.states[j]
  {
    hide Joint, Next, WellFormed, Run.Valid, EV.Evaluated;
    var n := r.steps[j].seqNo;
    FiredGatesAreNumbered(r, i, n);
    StepTaken(r, i);
    StepTaken(r, j);
    NewProposalsKillGates(r.u, r.states[i], r.steps[i], n);
    ValidMeansPossible(r);
    DeadFromThenOn(r, i + 1, j, n);
    DeadGatesAreIgnored(r.u, r.states[j], r.steps[j].now, n, r.steps[j].outcome);
  }

  lemma FiredGatesAreNumbered(r: Run, k: nat, n: nat)
    requires r.Valid() && k <= |r.steps| && n in r.states[k].fired
    ensures n <= r.states[k].gateSeq
  {
    JointInvariant(r, k);
  }

  lemma NewProposalsKillGates(u: Setup, s: System, step: Step, n: nat)
    requires |u.tiers| > 0 && n <= s.gateSeq
    requires (step.Tick? && Evaluated(u, s, step.vals, step.now).1) || (step.Force? && Index(u.tiers, step.tier) >= 0)
    ensures Dead(Next(u, s, step), n)
  {
    hide Applied, QueueMoved, LockedTo, EscalatedTo, Transitioned, Resolved, Forced, EV.Evaluated;
    if step.Force? { ForceControl(u, s, step); }
  }

  // ----- where a pending tier comes from -----

  /** What the last step did for a gate that is open after it. */
  lemma OpenGateStep(r: Run, n: nat)
    requires r.Valid() && n <= |r.steps| && r.states[n].pending != ""
    ensures n > 0
    ensures r.states[n].ev.current == r.states[n].pending
    ensures !r.Confirms(n - 1) ==> !r.Forces(n - 1) && r.states[n - 1].pending == r.states[n].pending
  {
    hide Run.Valid, WellFormed, Next, EV.Evaluated, OutputsTrack;
    JointInvariant(r, n);
    NothingPendingAtFirst(r);
    JointInvariant(r, n - 1);
    StepTaken(r, n - 1);
    if !r.Confirms(n - 1) { QuietStepsKeepGate(r.u, r.states[n - 1], r.steps[n - 1]); }
  }

  lemma NothingPendingAtFirst(r: Run)
    requires r.Valid()
    ensures r.states[0].pending == ""
  {}

  /** An open gate was opened by a tick that confirmed its tier, and since then nothing was confirmed or forced. */
  lemma {:induction false} PendingWasProposed(r: Run, n: nat) returns (m: nat)
    requires r.Valid() && n <= |r.steps| && r.states[n].pending != ""
    ensures m < n && r.Confirms(m) && r.states[m + 1].ev.current == r.states[n].pending
    ensures forall k | m < k < n :: !r.Confirms(k) && !r.Forces(k)
    decreases n
  {
    hide Run.Valid, WellFormed, Run.Confirms, Run.Forces;
    OpenGateStep(r, n);
    if r.Confirms(n - 1) {
      m := n - 1;
    } else {
      m := PendingWasProposed(r, n - 1);
    }
  }

  lemma QuietStepsKeepGate(u: Setup, s: System, step: Step)
    requires Joint(u, s) && !(step.Tick? && Evaluated(u, s, step.vals, step.now).1)
    requires Next(u, s, step).pending != ""
    ensures s.pending == Next(u, s, step).pending
    ensures !(step.Force? && Index(u.tiers, step.tier) >= 0)
  {
    hide Applied, QueueMoved, LockedTo, EscalatedTo, Transitioned, Resolved, Forced, EV.Evaluated;
    if step.Force? { ForceControl(u, s, step); }
  }

  // ----- the evaluator's view of a run -----

  /** What a step does to the evaluator; a lock of the tier "" is one it rejects. */
  function EvaluatorOp(u: Setup, s: System, step: Step): (op: ER.Op)
    requires |u.tiers| > 0
    ensures op.now == step.now
    ensures op.Tick? <==> step.Tick?
    ensures step.Tick? ==> op == ER.Tick(step.now, step.vals)
  {
    match step
    case Tick(now, vals) => ER.Tick(now, vals)
    case Force(now, tier, d, _) => ER.Lock(now, tier, DurationOr(d, u.Hold()))
    case Release(now) => ER.Unlock(now)
    case Decide(now, n, o) =>
      if !(LiveGate(s, n) && n in s.fired) then ER.Lock(now, "", 0) else
      var onTimeout := s.fired[n].spec.onTimeout;
      (match o
       case Overridden(target, d) =>
         if Index(u.tiers, target) < 0 then ER.Lock(now, s.applied, u.Hold())
         else ER.Lock(now, target, DurationOr(d, u.Hold()))
       case Escalated => ER.Lock(now, Top(u), u.Hold())
       case TimedOut =>
         if onTimeout == "hold" then ER.Lock(now, s.applied, u.Hold())
         else if onTimeout == "escalate" then ER.Lock(now, Top(u), u.Hold())
         else ER.Lock(now, "", 0)
       case _ => ER.Lock(now, "", 0))
    case WriteReq(now, _, _) => ER.Lock(now, "", 0)
    case ReadDepth(now) => ER.Lock(now, "", 0)
  }

  lemma StepIsEvaluatorOp(u: Setup, s: System, step: Step)
    requires WellFormed(u.tiers)
    ensures Next(u, s, step).ev == ER.Apply(u.tiers, u.cfg, s.ev, EvaluatorOp(u, s, step))
  {
    IndexInvertsNames(u.tiers, 0, "");
    hide Applied, QueueMoved, LockedTo, Transitioned, EV.Evaluated;
    if step.Force? && Index(u.tiers, step.tier) >= 0 {
      ForcedControl(u, s, step.tier, step.duration, step.reason, step.now);
    }
  }

  ghost predicate Monotone(r: Run) {
    forall i, j | 0 <= i < j < |r.steps| :: r.steps[i].now <= r.steps[j].now
  }

  function EvaluatorRun(r: Run): ER.Run
    requires |r.u.tiers| > 0 && |r.states| == |r.steps| + 1
  {
    ER.Run(r.u.tiers, r.u.cfg,
           seq(|r.steps|, k requires 0 <= k < |r.steps| => EvaluatorOp(r.u, r.states[k], r.steps[k])),
           seq(|r.states|, k requires 0 <= k < |r.states| => r.states[k].ev))
  }

  lemma EvaluatorRunStep(r: Run, k: nat)
    requires r.Valid() && k < |r.steps|
    ensures EvaluatorRun(r).StepAt(k)
    ensures EvaluatorRun(r).Confirms(k) <==> r.Confirms(k)
  {
    StepTaken(r, k);
    StepIsEvaluatorOp(r.u, r.states[k], r.steps[k]);
    hide Next, ER.Apply, EvaluatorOp, Run.Valid, WellFormed, EV.Evaluated;
  }

  lemma EvaluatorRunStarts(r: Run)
    requires r.Valid()
    ensures WellFormed(r.u.tiers) && EvaluatorRun(r).states[0] == EV.Initial(r.u.tiers)
  {}

  /** Every run of the system is, seen by the evaluator, a run of ticks, locks and unlocks; so everything
      proved about the evaluator alone holds in the system. */
  lemma EvaluatorRunIsValid(r: Run)
    requires r.Valid() && Monotone(r)
    ensures EvaluatorRun(r).Valid()
    ensures forall n | 0 <= n < |r.steps| :: EvaluatorRun(r).Confirms(n) <==> r.Confirms(n)
  {
    hide Run.Valid, WellFormed, Run.Confirms, ER.Run.Confirms, ER.Run.StepAt, EvaluatorOp;
    EvaluatorRunStarts(r);
    forall k | 0 <= k < |r.steps|
      ensures EvaluatorRun(r).StepAt(k) && (EvaluatorRun(r).Confirms(k) <==> r.Confirms(k))
    {
      EvaluatorRunStep(r, k);
    }
  }

  /** The transition budget of the whole system. */
  lemma SystemTransitionBudget(r: Run)
    requires r.Valid() && Monotone(r) && |r.steps| > 0
    ensures EvaluatorRun(r).Valid()
    ensures ER.Cost(EvaluatorRun(r), |r.steps|) <= r.steps[|r.steps| - 1].now - r.steps[0].now
  {
    EvaluatorRunIsValid(r);
    ER.TransitionBudget(EvaluatorRun(r));
  }

  /** Every tick from i to n matched `to` while no lock was in force, and they span the hysteresis of the move. */
  ghost predicate Earned(r: Run, i: nat, n: nat, to: string)
    requires r.Valid() && i <= n < |r.steps|
  {
    && r.steps[i].Tick?
    && (forall k | i <= k <= n && r.steps[k].Tick? ::
          MatchTier(r.u.tiers, r.steps[k].vals) == to && ER.Free(r.states[k].ev, r.steps[k].now))
    && r.steps[n].now - r.steps[i].now
         >= if Index(r.u.tiers, to) > Index(r.u.tiers, r.states[n].ev.current) then r.u.cfg.up else r.u.cfg.down
  }

  lemma ConfirmedTicksAreEarned(r: Run, n: nat) returns (i: nat)
    requires r.Valid() && Monotone(r) && n < |r.steps| && r.Confirms(n)
    ensures i <= n && Earned(r, i, n, r.states[n + 1].ev.current)
  {
    EvaluatorRunIsValid(r);
    var e := EvaluatorRun(r);
    i := ER.ConfirmedMovesHadTheirWindow(e, n);
    var to := r.states[n + 1].ev.current;
    forall k | i <= k <= n && r.steps[k].Tick?
      ensures MatchTier(r.u.tiers, r.steps[k].vals) == to && ER.Free(r.states[k].ev, r.steps[k].now)
    {
      assert e.Undisturbed(k, to);
    }
    assert e.ops[i].Tick?;
  }

  /** An operator, or an escalation, chose the tier outright. */
  predicate Chosen(u: Setup, s: System, step: Step, to: string)
    requires |u.tiers| > 0
  {
    Sanctions(u, s, step, to) && (step.Force? || to != s.pending || step.outcome.Overridden? || step.outcome.Escalated?
      || (step.outcome.TimedOut? && s.fired[step.seqNo].spec.onTimeout == "escalate"))
  }

  /** Where a change of the applied tier can come from. */
  lemma MoveStep(r: Run, n: nat)
    requires r.Valid() && n < |r.steps| && r.states[n + 1].applied != r.states[n].applied
    ensures var to := r.states[n + 1].applied;
      || Chosen(r.u, r.states[n], r.steps[n], to)
      || (r.Confirms(n) && r.states[n + 1].ev.current == to)
      || (r.states[n].pending == to && to != "")
  {
    hide Run.Valid, WellFormed, Next, EV.Evaluated, OutputsTrack, Chosen;
    JointInvariant(r, n);
    StepTaken(r, n);
    if !Chosen(r.u, r.states[n], r.steps[n], r.states[n + 1].applied) {
      MovesComeFromTicksOrApprovals(r.u, r.states[n], r.steps[n]);
    }
  }

  /** Every change of the applied tier is accounted for: either it was chosen outright, or some tick no later
      than it confirmed that very tier after the signals had matched it for the whole hysteresis window, and
      nothing was confirmed or forced between that tick and the change. */
  lemma EveryMoveIsJustified(r: Run, n: nat) returns (m: nat, i: nat)
    requires r.Valid() && Monotone(r) && n < |r.steps| && r.states[n + 1].applied != r.states[n].applied
    ensures var to := r.states[n + 1].applied;
      || Chosen(r.u, r.states[n], r.steps[n], to)
      || (i <= m <= n && r.Confirms(m) && r.states[m + 1].ev.current == to && Earned(r, i, m, to)
            && (forall k | m < k < n :: !r.Confirms(k) && !r.Forces(k)))
  {
    hide Run.Valid, WellFormed, Run.Confirms, Run.Forces, Chosen, Earned, Monotone;
    m, i := 0, 0;
    MoveStep(r, n);
    if !Chosen(r.u, r.states[n], r.steps[n], r.states[n + 1].applied) {
      m := n;
      if !(r.Confirms(n) && r.states[n + 1].ev.current == r.states[n + 1].applied) {
        m := PendingWasProposed(r, n);
      }
      i := ConfirmedTicksAreEarned(r, m);
    }
  }

  lemma MovesComeFromTicksOrApprovals(u: Setup, s: System, step: Step)
    requires Joint(u, s) && Possible(s, step) && Next(u, s, step).applied != s.applied
    requires !Chosen(u, s, step, Next(u, s, step).applied)
    ensures var to := Next(u, s, step).applied;
      || (step.Tick? && Evaluated(u, s, step.vals, step.now).1 && Next(u, s, step).ev.current == to)
      || (step.Decide? && s.pending == to && to != "")
  {
    hide Applied, QueueMoved, LockedTo, EscalatedTo, Transitioned, EV.Evaluated;
    if step.Force? && Index(u.tiers, step.tier) >= 0 {
      ForcedControl(u, s, step.tier, step.duration, step.reason, step.now);
    }
  }

  // ----- locks and convergence in the whole system -----

  /** The step pins the evaluator: an override, or a decision of the open gate that overrides, escalates or holds. */
  predicate LocksEvaluator(u: Setup, s: System, step: Step) {
    match step
    case Force(_, tier, _, _) => Index(u.tiers, tier) >= 0
    case Decide(_, n, o) =>
      && LiveGate(s, n) && n in s.fired
      && (o.Overridden? || o.Escalated? || (o.TimedOut? && s.fired[n].spec.onTimeout in {"hold", "escalate"}))
    case _ => false
  }

  /** Writes, depth reads, releases, refused overrides, approvals and stale decisions all leave the evaluator's
      way to t open. */
  lemma FavoursUnlessLocking(u: Setup, s: System, step: Step, t: string)
    requires Joint(u, s)
    ensures ER.Favours(u.tiers, EvaluatorOp(u, s, step), t)
      <==> (step.Tick? ==> MatchTier(u.tiers, step.vals) == t) && !LocksEvaluator(u, s, step)
  {
    IndexInvertsNames(u.tiers, 0, "");
    IndexInvertsNames(u.tiers, s.appliedIdx, s.applied);
    IndexInvertsNames(u.tiers, |u.tiers| - 1, Top(u));
    hide MatchTier, Index, OutputsTrack, GatesConsistent, Agreement;
  }

  /** An override holds: until it expires, or a release or another lock replaces it, its tier stays applied and
      nothing is pending, whatever the signals, writes and late decisions. */
  lemma OverridesHold(r: Run, m: nat, n: nat)
    requires r.Valid() && Monotone(r) && m < n <= |r.steps| && r.Forces(m)
    requires var until := r.steps[m].now + (if r.steps[m].duration > 0 then r.steps[m].duration else r.u.Hold());
      forall k | m < k < n :: !r.steps[k].Release? && !LocksEvaluator(r.u, r.states[k], r.steps[k])
        && (r.steps[k].Tick? ==> r.steps[k].now < until)
    ensures r.states[n].applied == r.steps[m].tier && r.states[n].pending == ""
  {
    OverrideIsALock(r, m, n);
    var e := EvaluatorRun(r);
    IndexInvertsNames(r.u.tiers, 0, "");
    assert r.steps[m].tier != "";
    hide Run.Valid, WellFormed, ER.Run.Valid, EvaluatorOp, LocksEvaluator, Monotone, OutputsTrack, Index;
    ER.LocksHold(e, m, n);
    JointInvariant(r, n);
    assert e.states[n].locked == r.states[n].ev.locked;
  }

  /** An override ends by the clock: the first tick at or after its expiry is evaluated as if nothing had been
      locked, and confirms any other matched tier at once when the hysteresis of that direction is not positive. */
  lemma OverridesEnd(r: Run, m: nat, n: nat)
    requires r.Valid() && Monotone(r) && m < n < |r.steps| && r.Forces(m) && r.steps[n].Tick?
    requires var until := r.steps[m].now + (if r.steps[m].duration > 0 then r.steps[m].duration else r.u.Hold());
      && r.steps[n].now >= until
      && forall k | m < k < n :: !r.steps[k].Release? && !LocksEvaluator(r.u, r.states[k], r.steps[k])
           && (r.steps[k].Tick? ==> r.steps[k].now < until)
    ensures var from, to := r.steps[m].tier, MatchTier(r.u.tiers, r.steps[n].vals);
      && r.states[n + 1].ev.locked == ""
      && (to == from ==> !r.Confirms(n) && r.states[n + 1].applied == from)
      && (to != from && (if Index(r.u.tiers, to) > Index(r.u.tiers, from) then r.u.cfg.up else r.u.cfg.down) <= 0 ==>
            r.Confirms(n) && r.states[n + 1].ev.current == to)
  {
    hide Run.Valid, WellFormed, ER.Run.Valid, EvaluatorOp, LocksEvaluator, Monotone, Joint, Index, MatchTier, Next;
    hide EV.Evaluated;
    OverrideLockEnds(r, m, n);
    if MatchTier(r.u.tiers, r.steps[n].vals) == r.steps[m].tier {
      OverridesHold(r, m, n);
      UnconfirmedTicksApplyNothing(r, n);
    }
  }

  lemma OverrideLockEnds(r: Run, m: nat, n: nat)
    requires r.Valid() && Monotone(r) && m < n < |r.steps| && r.Forces(m) && r.steps[n].Tick?
    requires var until := r.steps[m].now + (if r.steps[m].duration > 0 then r.steps[m].duration else r.u.Hold());
      && r.steps[n].now >= until
      && forall k | m < k < n :: !r.steps[k].Release? && !LocksEvaluator(r.u, r.states[k], r.steps[k])
           && (r.steps[k].Tick? ==> r.steps[k].now < until)
    ensures var from, to := r.steps[m].tier, MatchTier(r.u.tiers, r.steps[n].vals);
      && r.states[n + 1].ev.locked == ""
      && (to == from ==> !r.Confirms(n))
      && (to != from && (if Index(r.u.tiers, to) > Index(r.u.tiers, from) then r.u.cfg.up else r.u.cfg.down) <= 0 ==>
            r.Confirms(n) && r.states[n + 1].ev.current == to)
  {
    hide Run.Valid, WellFormed, ER.Run.Valid, EvaluatorOp, LocksEvaluator, Monotone, Joint, Index, MatchTier, Next;
    hide EV.Evaluated, ER.LeavesLock;
    OverrideIsALock(r, m, n);
    EvaluatorRunIsValid(r);
    var e := EvaluatorRun(r);
    ER.LocksEnd(e, m, n);
    assert e.states[n + 1] == r.states[n + 1].ev && e.ops[n] == ER.Tick(r.steps[n].now, r.steps[n].vals);
  }

  lemma UnconfirmedTicksApplyNothing(r: Run, n: nat)
    requires r.Valid() && n < |r.steps| && r.steps[n].Tick? && !r.Confirms(n)
    ensures r.states[n + 1].applied == r.states[n].applied
  {
    StepTaken(r, n);
  }

  /** The override as a lock of the evaluator, with nothing after it that ends it. */
  lemma OverrideIsALock(r: Run, m: nat, n: nat)
    requires r.Valid() && Monotone(r) && m < n <= |r.steps| && r.Forces(m)
    requires var until := r.steps[m].now + (if r.steps[m].duration > 0 then r.steps[m].duration else r.u.Hold());
      forall k | m < k < n :: !r.steps[k].Release? && !LocksEvaluator(r.u, r.states[k], r.steps[k])
        && (r.steps[k].Tick? ==> r.steps[k].now < until)
    ensures EvaluatorRun(r).Valid()
    ensures var e := EvaluatorRun(r);
      var until := r.steps[m].now + (if r.steps[m].duration > 0 then r.steps[m].duration else r.u.Hold());
      && e.ops[m].Lock? && e.ops[m].tier == r.steps[m].tier && e.ops[m].now + e.ops[m].duration == until
      && forall k | m < k < n :: ER.LeavesLock(e.tiers, e.ops[k], until)
  {
    EvaluatorRunIsValid(r);
    var e := EvaluatorRun(r);
    assert e.ops[m] == ER.Lock(r.steps[m].now, r.steps[m].tier, DurationOr(r.steps[m].duration, r.u.Hold()));
    hide Run.Valid, WellFormed, ER.Run.Valid, EvaluatorOp, LocksEvaluator, Monotone, OutputsTrack, Index;
    forall k | m < k < n ensures ER.LeavesLock(e.tiers, e.ops[k], e.ops[m].now + e.ops[m].duration) {
      JointInvariant(r, k);
      UnlockOnlyByRelease(r.u, r.states[k], r.steps[k]);
      var seen := if r.steps[k].Tick? then MatchTier(r.u.tiers, r.steps[k].vals) else "";
      FavoursUnlessLocking(r.u, r.states[k], r.steps[k], seen);
    }
  }

  lemma UnlockOnlyByRelease(u: Setup, s: System, step: Step)
    requires |u.tiers| > 0
    ensures EvaluatorOp(u, s, step).Unlock? <==> step.Release?
  {}

  /** From the tick at m on every tick matches t and no step pins the evaluator; by m any lock has run out. */
  ghost predicate SystemSettles(r: Run, m: nat, t: string)
    requires r.Valid()
  {
    && m < |r.steps| && r.steps[m].Tick?
    && (r.states[m].ev.locked == "" || r.states[m].ev.lockUntil <= r.steps[m].now)
    && (forall k | m <= k < |r.steps| ::
          (r.steps[k].Tick? ==> MatchTier(r.u.tiers, r.steps[k].vals) == t)
          && !LocksEvaluator(r.u, r.states[k], r.steps[k]))
  }

  lemma SettlingSystemSettlesEvaluator(r: Run, m: nat, t: string)
    requires r.Valid() && Monotone(r) && SystemSettles(r, m, t)
    ensures EvaluatorRun(r).Valid() && ER.Settles(EvaluatorRun(r), m, t)
  {
    EvaluatorRunIsValid(r);
    var e := EvaluatorRun(r);
    hide Run.Valid, WellFormed, ER.Run.Valid, EvaluatorOp, LocksEvaluator, Joint, ER.Favours, MatchTier, Monotone;
    forall k | m <= k < |r.steps| ensures ER.Favours(e.tiers, e.ops[k], t) {
      JointInvariant(r, k);
      FavoursUnlessLocking(r.u, r.states[k], r.steps[k], t);
    }
  }

  predicate Ungated(u: Setup, t: string) {
    forall i | 0 <= i < |u.tiers| && u.tiers[i].name == t :: u.tiers[i].gateSpec.None?
  }

  /** Convergence of the system: once every tick matches t and nothing pins the evaluator, from the first tick that
      comes the hysteresis of its direction later nothing more is confirmed and t is applied, or held behind its
      gate. When that gate closes, or t has none, t is applied for good. */
  lemma SystemConvergence(r: Run, m: nat, t: string, n: nat)
    requires r.Valid() && Monotone(r) && SystemSettles(r, m, t) && m <= n < |r.steps| && r.steps[n].Tick?
    requires var up := Index(r.u.tiers, t) > Index(r.u.tiers, r.states[m].ev.current);
      r.steps[n].now - r.steps[m].now >= if up then r.u.cfg.up else r.u.cfg.down
    ensures forall k | n < k < |r.steps| :: !r.Confirms(k)
    ensures forall k | n < k <= |r.steps| ::
      var s := r.states[k]; s.ev.current == t && (if s.pending == "" then s.applied == t else s.pending == t)
    ensures forall j, k | n < j <= k <= |r.steps| && (r.states[j].pending == "" || Ungated(r.u, t)) ::
      r.states[k].applied == t && r.states[k].pending == ""
  {
    hide Run.Valid, WellFormed, Run.Confirms, ER.Run.Valid, ER.Run.Confirms, EvaluatorOp, LocksEvaluator;
    hide MatchTier, Next, OutputsTrack, Monotone, SystemSettles, GateSpecOf, Index;
    SettlingSystemSettlesEvaluator(r, m, t);
    EvaluatorRunIsValid(r);
    ER.Convergence(EvaluatorRun(r), m, t, n);
    forall k | n < k <= |r.steps|
      ensures var s := r.states[k];
        s.ev.current == t && (if s.pending == "" then s.applied == t else s.pending == t)
      ensures Ungated(r.u, t) ==> r.states[k].pending == ""
    {
      JointInvariant(r, k);
      if r.states[k].pending != "" { var i := OpenGateIsItsTiers(r, k); }
      assert EvaluatorRun(r).states[k].current == t;
    }
    forall j, k | n < j <= k <= |r.steps| && (r.states[j].pending == "" || Ungated(r.u, t))
      ensures r.states[k].pending == ""
    {
      if r.states[j].pending == "" { NoGateWithoutProposal(r, j, k); }
    }
  }

  /** While nothing is confirmed no gate opens. */
  lemma {:induction false} NoGateWithoutProposal(r: Run, j: nat, k: nat)
    requires r.Valid() && j <= k <= |r.steps| && r.states[j].pending == ""
    requires forall i | j <= i < k :: !r.Confirms(i)
    ensures r.states[k].pending == ""
  {
    hide Run.Valid, WellFormed, Run.Confirms, Run.Forces;
    if j < k {
      NoGateWithoutProposal(r, j, k - 1);
      if r.states[k].pending != "" { OpenGateStep(r, k); }
    }
  }
}
