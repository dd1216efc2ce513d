/** The enforcer: turns the evaluator's proposals into enforced tiers, holding upward moves into gated tiers
    until the gate's decision arrives. Each critical section is one atomic step over the enforcer and its
    collaborators; gate goroutines are recorded in `fired` and may deliver their decision at any later time. */
module Enforcer {
  import opened Policy
  import opened Ladder
  import EV = Evaluator
  import Q = WriteQueue
  import SC = Sidecar

  datatype Outcome =
    | Approved
    | Overridden(target: string, duration: int)
    | Escalated
    | TimedOut
    | Superseded

  datatype Event =
    | Transition(from: string, to: string, reason: string)
    | Override(from: string, to: string, reason: string)
    | QueueDrained(tier: string, count: nat)

  /** A gate goroutine: the tier it was opened for and that tier's gate. */
  datatype Gate = Gate(tier: string, spec: GateSpec)

  /** The evaluator, the enforcer and everything the enforcer drives. */
  datatype System = System(
    ev: EV.State,
    applied: string, appliedIdx: int,
    gateSeq: nat, gateOpen: bool, pending: string, fired: map<nat, Gate>,
    flags: SC.Flags, queue: Option<Q.State>, audit: seq<Event>)

  const DEFAULT_HOLD := 600_000_000_000   // ten minutes

  /** The compiled ladder, the evaluator's hysteresis, and the configured lock duration. */
  datatype Setup = Setup(tiers: Tiers, cfg: EV.Config, hold: int) {
    function Hold(): int {
      if hold <= 0 then DEFAULT_HOLD else hold
    }
  }

  function TierOf(tiers: Tiers, name: string): Option<CompiledTier> {
    var i := Index(tiers, name);
    if i >= 0 then Some(tiers[i]) else None
  }

  function GateSpecOf(tiers: Tiers, name: string): Option<GateSpec> {
    var t := TierOf(tiers, name);
    if t.Some? then t.value.gateSpec else None
  }

  predicate QueueTier(tiers: Tiers, name: string) {
    var t := TierOf(tiers, name);
    t.Some? && t.value.behavior.queueWrites.Some?
  }

  predicate QueueActive(u: Setup, s: System) {
    s.queue.Some? && QueueTier(u.tiers, s.applied)
  }

  function Initial(u: Setup, queue: Option<Q.State>): System {
    var first := if |u.tiers| > 0 then u.tiers[0].name else "";
    System(EV.Initial(u.tiers), first, 0, 0, false, "", map[],
           SC.FlagsFor(SC.TableOf(u.tiers), SC.TableOf(u.tiers).initialTier), queue, [])
  }

  function Cancelled(s: System): System {
    s.(gateOpen := false, pending := "")
  }

  /** The queue's part of applying a tier: entering a queueing tier only reads the depth, leaving one drains. */
  function QueueMoved(u: Setup, s: System, from: string, to: string, now: int): (s': System)
    ensures s' == s.(queue := s'.queue, audit := s'.audit)
  {
    if s.queue.None? then s
    else if QueueTier(u.tiers, to) then s.(queue := Some(Q.Evicted(s.queue.value, now)))
    else if QueueTier(u.tiers, from) then
      var (q, writes) := Q.Drained(s.queue.value, now);
      s.(queue := Some(q), audit := s.audit + [QueueDrained(to, |writes|)])
    else s
  }

  /** Two systems with the same evaluator and the same gates. */
  ghost predicate SameControl(s: System, s': System) {
    && s'.ev == s.ev && s'.gateSeq == s.gateSeq && s'.gateOpen == s.gateOpen
    && s'.pending == s.pending && s'.fired == s.fired
  }

  function Applied(u: Setup, s: System, to: string, reason: string, now: int): (s': System)
    ensures SameControl(s, s') && s'.applied == to
    ensures to != s.applied ==> s'.appliedIdx == Index(u.tiers, to)
    ensures to == s.applied ==> s' == s
  {
    if to == s.applied then s else
    var moved := s.(applied := to, appliedIdx := Index(u.tiers, to),
                    audit := s.audit + [Transition(s.applied, to, reason)],
                    flags := SC.FlagsFor(SC.TableOf(u.tiers), to));
    QueueMoved(u, moved, s.applied, to, now)
  }

  /** Pins the evaluator; an unknown tier is only logged. */
  function LockedTo(u: Setup, s: System, tier: string, duration: int, now: int): (s': System)
    ensures s' == s.(ev := s'.ev)
    ensures s'.ev == (if Index(u.tiers, tier) >= 0 then EV.Locked(u.tiers, s.ev, tier, duration, now).value else s.ev)
  {
    var r := EV.Locked(u.tiers, s.ev, tier, duration, now);
    if r.Some? then s.(ev := r.value) else s
  }

  function GateOpened(s: System, tier: string, spec: GateSpec): System {
    s.(gateSeq := s.gateSeq + 1, gateOpen := true, pending := tier,
       fired := s.fired[s.gateSeq + 1 := Gate(tier, spec)])
  }

  /** HandleTransition for a confirmed move to `to`. */
  function Transitioned(u: Setup, s: System, to: string, now: int): (s': System)
    ensures s'.ev == s.ev
    ensures || (s'.pending == "" && s'.gateSeq == s.gateSeq && s'.fired == s.fired)
            || (s'.pending == to && s'.gateSeq == s.gateSeq + 1 && s'.applied == s.applied
                && s'.appliedIdx == s.appliedIdx)
    ensures s'.applied == s.applied || s'.applied == to
    ensures s'.applied == s.applied ==> s'.appliedIdx == s.appliedIdx
    ensures s'.applied == s.applied || GateSpecOf(u.tiers, to).None? || s'.appliedIdx <= s.appliedIdx
  {
    var s := Cancelled(s);
    if to == s.applied then s else
    var spec := GateSpecOf(u.tiers, to);
    if spec.Some? && Index(u.tiers, to) > s.appliedIdx then GateOpened(s, to, spec.value)
    else Applied(u, s, to, "signals", now)
  }

  function DurationOr(d: int, default: int): int {
    if d <= 0 then default else d
  }

  function Forced(u: Setup, s: System, tier: string, duration: int, reason: string, now: int): (System, bool) {
    if Index(u.tiers, tier) < 0 then (s, false) else
    var s := Cancelled(LockedTo(u, s, tier, DurationOr(duration, u.Hold()), now));
    var s := s.(audit := s.audit + [Override(s.applied, tier, reason)]);
    (Applied(u, s, tier, reason, now), true)
  }

  lemma ForcedControl(u: Setup, s: System, tier: string, duration: int, reason: string, now: int)
    requires Index(u.tiers, tier) >= 0
    ensures var s' := Forced(u, s, tier, duration, reason, now).0;
      && s'.applied == tier && s'.pending == "" && s'.gateSeq == s.gateSeq && s'.fired == s.fired
      && s'.ev == EV.Locked(u.tiers, s.ev, tier, DurationOr(duration, u.Hold()), now).value
  {}

  function Released(s: System): System {
    s.(ev := EV.Unlocked(s.ev))
  }

  function EscalatedTo(u: Setup, s: System, reason: string, now: int): (s': System)
    requires |u.tiers| > 0
    ensures SameControl(LockedTo(u, s, u.tiers[|u.tiers| - 1].name, u.Hold(), now), s')
    ensures s'.applied == u.tiers[|u.tiers| - 1].name
  {
    var top := u.tiers[|u.tiers| - 1].name;
    Applied(u, LockedTo(u, s, top, u.Hold(), now), top, reason, now)
  }

  /** The gate with this number is the one being held; any other decision is stale. */
  predicate LiveGate(s: System, seqNo: nat) {
    seqNo == s.gateSeq && s.pending != ""
  }

  function TimedOutTo(u: Setup, s: System, gate: Gate, now: int): (s': System)
    requires |u.tiers| > 0
    ensures s'.gateSeq == s.gateSeq && s'.fired == s.fired && s'.pending == s.pending
  {
    if gate.spec.onTimeout == "hold" then LockedTo(u, s, s.applied, u.Hold(), now)
    else if gate.spec.onTimeout == "escalate" then EscalatedTo(u, s, "gate timeout: escalate", now)
    else Applied(u, s, gate.tier, "gate timeout: execute_policy", now)
  }

  function Resolved(u: Setup, s: System, seqNo: nat, gate: Gate, o: Outcome, now: int): (s': System)
    requires |u.tiers| > 0
    ensures s'.gateSeq == s.gateSeq && s'.fired == s.fired
    ensures if LiveGate(s, seqNo) then s'.pending == "" else s' == s
  {
    if !LiveGate(s, seqNo) then s else
    var s := Cancelled(s);
    match o
    case Approved => Applied(u, s, gate.tier, "gate approved", now)
    case Overridden(target, duration) =>
      if Index(u.tiers, target) < 0 then LockedTo(u, s, s.applied, u.Hold(), now)
      else Applied(u, LockedTo(u, s, target, DurationOr(duration, u.Hold()), now), target, "gate override", now)
    case Escalated => EscalatedTo(u, s, "gate escalated", now)
    case TimedOut => TimedOutTo(u, s, gate, now)
    case Superseded => s
  }

  // ----- what the lookups and the application of a tier mean on the tiers themselves -----

  /** Gate and buffering of a name are those of the tier that has it; an undeclared name has neither. */
  lemma LookupsFindTheTier(tiers: Tiers, name: string)
    requires WellFormed(tiers)
    ensures forall i | 0 <= i < |tiers| && tiers[i].name == name ::
      && Index(tiers, name) == i
      && GateSpecOf(tiers, name) == tiers[i].gateSpec
      && (QueueTier(tiers, name) <==> tiers[i].behavior.queueWrites.Some?)
    ensures (forall i | 0 <= i < |tiers| :: tiers[i].name != name) ==>
      Index(tiers, name) == -1 && GateSpecOf(tiers, name) == None && !QueueTier(tiers, name)
  {
    forall i | 0 <= i < |tiers| && tiers[i].name == name ensures Index(tiers, name) == i {
      IndexInvertsNames(tiers, i, name);
    }
  }

  /** Moving from tier k to tier i: the transition is logged with its reason; the live writes stay queued when tier
      i buffers, and leave the queue with a log entry that counts them when only tier k does. */
  lemma AppliedTable(u: Setup, s: System, k: nat, i: nat, reason: string, now: int)
    requires WellFormed(u.tiers) && k < |u.tiers| && i < |u.tiers| && i != k && s.applied == u.tiers[k].name
    ensures var to := u.tiers[i].name;
      var s' := Applied(u, s, to, reason, now);
      var moved := Transition(u.tiers[k].name, to, reason);
      && s'.appliedIdx == i
      && (s.queue.None? ==> s'.queue == None && s'.audit == s.audit + [moved])
      && (s.queue.Some? ==>
            var q := s.queue.value;
            var live := Q.Kept(q.items, q.ttl, now);
            var expired := |q.items| - |live|;
            if u.tiers[i].behavior.queueWrites.Some?
            then s'.queue == Some(q.(items := live, dropped := q.dropped + expired)) && s'.audit == s.audit + [moved]
            else if u.tiers[k].behavior.queueWrites.Some?
            then && s'.queue == Some(q.(items := [], dropped := q.dropped + expired))
                 && s'.audit == s.audit + [moved, QueueDrained(to, |live|)]
            else s'.queue == s.queue && s'.audit == s.audit + [moved])
  {
    LookupsFindTheTier(u.tiers, u.tiers[k].name);
    LookupsFindTheTier(u.tiers, u.tiers[i].name);
    assert u.tiers[i].name != u.tiers[k].name;
    hide Index, Q.Kept, WellFormed, QueueTier, SC.FlagsFor, SC.TableOf;
  }

  class Enforcer {
    const u: Setup
    const sidecar: SC.Server
    const queue: Q.Queue?
    const locker: EV.TierEvaluator
    var applied: string
    var appliedIdx: int
    var gateSeq: nat
    var gateOpen: bool          // a cancel function is held
    var pendingTier: string
    var fired: map<nat, Gate>   // the gate goroutines started so far
    var audit: seq<Event>

    ghost function Repr(): set<object?> reads this, queue {
      if queue == null then {this, sidecar, locker} else {this, sidecar, locker, queue, queue.buf}
    }

    ghost predicate Valid() reads this, Repr() {
      && |u.tiers| > 0
      && locker.tiers == u.tiers && locker.cfg == u.cfg
      && sidecar.policy == Some(SC.TableOf(u.tiers))
      && (queue != null ==> queue.Valid())
    }

    ghost function QueueFields(): Option<Q.State>
      requires Valid()
      reads this, Repr()
    {
      if queue == null then None else Some(queue.Fields())
    }

    ghost function Fields(): System
      requires Valid()
      reads this, Repr()
    {
      System(locker.Fields(), applied, appliedIdx, gateSeq, gateOpen, pendingTier, fired,
             sidecar.Served(), QueueFields(), audit)
    }

    constructor (u: Setup, sidecar: SC.Server, queue: Q.Queue?, locker: EV.TierEvaluator)
      requires |u.tiers| > 0
      requires locker.tiers == u.tiers && locker.cfg == u.cfg && locker.Fields() == EV.Initial(u.tiers)
      requires queue != null ==> queue.Valid()
      modifies sidecar
      ensures Valid() && this.u == u && this.sidecar == sidecar && this.queue == queue && this.locker == locker
      ensures Fields() == Initial(u, QueueFields())
    {
      this.u, this.sidecar, this.queue, this.locker := u, sidecar, queue, locker;
      applied := u.tiers[0].name;
      appliedIdx, gateSeq, gateOpen, pendingTier, fired, audit := 0, 0, false, "", map[], [];
      new;
      var table := SC.PolicyFromBundle(u.tiers);
      sidecar.UsePolicy(table);
    }

    method CancelGate()
      requires Valid()
      modifies this
      ensures Valid() && Repr() == old(Repr()) && Fields() == Cancelled(old(Fields()))
    {
      if gateOpen { gateOpen := false; }
      pendingTier := "";
    }

    method MoveQueue(from: string, to: string, now: int)
      requires Valid()
      modifies Repr()
      ensures Valid() && fresh(Repr() - old(Repr()))
      ensures Fields() == QueueMoved(u, old(Fields()), from, to, now)
    {
      if queue != null {
        if QueueTier(u.tiers, to) {
          var _ := queue.Depth(now);
        } else if QueueTier(u.tiers, from) {
          var writes := queue.Drain(now);
          audit := audit + [QueueDrained(to, writes.Length)];
        }
      }
    }

    method Apply(to: string, reason: string, now: int)
      requires Valid()
      modifies Repr()
      ensures Valid() && fresh(Repr() - old(Repr()))
      ensures Fields() == Applied(u, old(Fields()), to, reason, now)
    {
      if to == applied { return; }
      var from := applied;
      applied := to;
      appliedIdx := Index(u.tiers, to);
      audit := audit + [Transition(from, to, reason)];
      sidecar.SetTier(to);
      MoveQueue(from, to, now);
    }

    method Lock(tier: string, duration: int, now: int)
      requires Valid()
      modifies locker
      ensures Valid() && Repr() == old(Repr()) && Fields() == LockedTo(u, old(Fields()), tier, duration, now)
    {
      var _ := locker.LockTier(tier, duration, now);
    }

    method Escalate(reason: string, now: int)
      requires Valid()
      modifies Repr()
      ensures Valid() && fresh(Repr() - old(Repr()))
      ensures Fields() == EscalatedTo(u, old(Fields()), reason, now)
    {
      var top := u.tiers[|u.tiers| - 1].name;
      Lock(top, u.Hold(), now);
      Apply(top, reason, now);
    }

    method OpenGate(tier: string, spec: GateSpec)
      requires Valid()
      modifies this
      ensures Valid() && Repr() == old(Repr()) && Fields() == GateOpened(old(Fields()), tier, spec)
    {
      gateSeq := gateSeq + 1;
      gateOpen := true;
      pendingTier := tier;
      fired := fired[gateSeq := Gate(tier, spec)];
    }

    method HandleTransition(to: string, now: int)
      requires Valid()
      modifies Repr()
      ensures Valid() && fresh(Repr() - old(Repr()))
      ensures Fields() == Transitioned(u, old(Fields()), to, now)
    {
      CancelGate();
      if to == applied { return; }
      var spec := GateSpecOf(u.tiers, to);
      if spec.Some? && Index(u.tiers, to) > appliedIdx {
        OpenGate(to, spec.value);
        return;
      }
      Apply(to, "signals", now);
    }

    method Force(tier: string, duration: int, reason: string, now: int) returns (ok: bool)
      requires Valid()
      modifies Repr()
      ensures Valid() && fresh(Repr() - old(Repr()))
      ensures (Fields(), ok) == Forced(u, old(Fields()), tier, duration, reason, now)
    {
      if Index(u.tiers, tier) < 0 { return false; }
      var d := duration;
      if d <= 0 { d := u.Hold(); }
      ok := locker.LockTier(tier, d, now);
      if !ok { return; }
      CancelGate();
      audit := audit + [Override(applied, tier, reason)];
      Apply(tier, reason, now);
    }

    method Release()
      requires Valid()
      modifies locker
      ensures Valid() && Repr() == old(Repr()) && Fields() == Released(old(Fields()))
    {
      locker.Unlock();
    }

    method ResolveGate(seqNo: nat, gate: Gate, o: Outcome, now: int)
      requires Valid()
      modifies Repr()
      ensures Valid() && fresh(Repr() - old(Repr()))
      ensures Fields() == Resolved(u, old(Fields()), seqNo, gate, o, now)
    {
      if seqNo != gateSeq || pendingTier == "" { return; }
      hide Applied, QueueMoved, LockedTo, EscalatedTo, Index;
      gateOpen := false;
      pendingTier := "";
      assert Fields() == Cancelled(old(Fields()));
      match o {
        case Approved =>
          Apply(gate.tier, "gate approved", now);
        case Overridden(target, duration) =>
          if Index(u.tiers, target) < 0 {
            Lock(applied, u.Hold(), now);
            return;
          }
          var dur := duration;
          if dur <= 0 { dur := u.Hold(); }
          Lock(target, dur, now);
          Apply(target, "gate override", now);
        case Escalated =>
          Escalate("gate escalated", now);
        case TimedOut =>
          TimeOut(gate, now);
        case Superseded =>
      }
    }

    /** The gate's timeout policy, with the gate already dropped. */
    method TimeOut(gate: Gate, now: int)
      requires Valid()
      modifies Repr()
      ensures Valid() && fresh(Repr() - old(Repr()))
      ensures Fields() == TimedOutTo(u, old(Fields()), gate, now)
    {
      hide Applied, LockedTo, EscalatedTo, Index;
      if gate.spec.onTimeout == "hold" {
        Lock(applied, u.Hold(), now);
      } else if gate.spec.onTimeout == "escalate" {
        Escalate("gate timeout: escalate", now);
      } else {
        Apply(gate.tier, "gate timeout: execute_policy", now);
      }
    }
  }
}
