/** Whole runs of the evaluator: any interleaving of ticks, locks and unlocks. */
module EvaluatorRuns {
  import opened Policy
  import opened Ladder
  import opened Evaluator

  datatype Op =
    | Tick(now: int, vals: Snapshot)
    | Lock(now: int, tier: string, duration: int)
    | Unlock(now: int)

  function Apply(tiers: Tiers, cfg: Config, s: State, op: Op): State {
    match op
    case Tick(now, vals) => Evaluated(tiers, cfg, s, vals, now).0
    case Lock(now, tier, duration) =>
      var r := Locked(tiers, s, tier, duration, now);
      if r.Some? then r.value else s
    case Unlock(_) => Unlocked(s)
  }

  /** No lock is held, or the one held has run out by `now`. */
  predicate Free(s: State, now: int) {
    s.locked == "" || s.lockUntil <= now
  }

  /** A run: states[k] is the evaluator before operation k, states[|ops|] the one at the end. */
  datatype Run = Run(tiers: Tiers, cfg: Config, ops: seq<Op>, states: seq<State>) {

    ghost predicate StepAt(k: nat)
      requires k < |ops| && |states| == |ops| + 1
    {
      states[k + 1] == Apply(tiers, cfg, states[k], ops[k])
    }

    /** The run starts from a new evaluator on a compiled ladder, and time never runs backwards. */
    ghost predicate Valid() {
      && WellFormed(tiers)
      && |states| == |ops| + 1
      && states[0] == Initial(tiers)
      && (forall k | 0 <= k < |ops| :: StepAt(k))
      && (forall i, j | 0 <= i < j < |ops| :: ops[i].now <= ops[j].now)
    }

    /** Operation n is a tick that confirms a transition. */
    predicate Confirms(n: nat)
      requires n < |ops| && |states| == |ops| + 1
    {
      ops[n].Tick? && Evaluated(tiers, cfg, states[n], ops[n].vals, ops[n].now).1
    }

    /** A tick that sees tier `t` with no lock in force, a release, or a rejected lock: the operations
        that leave a window for `t` unbroken. */
    ghost predicate Undisturbed(k: nat, t: string)
      requires k < |ops| && |states| == |ops| + 1
    {
      match ops[k]
      case Tick(now, vals) => MatchTier(tiers, vals) == t && Free(states[k], now)
      case Lock(_, tier, _) => Index(tiers, tier) < 0
      case Unlock(_) => true
    }

    /** From tick i up to (not including) operation n every tick saw `t`, nothing locked the
        evaluator, and its current tier stood still. */
    ghost predicate Window(i: nat, n: nat, t: string)
      requires i < n <= |ops| && |states| == |ops| + 1
    {
      && ops[i].Tick?
      && (forall k | i <= k < n :: Undisturbed(k, t))
      && (forall k | i <= k < n :: states[k].current == states[i].current)
    }

    /** How many of the first n operations confirmed a move in the given direction. */
    function Moves(n: nat, up: bool): nat
      requires n <= |ops| && |states| == |ops| + 1
    {
      if n == 0 then 0 else
      Moves(n - 1, up)
        + (if Confirms(n - 1) && (states[n].currentIdx > states[n - 1].currentIdx) == up then 1 else 0)
    }
  }

  /** The states that a sequence of operations leads through. */
  function {:induction false} Execute(tiers: Tiers, cfg: Config, ops: seq<Op>): (states: seq<State>)
    ensures |states| == |ops| + 1 && states[0] == Initial(tiers)
    ensures forall k | 0 <= k < |ops| :: states[k + 1] == Apply(tiers, cfg, states[k], ops[k])
  {
    if ops == [] then [Initial(tiers)] else
    var before := Execute(tiers, cfg, ops[..|ops| - 1]);
    before + [Apply(tiers, cfg, before[|ops| - 1], ops[|ops| - 1])]
  }

  /** Every sequence of operations at non-decreasing times has a run, and only one. */
  lemma RunsAreExecutions(r: Run)
    requires WellFormed(r.tiers) && forall i, j | 0 <= i < j < |r.ops| :: r.ops[i].now <= r.ops[j].now
    ensures r.Valid() <==> r.states == Execute(r.tiers, r.cfg, r.ops)
  {
    hide Apply;
    if r.Valid() {
      forall n | 0 <= n <= |r.ops| ensures r.states[n] == Execute(r.tiers, r.cfg, r.ops)[n] {
        RunFollowsExecution(r, n);
      }
    }
  }

  lemma {:induction false} RunFollowsExecution(r: Run, n: nat)
    requires r.Valid() && n <= |r.ops|
    ensures r.states[n] == Execute(r.tiers, r.cfg, r.ops)[n]
  {
    hide Apply;
    if n > 0 {
      RunFollowsExecution(r, n - 1);
      assert r.StepAt(n - 1);
    }
  }

  ghost predicate Consistent(tiers: Tiers, s: State) {
    0 <= s.currentIdx < |tiers| && tiers[s.currentIdx].name == s.current && Index(tiers, s.current) == s.currentIdx
  }

  lemma {:induction false} CurrentIsDeclared(r: Run, n: nat)
    requires r.Valid() && n <= |r.ops|
    ensures Consistent(r.tiers, r.states[n])
  {
    if n == 0 {
      IndexInvertsNames(r.tiers, 0, r.tiers[0].name);
    } else {
      hide Apply;
      CurrentIsDeclared(r, n - 1);
      assert r.StepAt(n - 1);
      StepKeepsConsistency(r.tiers, r.cfg, r.states[n - 1], r.ops[n - 1]);
    }
  }

  lemma StepKeepsConsistency(tiers: Tiers, cfg: Config, s: State, op: Op)
    requires WellFormed(tiers) && Consistent(tiers, s)
    ensures Consistent(tiers, Apply(tiers, cfg, s, op))
  {
    if op.Tick? { MatchTierIsMostDegraded(tiers, op.vals); }
    hide Index, MatchTier, MatchIndex, WellFormed;
  }

  /** A tick before `until`, or a lock the evaluator refuses: the operations that leave a lock in place. */
  predicate LeavesLock(tiers: Tiers, op: Op, until: int) {
    match op
    case Tick(now, _) => now < until
    case Lock(_, tier, _) => Index(tiers, tier) < 0
    case Unlock(_) => false
  }

  /** A lock holds: until it expires, is replaced or is released no tick moves the evaluator off the locked tier. */
  lemma {:induction false} LocksHold(r: Run, m: nat, n: nat)
    requires r.Valid() && m < n <= |r.ops|
    requires r.ops[m].Lock? && Index(r.tiers, r.ops[m].tier) >= 0
    requires forall k | m < k < n :: LeavesLock(r.tiers, r.ops[k], r.ops[m].now + r.ops[m].duration)
    ensures var s := r.states[n];
      s.current == r.ops[m].tier == s.locked && s.lockUntil == r.ops[m].now + r.ops[m].duration
    ensures n > m + 1 ==> !r.Confirms(n - 1)
  {
    assert r.StepAt(n - 1);
    if n > m + 1 {
      LocksHold(r, m, n - 1);
      IndexInvertsNames(r.tiers, 0, "");
    } else {
      IndexInvertsNames(r.tiers, 0, "");
    }
  }

  /** Nothing is pending while a lock is held. */
  lemma LockedMeansNothingPending(r: Run, n: nat)
    requires r.Valid() && n <= |r.ops| && r.states[n].locked != ""
    ensures r.states[n].candidate == ""
  {
    if r.states[n].candidate != "" { var i := CandidateHasWindow(r, n); }
  }

  /** A lock ends by the clock: the first tick at or after its expiry is evaluated as if nothing had been locked.
      It stays on the locked tier when the signals still match it; it confirms any other tier at once when the
      hysteresis of that direction is not positive, and begins its window otherwise. */
  lemma LocksEnd(r: Run, m: nat, n: nat)
    requires r.Valid() && m < n < |r.ops| && r.ops[n].Tick?
    requires r.ops[m].Lock? && Index(r.tiers, r.ops[m].tier) >= 0
    requires r.ops[n].now >= r.ops[m].now + r.ops[m].duration
    requires forall k | m < k < n :: LeavesLock(r.tiers, r.ops[k], r.ops[m].now + r.ops[m].duration)
    ensures var from, to, s' := r.ops[m].tier, MatchTier(r.tiers, r.ops[n].vals), r.states[n + 1];
      var wait := if Index(r.tiers, to) > Index(r.tiers, from) then r.cfg.up else r.cfg.down;
      && s'.locked == ""
      && (to == from ==> !r.Confirms(n) && s'.current == from && s'.candidate == "")
      && (to != from && wait <= 0 ==> r.Confirms(n) && s'.current == to)
      && (to != from && wait > 0 ==>
            !r.Confirms(n) && s'.current == from && s'.candidate == to && s'.candidateStart == r.ops[n].now)
  {
    LocksHold(r, m, n);
    LockedMeansNothingPending(r, n);
    CurrentIsDeclared(r, n);
    MatchTierIsMostDegraded(r.tiers, r.ops[n].vals);
    assert r.StepAt(n);
    hide Index, MatchTier, MatchIndex;
  }

  /** What a pending candidate means: the window behind it is unbroken since the candidate's start. */
  ghost predicate Backed(r: Run, i: nat, n: nat)
    requires r.Valid() && n <= |r.ops|
  {
    var s := r.states[n];
    && i < n && r.Window(i, n, s.candidate) && r.ops[i].now == s.candidateStart
    && s.current == r.states[i].current && s.candidate != s.current
    && (s.candidateUp <==> Index(r.tiers, s.candidate) > s.currentIdx)
    && s.locked == ""
  }

  lemma {:induction false} CandidateHasWindow(r: Run, n: nat) returns (i: nat)
    requires r.Valid() && n <= |r.ops| && r.states[n].candidate != ""
    ensures Backed(r, i, n)
  {
    hide Apply, Evaluated, Index, MatchTier, Run.Undisturbed, WellFormed;
    assert r.StepAt(n - 1);
    i := n - 1;
    if r.states[n - 1].candidate != "" { i := CandidateHasWindow(r, n - 1); }
    CandidateStep(r, n - 1);
    if r.states[n - 1].candidate != r.states[n].candidate { i := n - 1; }
  }

  /** A candidate after an operation is either new, seen by that very tick, or carried over undisturbed. */
  lemma CandidateStep(r: Run, k: nat)
    requires r.Valid() && k < |r.ops| && r.StepAt(k) && r.states[k + 1].candidate != ""
    requires r.states[k].candidate != "" ==> r.states[k].locked == ""
    ensures var s, s' := r.states[k], r.states[k + 1];
      && s'.locked == "" && s'.current == s.current
      && r.Undisturbed(k, s'.candidate)
      && (if s.candidate == s'.candidate
          then s' == s.(locked := "", lockUntil := s'.lockUntil)
          else && r.ops[k].Tick? && s'.candidateStart == r.ops[k].now && s'.candidate != s'.current
               && (s'.candidateUp <==> Index(r.tiers, s'.candidate) > s'.currentIdx))
  {}

  /** Hysteresis: a confirmed move to T at time t is preceded by an unbroken run of ticks, all of them
      matching T with no lock in force, that began at least the hysteresis of its direction before t. */
  lemma {:induction false} ConfirmedMovesHadTheirWindow(r: Run, n: nat) returns (i: nat)
    requires r.Valid() && n < |r.ops| && r.Confirms(n)
    ensures var from, to := r.states[n].current, r.states[n + 1].current;
      && i <= n && from != to
      && r.Window(i, n + 1, to)
      && r.states[i].current == from
      && r.ops[n].now - r.ops[i].now >= (if Index(r.tiers, to) > Index(r.tiers, from) then r.cfg.up else r.cfg.down)
  {
    hide Evaluated, LockInForce, MatchTier, Index, WellFormed;
    CurrentIsDeclared(r, n);
    RunIsWellFormed(r);
    assert r.StepAt(n);
    var to := r.states[n + 1].current;
    ConfirmedTickWaited(r.tiers, r.cfg, r.states[n], r.ops[n].vals, r.ops[n].now);
    assert r.Undisturbed(n, to);
    hide Apply, Run.Undisturbed;
    if r.states[n].candidate == to {
      i := CandidateHasWindow(r, n);
    } else {
      i := n;
    }
  }

  lemma ConfirmedTickWaited(tiers: Tiers, cfg: Config, s: State, vals: Snapshot, now: int)
    requires WellFormed(tiers) && Consistent(tiers, s) && Evaluated(tiers, cfg, s, vals, now).1
    ensures var to := Evaluated(tiers, cfg, s, vals, now).0.current;
      && to == MatchTier(tiers, vals) && to != s.current && Free(s, now)
      && (s.candidate == to ==> to != "" && now - s.candidateStart >= Hysteresis(cfg, s.candidateUp))
      && (s.candidate != to ==> Hysteresis(cfg, Index(tiers, to) > Index(tiers, s.current)) <= 0)
  {
    MatchTierIsMostDegraded(tiers, vals);
  }

  /** The start of the pending window, or the last clock reading when nothing is pending. */
  function Anchor(r: Run, n: nat): int
    requires r.Valid() && 0 < n <= |r.ops|
  {
    if r.states[n].candidate != "" then r.states[n].candidateStart else r.ops[n - 1].now
  }

  lemma {:induction false} AnchorNeverRunsAhead(r: Run, n: nat)
    requires r.Valid() && 0 < n <= |r.ops|
    ensures r.ops[0].now <= Anchor(r, n) <= r.ops[n - 1].now
    ensures n > 1 ==> Anchor(r, n - 1) <= Anchor(r, n)
  {
    if n > 1 { AnchorNeverRunsAhead(r, n - 1); }
    assert r.StepAt(n - 1);
  }

  /** A confirmed move advances the anchor by at least its hysteresis. */
  lemma MoveAdvancesAnchor(r: Run, n: nat)
    requires r.Valid() && n < |r.ops| && r.Confirms(n)
    ensures Hysteresis(r.cfg, r.states[n + 1].currentIdx > r.states[n].currentIdx)
            <= Anchor(r, n + 1) - (if n == 0 then r.ops[0].now else Anchor(r, n))
  {
    assert r.StepAt(n);
    CurrentIsDeclared(r, n);
    CurrentIsDeclared(r, n + 1);
    MatchTierIsMostDegraded(r.tiers, r.ops[n].vals);
    if n > 0 { AnchorNeverRunsAhead(r, n + 1); }
    if n > 0 && r.states[n].candidate == r.states[n + 1].current {
      var i := CandidateHasWindow(r, n);
    }
  }

  /** What the first n operations' confirmed moves cost, each direction at its own hysteresis. */
  function Cost(r: Run, n: nat): int
    requires r.Valid() && n <= |r.ops|
  {
    r.Moves(n, true) * r.cfg.up + r.Moves(n, false) * r.cfg.down
  }

  lemma CostOfOneStep(r: Run, n: nat)
    requires r.Valid() && n < |r.ops|
    ensures Cost(r, n + 1) == Cost(r, n)
      + (if r.Confirms(n) then Hysteresis(r.cfg, r.states[n + 1].currentIdx > r.states[n].currentIdx) else 0)
  {
    var u, d := r.Moves(n, true), r.Moves(n, false);
    assert (u + 1) * r.cfg.up == u * r.cfg.up + r.cfg.up;
    assert (d + 1) * r.cfg.down == d * r.cfg.down + r.cfg.down;
  }

  lemma {:induction false} BudgetSoFar(r: Run, n: nat)
    requires r.Valid() && 0 < n <= |r.ops|
    ensures Cost(r, n) <= Anchor(r, n) - r.ops[0].now
  {
    AnchorNeverRunsAhead(r, n);
    CostOfOneStep(r, n - 1);
    if r.Confirms(n - 1) { MoveAdvancesAnchor(r, n - 1); }
    if n == 1 {
      assert Cost(r, 0) == 0;
    } else {
      BudgetSoFar(r, n - 1);
    }
  }

  /** Transition budget: the confirming windows are disjoint, even across locks and candidate changes,
      so the moves of a run cannot cost more than the time the run took. */
  lemma TransitionBudget(r: Run)
    requires r.Valid() && |r.ops| > 0
    ensures Cost(r, |r.ops|) <= r.ops[|r.ops| - 1].now - r.ops[0].now
  {
    BudgetSoFar(r, |r.ops|);
    AnchorNeverRunsAhead(r, |r.ops|);
  }

  /** A tick that matches t, a release, or a lock the evaluator refuses. */
  predicate Favours(tiers: Tiers, op: Op, t: string) {
    match op
    case Tick(_, vals) => MatchTier(tiers, vals) == t
    case Lock(_, tier, _) => Index(tiers, tier) < 0
    case Unlock(_) => true
  }

  /** From the tick at m on every tick matches t and nothing locks the evaluator; by m any lock has run out. */
  ghost predicate Settles(r: Run, m: nat, t: string)
    requires r.Valid()
  {
    && m < |r.ops| && r.ops[m].Tick? && (r.states[m].locked == "" || r.states[m].lockUntil <= r.ops[m].now)
    && (forall k | m <= k < |r.ops| :: Favours(r.tiers, r.ops[k], t))
  }

  /** On the way to t: the current tier, or a candidate of the right direction whose window began by `since`. */
  predicate Settling(s: State, t: string, since: int, up: bool) {
    s.locked == "" && (s.current == t || (s.candidate == t && s.candidateStart <= since && s.candidateUp == up))
  }

  /** A candidate's window is still running at `now`. */
  predicate Waiting(cfg: Config, s: State, now: int) {
    now - s.candidateStart < if s.candidateUp then cfg.up else cfg.down
  }

  lemma SettlingTick(cfg: Config, s: State, t: string, idx: int, since: int, now: int, up: bool)
    requires t != "" && (s.current != t && s.candidate == t ==> s.candidateStart <= since && s.candidateUp == up)
    requires s.current == t || s.candidate == t || (since == now && up == (idx > s.currentIdx))
    ensures var (s', changed) := Settled(cfg, s.(locked := ""), t, idx, now);
      && Settling(s', t, since, up)
      && (s'.current == t || Waiting(cfg, s', now))
      && (s.current == t ==> s'.current == t && !changed)
  {}

  /** The way from the current tier at m to t goes up. */
  predicate Upward(r: Run, m: nat, t: string)
    requires m < |r.states|
  {
    Index(r.tiers, t) > Index(r.tiers, r.states[m].current)
  }

  lemma FirstSettlingTick(r: Run, m: nat, t: string)
    requires r.Valid() && Settles(r, m, t)
    ensures var s := r.states[m + 1];
      Settling(s, t, r.ops[m].now, Upward(r, m, t)) && (s.current == t || Waiting(r.cfg, s, r.ops[m].now))
  {
    assert r.StepAt(m);
    MatchTierIsMostDegraded(r.tiers, r.ops[m].vals);
    CurrentIsDeclared(r, m);
    if m > 0 {
      AnchorNeverRunsAhead(r, m);
      assert r.ops[m - 1].now <= r.ops[m].now;
    }
    if r.states[m].candidate == t { var i := CandidateHasWindow(r, m); }
    hide Index, MatchTier, MatchIndex;
    SettlingTick(r.cfg, r.states[m], t, Index(r.tiers, t), r.ops[m].now, r.ops[m].now, Upward(r, m, t));
  }

  lemma SettlingStep(tiers: Tiers, cfg: Config, s: State, op: Op, t: string, since: int, up: bool)
    requires WellFormed(tiers) && Favours(tiers, op, t) && Settling(s, t, since, up)
    ensures var s' := Apply(tiers, cfg, s, op);
      && Settling(s', t, since, up)
      && (op.Tick? ==> s'.current == t || Waiting(cfg, s', op.now))
      && (s.current == t ==> s'.current == t)
      && (op.Tick? && s.current == t ==> !Evaluated(tiers, cfg, s, op.vals, op.now).1)
  {
    if op.Tick? {
      MatchTierIsMostDegraded(tiers, op.vals);
      SettlingTick(cfg, s, t, Index(tiers, t), since, op.now, up);
    }
  }

  lemma {:induction false} SettlingInvariant(r: Run, m: nat, t: string, n: nat)
    requires r.Valid() && Settles(r, m, t) && m < n <= |r.ops|
    ensures Settling(r.states[n], t, r.ops[m].now, Upward(r, m, t))
    ensures r.ops[n - 1].Tick? ==> r.states[n].current == t || Waiting(r.cfg, r.states[n], r.ops[n - 1].now)
    ensures n > m + 1 && r.states[n - 1].current == t ==> r.states[n].current == t && !r.Confirms(n - 1)
  {
    hide Apply, Settling, Waiting, WellFormed, Favours, Upward;
    if n == m + 1 {
      FirstSettlingTick(r, m, t);
    } else {
      SettlingInvariant(r, m, t, n - 1);
      RunIsWellFormed(r);
      assert r.StepAt(n - 1);
      SettlingStep(r.tiers, r.cfg, r.states[n - 1], r.ops[n - 1], t, r.ops[m].now, Upward(r, m, t));
    }
  }

  lemma RunIsWellFormed(r: Run)
    requires r.Valid()
    ensures WellFormed(r.tiers)
  {}

  lemma {:induction false} StaysSettled(r: Run, m: nat, t: string, n: nat, k: nat)
    requires r.Valid() && Settles(r, m, t)
    requires m < n <= k <= |r.ops| && r.states[n].current == t
    ensures r.states[k].current == t && (n < k ==> !r.Confirms(k - 1))
  {
    if n < k {
      StaysSettled(r, m, t, n, k - 1);
      SettlingInvariant(r, m, t, k);
    }
  }

  /** Convergence: once every tick matches t and nothing locks the evaluator, t is the current tier from the
      first tick on that comes at least the hysteresis of its direction later, and no later tick reports a change. */
  lemma Convergence(r: Run, m: nat, t: string, n: nat)
    requires r.Valid() && Settles(r, m, t) && m <= n < |r.ops| && r.ops[n].Tick?
    requires var up := Index(r.tiers, t) > Index(r.tiers, r.states[m].current);
      r.ops[n].now - r.ops[m].now >= if up then r.cfg.up else r.cfg.down
    ensures forall k | n < k <= |r.ops| :: r.states[k].current == t
    ensures forall k | n < k < |r.ops| :: !r.Confirms(k)
  {
    SettlingInvariant(r, m, t, n + 1);
    forall k | n < k <= |r.ops| ensures r.states[k].current == t { StaysSettled(r, m, t, n + 1, k); }
    forall k | n < k < |r.ops| ensures !r.Confirms(k) { StaysSettled(r, m, t, n + 1, k + 1); }
  }
}
