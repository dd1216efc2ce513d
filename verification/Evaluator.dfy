/** The tier evaluator: hysteresis on the matched tier, and locks that pin the current tier.
    Each critical section is one atomic step; the clock reading is a parameter. */
module Evaluator {
  import opened Policy
  import opened Ladder

  /** `up` and `down` are the hysteresis durations for degrading and for recovering. */
  datatype Config = Config(up: int, down: int)

  /** The evaluator's fields; an empty `candidate` or `locked` means there is none. */
  datatype State = State(
    current: string, currentIdx: int,
    candidate: string, candidateStart: int, candidateUp: bool,
    locked: string, lockUntil: int)

  function Initial(tiers: Tiers): State {
    State(if |tiers| > 0 then tiers[0].name else "", 0, "", 0, false, "", 0)
  }

  predicate LockInForce(s: State, now: int) {
    s.locked != "" && now < s.lockUntil
  }

  function Hysteresis(cfg: Config, up: bool): int {
    if up then cfg.up else cfg.down
  }

  /** The hysteresis step for a matched tier `candidate`, when no lock is in force. */
  function Settled(cfg: Config, s: State, candidate: string, idx: int, now: int): (State, bool) {
    if candidate == s.current then (s.(candidate := ""), false) else
    var up := idx > s.currentIdx;
    var isNew := s.candidate != candidate;
    var s := if isNew then s.(candidate := candidate, candidateStart := now, candidateUp := up) else s;
    if isNew && Hysteresis(cfg, up) > 0 then (s, false)
    else if now - s.candidateStart >= Hysteresis(cfg, s.candidateUp)
    then (s.(current := candidate, currentIdx := idx, candidate := ""), true)
    else (s, false)
  }

  /** One evaluation at time `now`: the new state and whether a transition was confirmed. */
  function Evaluated(tiers: Tiers, cfg: Config, s: State, vals: Snapshot, now: int): (State, bool) {
    if LockInForce(s, now) then (s, false)
    else
      var candidate := MatchTier(tiers, vals);
      Settled(cfg, s.(locked := ""), candidate, Index(tiers, candidate), now)
  }

  /** Pins the evaluator to a declared tier; None when the tier is unknown. */
  function Locked(tiers: Tiers, s: State, tier: string, duration: int, now: int): Option<State> {
    var i := Index(tiers, tier);
    if i < 0 then None
    else Some(s.(locked := tier, lockUntil := now + duration, current := tier, currentIdx := i, candidate := ""))
  }

  function Unlocked(s: State): State {
    s.(locked := "", lockUntil := 0)
  }

  class TierEvaluator {
    const tiers: Tiers
    const cfg: Config
    var currentTier: string
    var currentTierIdx: int
    var candidateTier: string
    var candidateStart: int
    var candidateUp: bool
    var lockedTier: string
    var lockUntil: int

    ghost function Fields(): State reads this {
      State(currentTier, currentTierIdx, candidateTier, candidateStart, candidateUp, lockedTier, lockUntil)
    }

    constructor (tiers: Tiers, cfg: Config)
      ensures this.tiers == tiers && this.cfg == cfg
      ensures Fields() == Initial(tiers)
    {
      this.tiers, this.cfg := tiers, cfg;
      currentTier := if |tiers| > 0 then tiers[0].name else "";
      currentTierIdx := 0;
      candidateTier, candidateStart, candidateUp := "", 0, false;
      lockedTier, lockUntil := "", 0;
    }

    method LockTier(tierName: string, duration: int, now: int) returns (ok: bool)
      modifies this
      ensures ok <==> Locked(tiers, old(Fields()), tierName, duration, now).Some?
      ensures Fields() == if ok then Locked(tiers, old(Fields()), tierName, duration, now).value else old(Fields())
    {
      var idx := Index(tiers, tierName);
      if idx < 0 { return false; }
      lockedTier := tierName;
      lockUntil := now + duration;
      currentTier := tierName;
      currentTierIdx := idx;
      candidateTier := "";
      return true;
    }

    method Unlock()
      modifies this
      ensures Fields() == Unlocked(old(Fields()))
    {
      lockedTier, lockUntil := "", 0;
    }

    method LockState(now: int) returns (tier: string, until: int, locked: bool)
      ensures locked <==> lockedTier != "" && now < lockUntil
      ensures locked ==> tier == lockedTier && until == lockUntil
      ensures !locked ==> tier == "" && until == 0
    {
      if lockedTier == "" || !(now < lockUntil) { return "", 0, false; }
      return lockedTier, lockUntil, true;
    }

    method Evaluate(vals: Snapshot, now: int) returns (newTier: string, changed: bool)
      modifies this
      ensures (Fields(), changed) == Evaluated(tiers, cfg, old(Fields()), vals, now)
      ensures newTier == currentTier
    {
      if lockedTier != "" && now < lockUntil { return currentTier, false; }
      if lockedTier != "" { lockedTier := ""; }
      var candidate := MatchTier(tiers, vals);
      if candidate == currentTier {
        candidateTier := "";
        return currentTier, false;
      }
      var candidateIdx := Index(tiers, candidate);
      var isUpward := candidateIdx > currentTierIdx;
      if candidateTier != candidate {
        candidateTier := candidate;
        candidateStart := now;
        candidateUp := isUpward;
        var hysteresisCheck := cfg.down;
        if isUpward { hysteresisCheck := cfg.up; }
        if hysteresisCheck > 0 { return currentTier, false; }
      }
      var hysteresis := cfg.down;
      if candidateUp { hysteresis := cfg.up; }
      if now - candidateStart >= hysteresis {
        currentTier := candidate;
        currentTierIdx := candidateIdx;
        candidateTier := "";
        return currentTier, true;
      }
      return currentTier, false;
    }
  }
}
