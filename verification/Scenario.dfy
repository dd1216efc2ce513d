/** The scenario generator: signal values that make the runtime pick a given tier. */
module Scenario {
  import opened Policy
  import opened Ladder
  import opened Intervals

  /** A value for one comparator. A non-strict lower bound wins over a strict one, a strict upper bound over a
      non-strict one. */
  function PickValue(c: Comparator): real {
    if c.eq.Some? then c.eq.value else
    var lo := if c.gte.Some? then c.gte else c.gt;
    var hi := if c.lt.Some? then c.lt else c.lte;
    if lo.Some? && hi.Some? then (lo.value + hi.value) / 2.0
    else if lo.Some? && c.gte.Some? then lo.value
    else if lo.Some? then (if lo.value == 0.0 then 1.0 else lo.value * 1.1)
    else if hi.Some? then (if hi.value > 0.0 then hi.value / 2.0 else hi.value - 1.0)
    else 0.0
  }

  /** A strict lower bound below zero with no upper bound: scaling it up moves it the wrong way. */
  predicate LoneNegativeGt(c: Comparator) {
    c.gt.Some? && c.gt.value < 0.0 && c.lt.None? && c.lte.None?
  }

  /** The bounds the pick reads: an eq alone, else one bound per side. */
  function Used(c: Comparator): Comparator {
    if c.eq.Some? then Comparator(None, None, None, None, c.eq)
    else Comparator(c.lt, if c.lt.Some? then None else c.lte, if c.gte.Some? then None else c.gt, c.gte, None)
  }

  /** The bounds the pick does not read leave room for it: those beside an eq hold at its value, a gt beside a gte
      lies below the middle of gte and the upper bound, or below gte, and an lte beside an lt not below the
      middle, or half of lt, or one below it. */
  predicate UnusedLeaveRoom(c: Comparator) {
    if c.eq.Some? then EvalComparator(c.eq.value, c.(eq := None))
    else
      var used := Used(c);
      && (c.gte.Some? && c.gt.Some? ==>
            if used.lt.Some? then 2.0 * c.gt.value < c.gte.value + used.lt.value
            else if used.lte.Some? then 2.0 * c.gt.value < c.gte.value + used.lte.value
            else c.gt.value < c.gte.value)
      && (c.lt.Some? && c.lte.Some? ==>
            if used.gte.Some? then used.gte.value + c.lt.value <= 2.0 * c.lte.value
            else if used.gt.Some? then used.gt.value + c.lt.value <= 2.0 * c.lte.value
            else if c.lt.value > 0.0 then c.lt.value <= 2.0 * c.lte.value
            else c.lt.value - 1.0 <= c.lte.value)
  }

  /** The exact condition, for every comparator: the picked value satisfies it if and only if some value satisfies
      the bounds the pick reads, they are not a lone gt on a negative threshold, and the others leave room. */
  lemma PickValueIsExact(c: Comparator)
    ensures EvalComparator(PickValue(c), c)
      <==> Satisfiable(Used(c)) && !LoneNegativeGt(Used(c)) && UnusedLeaveRoom(c)
  {
    if Satisfiable(Used(c)) { var v :| EvalComparator(v, Used(c)); }
    if EvalComparator(PickValue(c), c) { assert EvalComparator(PickValue(c), Used(c)); }
  }

  /** Satisfiable comparators whose pick fails although they are no lone negative gt: { gte: 3, gt: 5 } gets 3,
      { gte: 0, lt: 20, lte: 5 } gets 10. */
  lemma UnusedBoundsMislead(c: Comparator)
    requires c == Comparator(None, None, Some(5.0), Some(3.0), None)
      || c == Comparator(Some(20.0), Some(5.0), None, Some(0.0), None)
    ensures Satisfiable(c) && !LoneNegativeGt(c) && !EvalComparator(PickValue(c), c)
  {
    assert EvalComparator(if c.gt.Some? then 6.0 else 1.0, c);
  }

  // ----- the witness of a condition -----

  function Picks(c: Condition): Snapshot {
    map id | id in c.comparisons :: PickValue(c.comparisons[id])
  }

  /** Writes a value for every comparison of the node, of all its all_of branches and of its first any_of branch. */
  function Witnessed(c: Condition, vals: Snapshot): Snapshot
    decreases c, |c.allOf| + 1
  {
    var all := WitnessedAll(c, |c.allOf|, vals + Picks(c));
    if |c.anyOf| > 0 then Witnessed(c.anyOf[0], all) else all
  }

  function WitnessedAll(c: Condition, n: nat, vals: Snapshot): Snapshot
    requires n <= |c.allOf|
    decreases c, n
  {
    if n == 0 then vals else Witnessed(c.allOf[n - 1], WitnessedAll(c, n - 1, vals))
  }

  class Assignment {
    var vals: Snapshot

    constructor (signals: seq<string>)
      ensures vals == map id | id in signals :: 0.0
    {
      vals := map id | id in signals :: 0.0;
    }

    /** Overwrites the map in place; the comparisons are visited in an arbitrary order. */
    method Witness(c: Condition)
      modifies this
      ensures vals == Witnessed(c, old(vals))
      decreases c
    {
      var todo := c.comparisons.Keys;
      while todo != {}
        invariant todo <= c.comparisons.Keys
        invariant vals == old(vals) + map id | id in c.comparisons.Keys - todo :: PickValue(c.comparisons[id])
      {
        var id :| id in todo;
        todo := todo - {id};
        vals := vals[id := PickValue(c.comparisons[id])];
      }
      for i := 0 to |c.allOf|
        invariant vals == WitnessedAll(c, i, old(vals) + Picks(c))
      {
        Witness(c.allOf[i]);
      }
      if |c.anyOf| > 0 { Witness(c.anyOf[0]); }
    }
  }

  /** The signals the witness writes. */
  function Visited(c: Condition): set<string>
    decreases c, |c.allOf| + 1
  {
    c.comparisons.Keys + VisitedAll(c, |c.allOf|) + (if |c.anyOf| > 0 then Visited(c.anyOf[0]) else {})
  }

  function VisitedAll(c: Condition, n: nat): set<string>
    requires n <= |c.allOf|
    decreases c, n
  {
    if n == 0 then {} else VisitedAll(c, n - 1) + Visited(c.allOf[n - 1])
  }

  /** The signals whose values decide the condition when only the first branch of each any_of counts. */
  function Needed(c: Condition): set<string>
    decreases c, |c.allOf| + 1
  {
    if |c.allOf| > 0 then NeededAll(c, |c.allOf|)
    else if |c.anyOf| > 0 then Needed(c.anyOf[0])
    else c.comparisons.Keys
  }

  function NeededAll(c: Condition, n: nat): set<string>
    requires n <= |c.allOf|
    decreases c, n
  {
    if n == 0 then {} else NeededAll(c, n - 1) + Needed(c.allOf[n - 1])
  }

  /** The witness of a later branch overwrites no signal that an earlier one needs. */
  predicate Linear(c: Condition)
    decreases c, |c.allOf| + 1
  {
    && LinearAll(c, |c.allOf|)
    && (|c.anyOf| > 0 ==>
          if |c.allOf| > 0 then Visited(c.anyOf[0]) !! NeededAll(c, |c.allOf|) else Linear(c.anyOf[0]))
  }

  predicate LinearAll(c: Condition, n: nat)
    requires n <= |c.allOf|
    decreases c, n
  {
    n > 0 ==> LinearAll(c, n - 1) && Linear(c.allOf[n - 1]) && Visited(c.allOf[n - 1]) !! NeededAll(c, n - 1)
  }

  predicate PicksAccepted(c: Condition) {
    forall id | id in c.comparisons :: EvalComparator(PickValue(c.comparisons[id]), c.comparisons[id])
  }

  /** Every comparator that decides the condition accepts its pick; `PickValueIsExact` says when one does. */
  predicate Pickable(c: Condition)
    decreases c, |c.allOf| + 1
  {
    if |c.allOf| > 0 then PickableAll(c, |c.allOf|)
    else if |c.anyOf| > 0 then Pickable(c.anyOf[0])
    else PicksAccepted(c)
  }

  predicate PickableAll(c: Condition, n: nat)
    requires n <= |c.allOf|
    decreases c, n
  {
    n > 0 ==> PickableAll(c, n - 1) && Pickable(c.allOf[n - 1])
  }

  /** The condition holds, taking the first branch of each any_of. */
  predicate HoldsByFirst(c: Condition, vals: Snapshot)
    decreases c, |c.allOf| + 1
  {
    if |c.allOf| > 0 then AllHoldByFirst(c, |c.allOf|, vals)
    else if |c.anyOf| > 0 then HoldsByFirst(c.anyOf[0], vals)
    else EvalCondition(c, vals)
  }

  predicate AllHoldByFirst(c: Condition, n: nat, vals: Snapshot)
    requires n <= |c.allOf|
    decreases c, n
  {
    n > 0 ==> AllHoldByFirst(c, n - 1, vals) && HoldsByFirst(c.allOf[n - 1], vals)
  }

  /** No any_of that decides the condition has a second branch. */
  predicate OneBranch(c: Condition) {
    && (forall sub | sub in c.allOf :: OneBranch(sub))
    && (c.allOf == [] && |c.anyOf| > 0 ==> |c.anyOf| == 1 && OneBranch(c.anyOf[0]))
  }

  lemma {:induction false} HoldingByFirstSatisfies(c: Condition, vals: Snapshot)
    ensures HoldsByFirst(c, vals) ==> EvalCondition(c, vals)
    ensures OneBranch(c) ==> (HoldsByFirst(c, vals) <==> EvalCondition(c, vals))
    decreases c, |c.allOf| + 1
  {
    if |c.allOf| > 0 {
      AllHoldingByFirstSatisfies(c, |c.allOf|, vals);
      assert c.allOf[..|c.allOf|] == c.allOf;
    } else if |c.anyOf| > 0 {
      HoldingByFirstSatisfies(c.anyOf[0], vals);
      assert |c.anyOf| == 1 ==> c.anyOf == [c.anyOf[0]];
    }
  }

  lemma {:induction false} AllHoldingByFirstSatisfies(c: Condition, n: nat, vals: Snapshot)
    requires n <= |c.allOf|
    ensures AllHoldByFirst(c, n, vals) ==> forall sub | sub in c.allOf[..n] :: EvalCondition(sub, vals)
    ensures OneBranch(c) ==>
      (AllHoldByFirst(c, n, vals) <==> forall sub | sub in c.allOf[..n] :: EvalCondition(sub, vals))
    decreases c, n
  {
    if n > 0 {
      AllHoldingByFirstSatisfies(c, n - 1, vals);
      HoldingByFirstSatisfies(c.allOf[n - 1], vals);
      assert c.allOf[..n] == c.allOf[..n - 1] + [c.allOf[n - 1]];
    }
  }

  /** The witness changes no signal it does not visit. */
  lemma {:induction false} WitnessFrame(c: Condition, vals: Snapshot, kept: set<string>)
    requires kept !! Visited(c)
    ensures AgreeOn(vals, Witnessed(c, vals), kept)
    decreases c, |c.allOf| + 1
  {
    WitnessAllFrame(c, |c.allOf|, vals + Picks(c), kept);
    if |c.anyOf| > 0 {
      WitnessFrame(c.anyOf[0], WitnessedAll(c, |c.allOf|, vals + Picks(c)), kept);
    }
  }

  lemma {:induction false} WitnessAllFrame(c: Condition, n: nat, vals: Snapshot, kept: set<string>)
    requires n <= |c.allOf| && kept !! VisitedAll(c, n)
    ensures AgreeOn(vals, WitnessedAll(c, n, vals), kept)
    decreases c, n
  {
    if n > 0 {
      WitnessAllFrame(c, n - 1, vals, kept);
      WitnessFrame(c.allOf[n - 1], WitnessedAll(c, n - 1, vals), kept);
    }
  }

  lemma {:induction false} HoldingDependsOnNeeded(c: Condition, a: Snapshot, b: Snapshot)
    requires AgreeOn(a, b, Needed(c))
    ensures HoldsByFirst(c, a) <==> HoldsByFirst(c, b)
    decreases c, |c.allOf| + 1
  {
    if |c.allOf| > 0 {
      AllHoldingDependsOnNeeded(c, |c.allOf|, a, b);
    } else if |c.anyOf| > 0 {
      HoldingDependsOnNeeded(c.anyOf[0], a, b);
    }
  }

  lemma {:induction false} AllHoldingDependsOnNeeded(c: Condition, n: nat, a: Snapshot, b: Snapshot)
    requires n <= |c.allOf| && AgreeOn(a, b, NeededAll(c, n))
    ensures AllHoldByFirst(c, n, a) <==> AllHoldByFirst(c, n, b)
    decreases c, n
  {
    if n > 0 {
      AllHoldingDependsOnNeeded(c, n - 1, a, b);
      HoldingDependsOnNeeded(c.allOf[n - 1], a, b);
    }
  }

  /** What the witness leaves behind depends only on the signals it does not visit. */
  lemma {:induction false} WitnessAgrees(c: Condition, a: Snapshot, b: Snapshot, ids: set<string>)
    requires AgreeOn(a, b, ids)
    ensures AgreeOn(Witnessed(c, a), Witnessed(c, b), ids + Visited(c))
    decreases c, |c.allOf| + 1
  {
    var ids1 := ids + c.comparisons.Keys;
    WitnessAllAgrees(c, |c.allOf|, a + Picks(c), b + Picks(c), ids1);
    if |c.anyOf| > 0 {
      WitnessAgrees(c.anyOf[0], WitnessedAll(c, |c.allOf|, a + Picks(c)), WitnessedAll(c, |c.allOf|, b + Picks(c)),
                    ids1 + VisitedAll(c, |c.allOf|));
    }
  }

  lemma {:induction false} WitnessAllAgrees(c: Condition, n: nat, a: Snapshot, b: Snapshot, ids: set<string>)
    requires n <= |c.allOf| && AgreeOn(a, b, ids)
    ensures AgreeOn(WitnessedAll(c, n, a), WitnessedAll(c, n, b), ids + VisitedAll(c, n))
    decreases c, n
  {
    if n > 0 {
      WitnessAllAgrees(c, n - 1, a, b, ids);
      WitnessAgrees(c.allOf[n - 1], WitnessedAll(c, n - 1, a), WitnessedAll(c, n - 1, b),
                    ids + VisitedAll(c, n - 1));
    }
  }

  lemma {:induction false} NeededIsVisited(c: Condition)
    ensures Needed(c) <= Visited(c)
    decreases c, |c.allOf| + 1
  {
    NeededAllIsVisited(c, |c.allOf|);
    if |c.anyOf| > 0 { NeededIsVisited(c.anyOf[0]); }
  }

  lemma {:induction false} NeededAllIsVisited(c: Condition, n: nat)
    requires n <= |c.allOf|
    ensures NeededAll(c, n) <= VisitedAll(c, n)
    decreases c, n
  {
    if n > 0 {
      NeededAllIsVisited(c, n - 1);
      NeededIsVisited(c.allOf[n - 1]);
    }
  }

  /** The last writer wins: a signal keeps what the any_of branch writes, else what the last all_of branch that visits
      it writes, else what is picked for the node's own comparison. */
  lemma LastWriterWins(c: Condition, vals: Snapshot, id: string)
    ensures var w, nothing := Witnessed(c, vals), map[];
      && (|c.anyOf| > 0 && id in Visited(c.anyOf[0]) ==>
            id in w && SameAt(w, Witnessed(c.anyOf[0], nothing), id))
      && (forall i | 0 <= i < |c.allOf| && id in Visited(c.allOf[i])
              && (forall j | i < j < |c.allOf| :: id !in Visited(c.allOf[j]))
              && (|c.anyOf| > 0 ==> id !in Visited(c.anyOf[0])) ::
            SameAt(w, Witnessed(c.allOf[i], nothing), id))
      && (id in c.comparisons && id !in VisitedAll(c, |c.allOf|) && (|c.anyOf| > 0 ==> id !in Visited(c.anyOf[0])) ==>
            id in w && w[id] == PickValue(c.comparisons[id]))
  {
    var start := vals + Picks(c);
    var all := WitnessedAll(c, |c.allOf|, start);
    if |c.anyOf| > 0 {
      WitnessAgrees(c.anyOf[0], all, map[], {});
      VisitedIsWritten(c.anyOf[0], map[], id);
      if id !in Visited(c.anyOf[0]) { WitnessFrame(c.anyOf[0], all, {id}); }
    }
    assert id !in (if |c.anyOf| > 0 then Visited(c.anyOf[0]) else {}) ==> SameAt(Witnessed(c, vals), all, id);
    if id !in VisitedAll(c, |c.allOf|) { WitnessAllFrame(c, |c.allOf|, start, {id}); }
    forall i | 0 <= i < |c.allOf| && id in Visited(c.allOf[i])
        && (forall j | i < j < |c.allOf| :: id !in Visited(c.allOf[j]))
      ensures SameAt(all, Witnessed(c.allOf[i], map[]), id)
    {
      LastBranchWins(c, |c.allOf|, i, start, id);
    }
  }

  ghost predicate SameAt(a: Snapshot, b: Snapshot, id: string) {
    AgreeOn(a, b, {id})
  }

  lemma {:induction false} LastBranchWins(c: Condition, n: nat, i: nat, vals: Snapshot, id: string)
    requires i < n <= |c.allOf| && id in Visited(c.allOf[i])
    requires forall j | i < j < n :: id !in Visited(c.allOf[j])
    ensures SameAt(WitnessedAll(c, n, vals), Witnessed(c.allOf[i], map[]), id)
    decreases n
  {
    var before := WitnessedAll(c, n - 1, vals);
    if i == n - 1 {
      WitnessAgrees(c.allOf[i], before, map[], {});
    } else {
      LastBranchWins(c, n - 1, i, vals, id);
      WitnessFrame(c.allOf[n - 1], before, {id});
    }
  }

  lemma {:induction false} VisitedIsWritten(c: Condition, vals: Snapshot, id: string)
    ensures id in Visited(c) ==> id in Witnessed(c, vals)
    ensures id in vals ==> id in Witnessed(c, vals)
    decreases c, |c.allOf| + 1
  {
    VisitedAllIsWritten(c, |c.allOf|, vals + Picks(c), id);
    if |c.anyOf| > 0 { VisitedIsWritten(c.anyOf[0], WitnessedAll(c, |c.allOf|, vals + Picks(c)), id); }
  }

  lemma {:induction false} VisitedAllIsWritten(c: Condition, n: nat, vals: Snapshot, id: string)
    requires n <= |c.allOf|
    ensures id in VisitedAll(c, n) ==> id in WitnessedAll(c, n, vals)
    ensures id in vals ==> id in WitnessedAll(c, n, vals)
    decreases c, n
  {
    if n > 0 {
      VisitedAllIsWritten(c, n - 1, vals, id);
      VisitedIsWritten(c.allOf[n - 1], WitnessedAll(c, n - 1, vals), id);
    }
  }

  /** Even when branches overwrite each other's signals, what was in the map before makes no difference. */
  lemma WitnessIgnoresTheMap(c: Condition, a: Snapshot, b: Snapshot)
    ensures HoldsByFirst(c, Witnessed(c, a)) <==> HoldsByFirst(c, Witnessed(c, b))
  {
    WitnessAgrees(c, a, b, {});
    NeededIsVisited(c);
    HoldingDependsOnNeeded(c, Witnessed(c, a), Witnessed(c, b));
  }

  lemma PicksHold(c: Condition, vals: Snapshot)
    requires c.allOf == [] && c.anyOf == []
    ensures EvalCondition(c, vals + Picks(c)) <==> PicksAccepted(c)
  {
    assert forall id | id in c.comparisons :: (vals + Picks(c))[id] == PickValue(c.comparisons[id]);
  }

  /** Whatever was in the map, the witness makes the condition hold by its first branches exactly when every
      comparator on them accepts its pick. */
  lemma {:induction false} WitnessHolds(c: Condition, vals: Snapshot)
    requires Linear(c)
    ensures HoldsByFirst(c, Witnessed(c, vals)) <==> Pickable(c)
    decreases c, |c.allOf| + 1
  {
    var start := vals + Picks(c);
    var all := WitnessedAll(c, |c.allOf|, start);
    WitnessAllHolds(c, |c.allOf|, start);
    if |c.allOf| > 0 {
      if |c.anyOf| > 0 {
        WitnessFrame(c.anyOf[0], all, NeededAll(c, |c.allOf|));
        AllHoldingDependsOnNeeded(c, |c.allOf|, all, Witnessed(c.anyOf[0], all));
      }
    } else if |c.anyOf| > 0 {
      WitnessHolds(c.anyOf[0], all);
    } else {
      PicksHold(c, vals);
    }
  }

  lemma {:induction false} WitnessAllHolds(c: Condition, n: nat, vals: Snapshot)
    requires n <= |c.allOf| && LinearAll(c, n)
    ensures AllHoldByFirst(c, n, WitnessedAll(c, n, vals)) <==> PickableAll(c, n)
    decreases c, n
  {
    if n > 0 {
      var sub, before := c.allOf[n - 1], WitnessedAll(c, n - 1, vals);
      WitnessAllHolds(c, n - 1, vals);
      WitnessHolds(sub, before);
      WitnessFrame(sub, before, NeededAll(c, n - 1));
      AllHoldingDependsOnNeeded(c, n - 1, before, Witnessed(sub, before));
    }
  }

  /** The witness of a linear tree satisfies it when every comparator on its first branches accepts its pick, and
      only then unless some any_of has another branch that may hold. */
  lemma WitnessSatisfies(c: Condition, vals: Snapshot)
    requires Linear(c)
    ensures Pickable(c) ==> EvalCondition(c, Witnessed(c, vals))
    ensures OneBranch(c) ==> (EvalCondition(c, Witnessed(c, vals)) <==> Pickable(c))
  {
    WitnessHolds(c, vals);
    HoldingByFirstSatisfies(c, Witnessed(c, vals));
  }

  // ----- scenarios -----

  /** The witness of condition `cand`, on top of zeros for every signal, lands on tier idx. */
  predicate LandsOn(b: Bundle, idx: nat, cand: Condition)
    requires idx < |b.tiers|
  {
    MatchTier(b.tiers, Witnessed(cand, map id | id in b.signalSources :: 0.0)) == b.tiers[idx].name
  }

  /** Tries the branches of the tier's any_of in order, or the whole condition when it has none. Returns a verified
      scenario, the first that lands on the tier, or nothing when none does. */
  method ScenarioFor(b: Bundle, idx: nat) returns (r: Option<Snapshot>)
    requires idx < |b.tiers|
    ensures r.Some? ==> MatchTier(b.tiers, r.value) == b.tiers[idx].name
    ensures var c, zeros := b.tiers[idx].condition, map id | id in b.signalSources :: 0.0;
      if c.anyOf == []
      then r == if LandsOn(b, idx, c) then Some(Witnessed(c, zeros)) else None
      else && (r.None? <==> forall k | 0 <= k < |c.anyOf| :: !LandsOn(b, idx, c.anyOf[k]))
           && (r.Some? ==> exists k | 0 <= k < |c.anyOf| ::
                 r.value == Witnessed(c.anyOf[k], zeros) && forall j | 0 <= j < k :: !LandsOn(b, idx, c.anyOf[j]))
  {
    var want := b.tiers[idx].name;
    var c := b.tiers[idx].condition;
    var candidates := if |c.anyOf| > 0 then c.anyOf else [c];
    assert c.anyOf == [] ==> candidates[0] == c;
    for k := 0 to |candidates|
      invariant forall j | 0 <= j < k :: !LandsOn(b, idx, candidates[j])
    {
      var a := new Assignment(b.signalSources);
      a.Witness(candidates[k]);
      assert LandsOn(b, idx, candidates[k]) <==> MatchTier(b.tiers, a.vals) == want;
      if MatchTier(b.tiers, a.vals) == want { return Some(a.vals); }
    }
    return None;
  }

  /** `cand` is tried for a tier with this condition. */
  predicate Tried(c: Condition, cand: Condition) {
    if c.anyOf == [] then cand == c else cand in c.anyOf
  }

  /** For a tier that does not mix all_of with any_of, the witness of a linear candidate lands on the tier if the
      candidate is pickable and the witness matches no more degraded tier. Above the first tier, which is also the
      fallback, that is the only way unless some any_of has another branch that may hold. */
  lemma ScenarioExists(b: Bundle, idx: nat, cand: Condition)
    requires WellFormed(b.tiers) && idx < |b.tiers|
    requires var c := b.tiers[idx].condition; c.allOf == [] || c.anyOf == []
    requires Tried(b.tiers[idx].condition, cand) && Linear(cand)
    ensures var vals := Witnessed(cand, map id | id in b.signalSources :: 0.0);
      var unshadowed := forall j | idx < j < |b.tiers| :: !EvalCondition(b.tiers[j].condition, vals);
      && (Pickable(cand) && unshadowed ==> LandsOn(b, idx, cand))
      && (idx > 0 && OneBranch(b.tiers[idx].condition) ==> (LandsOn(b, idx, cand) <==> Pickable(cand) && unshadowed))
  {
    hide Linear, Pickable, Witnessed, OneBranch;
    var c := b.tiers[idx].condition;
    var zeros: Snapshot := map id | id in b.signalSources :: 0.0;
    var vals := Witnessed(cand, zeros);
    WitnessSatisfies(cand, zeros);
    TriedConditionsDecide(c, cand, vals);
    MatchTierIsMostDegraded(b.tiers, vals);
    MatchFromIsGreatest(b.tiers, |b.tiers|, vals);
    IndexInvertsNames(b.tiers, idx, b.tiers[idx].name);
  }

  lemma TriedConditionsDecide(c: Condition, cand: Condition, vals: Snapshot)
    requires (c.allOf == [] || c.anyOf == []) && Tried(c, cand)
    ensures EvalCondition(cand, vals) ==> EvalCondition(c, vals)
    ensures OneBranch(c) ==> OneBranch(cand)
    ensures OneBranch(c) ==> (EvalCondition(cand, vals) <==> EvalCondition(c, vals))
  {
    if |c.anyOf| > 0 { assert |c.anyOf| == 1 ==> c.anyOf == [cand]; }
  }
}
