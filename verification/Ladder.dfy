/** The tier ladder: looking tiers up by name and matching them against signal values. */
module Ladder {
  import opened Policy

  type Tiers = seq<CompiledTier>

  /** What the compiler guarantees about a ladder: it is not empty and its names are non-empty and distinct. */
  ghost predicate WellFormed(tiers: Tiers) {
    && |tiers| > 0
    && (forall i | 0 <= i < |tiers| :: tiers[i].name != "")
    && (forall i, j | 0 <= i < j < |tiers| :: tiers[i].name != tiers[j].name)
  }

  /** Position of the first tier called `name`, or -1. */
  function Index(tiers: Tiers, name: string): (i: int)
    ensures -1 <= i < |tiers|
    ensures i >= 0 ==> tiers[i].name == name
    ensures forall j | 0 <= j < (if i < 0 then |tiers| else i) :: tiers[j].name != name
  {
    if tiers == [] then -1
    else if tiers[0].name == name then 0
    else
      var rest := Index(tiers[1..], name);
      assert forall j | 0 < j < |tiers| :: tiers[j] == tiers[1..][j - 1];
      if rest < 0 then -1 else rest + 1
  }

  /** On a compiled ladder lookup by name inverts the tier list, in both directions. */
  lemma IndexInvertsNames(tiers: Tiers, i: nat, name: string)
    requires WellFormed(tiers) && i < |tiers|
    ensures Index(tiers, name) == i <==> tiers[i].name == name
    ensures Index(tiers, "") == -1
  {}

  predicate EvalComparator(v: real, c: Comparator) {
    && (c.lt.Some? ==> v < c.lt.value)
    && (c.lte.Some? ==> v <= c.lte.value)
    && (c.gt.Some? ==> v > c.gt.value)
    && (c.gte.Some? ==> v >= c.gte.value)
    && (c.eq.Some? ==> v == c.eq.value)
  }

  /** all_of wins over any_of, which wins over the flat comparisons; an empty condition is true. */
  predicate EvalCondition(c: Condition, vals: Snapshot) {
    if |c.allOf| > 0 then forall sub | sub in c.allOf :: EvalCondition(sub, vals)
    else if |c.anyOf| > 0 then exists sub | sub in c.anyOf :: EvalCondition(sub, vals)
    else forall id | id in c.comparisons :: id in vals && EvalComparator(vals[id], c.comparisons[id])
  }

  /** Walks the ladder from the most degraded tier down; the first tier is the fallback. */
  function MatchFrom(tiers: Tiers, n: nat, vals: Snapshot): int
    requires n <= |tiers|
  {
    if n == 0 then (if |tiers| > 0 then 0 else -1)
    else if EvalCondition(tiers[n - 1].condition, vals) then n - 1
    else MatchFrom(tiers, n - 1, vals)
  }

  function MatchIndex(tiers: Tiers, vals: Snapshot): int {
    MatchFrom(tiers, |tiers|, vals)
  }

  function MatchTier(tiers: Tiers, vals: Snapshot): string {
    var i := MatchFrom(tiers, |tiers|, vals);
    if 0 <= i < |tiers| then tiers[i].name else ""
  }

  lemma {:induction false} MatchFromIsGreatest(tiers: Tiers, n: nat, vals: Snapshot)
    requires n <= |tiers|
    ensures var m := MatchFrom(tiers, n, vals);
      && (|tiers| > 0 ==> 0 <= m < |tiers|)
      && (|tiers| == 0 ==> m == -1)
      && (forall j | m < j < n :: 0 <= j && !EvalCondition(tiers[j].condition, vals))
      && (0 <= m < |tiers| && !EvalCondition(tiers[m].condition, vals) ==>
            m == 0 && forall j | 0 <= j < n :: !EvalCondition(tiers[j].condition, vals))
  {
    if n > 0 && !EvalCondition(tiers[n - 1].condition, vals) {
      MatchFromIsGreatest(tiers, n - 1, vals);
    }
  }

  /** The most degraded matching tier wins; only when nothing matches at all is the first tier a fallback. */
  lemma MatchTierIsMostDegraded(tiers: Tiers, vals: Snapshot)
    requires WellFormed(tiers)
    ensures var m := MatchIndex(tiers, vals);
      && 0 <= m < |tiers|
      && MatchTier(tiers, vals) == tiers[m].name
      && Index(tiers, MatchTier(tiers, vals)) == m
      && (forall j | m < j < |tiers| :: !EvalCondition(tiers[j].condition, vals))
      && (EvalCondition(tiers[m].condition, vals)
          <==> exists j | 0 <= j < |tiers| :: EvalCondition(tiers[j].condition, vals))
  {
    MatchFromIsGreatest(tiers, |tiers|, vals);
    var m := MatchIndex(tiers, vals);
    IndexInvertsNames(tiers, m, MatchTier(tiers, vals));
  }

  // ----- a severe condition is never shadowed -----

  /** Every comparator in the tree, visited or not, only has lower bounds. */
  ghost predicate OnlyLowerBounds(c: Condition) {
    && (forall id | id in c.comparisons ::
          c.comparisons[id].lt.None? && c.comparisons[id].lte.None? && c.comparisons[id].eq.None?)
    && (forall sub | sub in c.allOf :: OnlyLowerBounds(sub))
    && (forall sub | sub in c.anyOf :: OnlyLowerBounds(sub))
  }

  /** `high` has every signal of `low`, none of them smaller. */
  ghost predicate Raises(low: Snapshot, high: Snapshot) {
    forall id | id in low :: id in high && low[id] <= high[id]
  }

  lemma {:induction false} LowerBoundsAreMonotone(c: Condition, low: Snapshot, high: Snapshot)
    requires OnlyLowerBounds(c) && Raises(low, high) && EvalCondition(c, low)
    ensures EvalCondition(c, high)
  {
    if |c.allOf| > 0 {
      forall sub | sub in c.allOf ensures EvalCondition(sub, high) { LowerBoundsAreMonotone(sub, low, high); }
    } else if |c.anyOf| > 0 {
      var sub :| sub in c.anyOf && EvalCondition(sub, low);
      LowerBoundsAreMonotone(sub, low, high);
    } else {
      forall id | id in c.comparisons
        ensures id in high && EvalComparator(high[id], c.comparisons[id])
      {
        assert id in low && EvalComparator(low[id], c.comparisons[id]);
      }
    }
  }

  /** Once a lower-bounds-only tier k matches, raising signals never brings the match below k,
      whatever the conditions of the other tiers say. */
  lemma SeverityIsNeverShadowed(tiers: Tiers, k: nat, low: Snapshot, high: Snapshot)
    requires k < |tiers| && OnlyLowerBounds(tiers[k].condition)
    requires EvalCondition(tiers[k].condition, low) && Raises(low, high)
    ensures k <= MatchIndex(tiers, low) && k <= MatchIndex(tiers, high)
  {
    LowerBoundsAreMonotone(tiers[k].condition, low, high);
    MatchFromIsGreatest(tiers, |tiers|, low);
    MatchFromIsGreatest(tiers, |tiers|, high);
  }

  // ----- only referenced signals matter -----

  /** Every signal mentioned anywhere in the tree. */
  ghost predicate Mentions(c: Condition, id: string) {
    || id in c.comparisons
    || (exists sub | sub in c.allOf :: Mentions(sub, id))
    || (exists sub | sub in c.anyOf :: Mentions(sub, id))
  }

  /** `sub` is the condition itself or a node anywhere below it. */
  ghost predicate Within(sub: Condition, c: Condition)
    decreases c
  {
    || sub == c
    || (exists x | x in c.allOf :: Within(sub, x))
    || (exists x | x in c.anyOf :: Within(sub, x))
  }

  /** A signal is mentioned exactly when some node of the tree compares it. */
  lemma {:induction false} MentionedMeansCompared(c: Condition, id: string)
    ensures Mentions(c, id) <==> exists sub :: Within(sub, c) && id in sub.comparisons
  {
    forall x | x in c.allOf || x in c.anyOf
      ensures Mentions(x, id) <==> exists sub :: Within(sub, x) && id in sub.comparisons
    {
      MentionedMeansCompared(x, id);
    }
    if id in c.comparisons { assert Within(c, c); }
    if x :| x in c.allOf && Mentions(x, id) {
      var sub :| Within(sub, x) && id in sub.comparisons;
      assert Within(sub, c);
    }
    if x :| x in c.anyOf && Mentions(x, id) {
      var sub :| Within(sub, x) && id in sub.comparisons;
      assert Within(sub, c);
    }
  }

  ghost predicate AgreeOn(a: Snapshot, b: Snapshot, ids: set<string>) {
    forall id | id in ids :: (id in a <==> id in b) && (id in a ==> id in b && a[id] == b[id])
  }

  lemma {:induction false} OnlyMentionedSignalsMatter(c: Condition, a: Snapshot, b: Snapshot, ids: set<string>)
    requires AgreeOn(a, b, ids)
    requires forall id | Mentions(c, id) :: id in ids
    ensures EvalCondition(c, a) <==> EvalCondition(c, b)
  {
    if |c.allOf| > 0 {
      forall sub | sub in c.allOf ensures EvalCondition(sub, a) <==> EvalCondition(sub, b) {
        OnlyMentionedSignalsMatter(sub, a, b, ids);
      }
    } else if |c.anyOf| > 0 {
      forall sub | sub in c.anyOf ensures EvalCondition(sub, a) <==> EvalCondition(sub, b) {
        OnlyMentionedSignalsMatter(sub, a, b, ids);
      }
    } else {
      forall id | id in c.comparisons ensures id in ids { assert Mentions(c, id); }
    }
  }

  lemma {:induction false} UndeclaredSignalsDoNotMatter(
      tiers: Tiers, n: nat, a: Snapshot, b: Snapshot, ids: set<string>)
    requires n <= |tiers| && AgreeOn(a, b, ids)
    requires forall i, id | 0 <= i < n && Mentions(tiers[i].condition, id) :: id in ids
    ensures MatchFrom(tiers, n, a) == MatchFrom(tiers, n, b)
  {
    if n > 0 {
      OnlyMentionedSignalsMatter(tiers[n - 1].condition, a, b, ids);
      UndeclaredSignalsDoNotMatter(tiers, n - 1, a, b, ids);
    }
  }
}
