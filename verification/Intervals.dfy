/** Numeric ranges with open, closed and infinite ends, and the range a comparator describes. */
module Intervals {
  import opened Policy
  import opened Ladder

  datatype Bound = NegInf | Fin(v: real) | PosInf

  predicate Less(a: Bound, b: Bound) {
    match (a, b)
    case (Fin(x), Fin(y)) => x < y
    case (NegInf, NegInf) => false
    case (NegInf, _) => true
    case (_, PosInf) => !a.PosInf?
    case _ => false
  }

  datatype Interval = Interval(lo: Bound, hi: Bound, loIncl: bool, hiIncl: bool) {

    predicate Contains(v: real) {
      && (Less(lo, Fin(v)) || (loIncl && lo == Fin(v)))
      && (Less(Fin(v), hi) || (hiIncl && hi == Fin(v)))
    }

    /** The test the compiler applies to reject a comparator as contradictory. */
    predicate IsEmpty() {
      Less(hi, lo) || (lo == hi && (!loIncl || !hiIncl))
    }
  }

  /** None for a comparator without any bound. A second lower or upper bound, and any bound beside eq, is ignored. */
  function ComparatorToInterval(c: Comparator): Option<Interval> {
    if c.eq.Some? then Some(Interval(Fin(c.eq.value), Fin(c.eq.value), true, true)) else
    var lo := if c.gte.Some? then Fin(c.gte.value) else if c.gt.Some? then Fin(c.gt.value) else NegInf;
    var hi := if c.lte.Some? then Fin(c.lte.value) else if c.lt.Some? then Fin(c.lt.value) else PosInf;
    if lo == NegInf && hi == PosInf then None
    else Some(Interval(lo, hi, c.gte.Some?, c.lte.Some?))
  }

  /** Every comparator with a bound describes a range. */
  lemma OnlyBoundlessHaveNoRange(c: Comparator)
    ensures ComparatorToInterval(c).None? <==> c == Comparator(None, None, None, None, None)
  {}

  /** The bounds the range ignores say nothing the range does not: beside an eq they hold at its value, and a
      strict bound beside a non-strict one on the same side is the weaker of the two. */
  predicate IgnoredBoundsImplied(c: Comparator) {
    if c.eq.Some? then EvalComparator(c.eq.value, c.(eq := None))
    else
      && (c.gte.Some? && c.gt.Some? ==> c.gt.value < c.gte.value)
      && (c.lte.Some? && c.lt.Some? ==> c.lte.value < c.lt.value)
  }

  /** The range never loses a value the runtime accepts, and has no other when the ignored bounds are implied. */
  lemma IntervalAgreesWithRuntime(c: Comparator, v: real)
    requires ComparatorToInterval(c).Some?
    ensures EvalComparator(v, c) ==> ComparatorToInterval(c).value.Contains(v)
    ensures IgnoredBoundsImplied(c) ==> (EvalComparator(v, c) <==> ComparatorToInterval(c).value.Contains(v))
  {}

  /** The bounds the range ignores accept v. */
  predicate IgnoredBoundsHold(c: Comparator, v: real) {
    if c.eq.Some? then EvalComparator(v, c.(eq := None))
    else
      && (c.gte.Some? && c.gt.Some? ==> v > c.gt.value)
      && (c.lte.Some? && c.lt.Some? ==> v < c.lt.value)
  }

  /** Value by value, the ignored bounds are all that the range and the runtime differ in. */
  lemma RuntimeIsRangeAndIgnoredBounds(c: Comparator, v: real)
    requires ComparatorToInterval(c).Some?
    ensures EvalComparator(v, c) <==> ComparatorToInterval(c).value.Contains(v) && IgnoredBoundsHold(c, v)
  {}

  /** The range and the runtime accept the same values. */
  ghost predicate RangeIsExact(c: Comparator)
    requires ComparatorToInterval(c).Some?
  {
    forall v :: EvalComparator(v, c) <==> ComparatorToInterval(c).value.Contains(v)
  }

  /** A value of the range that an ignored bound rejects. */
  function Rejected(c: Comparator): (v: real)
    requires ComparatorToInterval(c).Some? && !ComparatorToInterval(c).value.IsEmpty()
    requires !IgnoredBoundsImplied(c)
    ensures ComparatorToInterval(c).value.Contains(v) && !EvalComparator(v, c)
  {
    if c.eq.Some? then c.eq.value
    else if c.gte.Some? && c.gt.Some? && c.gt.value >= c.gte.value then c.gte.value
    else c.lte.value
  }

  /** The exact condition: a comparator's range is what the runtime accepts if and only if it is empty or the
      ignored bounds are implied. */
  lemma RangeIsExactIffIgnoredBoundsImplied(c: Comparator)
    requires ComparatorToInterval(c).Some?
    ensures RangeIsExact(c) <==> ComparatorToInterval(c).value.IsEmpty() || IgnoredBoundsImplied(c)
  {
    var iv := ComparatorToInterval(c).value;
    if iv.IsEmpty() || IgnoredBoundsImplied(c) {
      forall v ensures EvalComparator(v, c) <==> iv.Contains(v) { IntervalAgreesWithRuntime(c, v); }
    } else {
      assert iv.Contains(Rejected(c)) && !EvalComparator(Rejected(c), c);
    }
  }

  function Inside(iv: Interval): (v: real)
    requires !iv.IsEmpty() && iv.lo != PosInf && iv.hi != NegInf
    ensures iv.Contains(v)
  {
    match (iv.lo, iv.hi)
    case (Fin(a), Fin(b)) => if a < b then (a + b) / 2.0 else a
    case (Fin(a), _) => a + 1.0
    case (_, Fin(b)) => b - 1.0
    case _ => 0.0
  }

  ghost predicate Satisfiable(c: Comparator) {
    exists v :: EvalComparator(v, c)
  }

  /** The contradiction diagnostic is never wrong when it fires, and exact when the ignored bounds are implied. */
  lemma EmptyRangeMeansUnsatisfiable(c: Comparator)
    requires ComparatorToInterval(c).Some?
    ensures ComparatorToInterval(c).value.IsEmpty() ==> !Satisfiable(c)
    ensures IgnoredBoundsImplied(c) ==> (ComparatorToInterval(c).value.IsEmpty() <==> !Satisfiable(c))
  {
    var iv := ComparatorToInterval(c).value;
    if !iv.IsEmpty() && IgnoredBoundsImplied(c) {
      assert EvalComparator(Inside(iv), c);
    }
  }
}
