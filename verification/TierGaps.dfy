/** The tier-gap detector: a sort of the tiers' ranges by lower bound, then one sweep. */
module TierGaps {
  import opened Policy
  import opened Ladder
  import opened Intervals

  datatype TierInterval = TierInterval(tierName: string, iv: Interval)

  /** A hole: a range (with the openness of its printed ends), a single value, or everything above a bound. */
  datatype Gap =
    | RangeGap(from: Bound, fromOpen: bool, to: Bound, toOpen: bool)
    | PointGap(at: Bound)
    | TopGap(above: Bound, open: bool)

  ghost predicate Covered(ivs: seq<TierInterval>, v: real) {
    exists t :: t in ivs && t.iv.Contains(v)
  }

  // ----- the stable sort by lower bound -----

  ghost predicate Sorted(ivs: seq<TierInterval>) {
    forall i, j | 0 <= i < j < |ivs| :: !Less(ivs[j].iv.lo, ivs[i].iv.lo)
  }

  function Insert(s: seq<TierInterval>, x: TierInterval): (r: seq<TierInterval>)
    ensures |r| == |s| + 1
  {
    if s == [] || !Less(x.iv.lo, s[|s| - 1].iv.lo) then s + [x]
    else Insert(s[..|s| - 1], x) + [s[|s| - 1]]
  }

  function StableSorted(s: seq<TierInterval>): (r: seq<TierInterval>)
    ensures |r| == |s|
  {
    if s == [] then [] else Insert(StableSorted(s[..|s| - 1]), s[|s| - 1])
  }

  /** The elements with lower bound `b`, in order. */
  function AtBound(s: seq<TierInterval>, b: Bound): seq<TierInterval> {
    if s == [] then [] else
    AtBound(s[..|s| - 1], b) + (if s[|s| - 1].iv.lo == b then [s[|s| - 1]] else [])
  }

  lemma {:induction false} InsertKeepsElements(s: seq<TierInterval>, x: TierInterval)
    ensures multiset(Insert(s, x)) == multiset(s) + multiset{x}
  {
    if s != [] {
      assert s == s[..|s| - 1] + [s[|s| - 1]];
      InsertKeepsElements(s[..|s| - 1], x);
    }
  }

  lemma {:induction false} InsertSorts(s: seq<TierInterval>, x: TierInterval)
    requires Sorted(s)
    ensures Sorted(Insert(s, x))
  {
    if s != [] && Less(x.iv.lo, s[|s| - 1].iv.lo) {
      var init, last := s[..|s| - 1], s[|s| - 1];
      InsertSorts(init, x);
      InsertKeepsElements(init, x);
      var r := Insert(init, x);
      forall i | 0 <= i < |r| ensures !Less(last.iv.lo, r[i].iv.lo) {
        assert r[i] in multiset(r);
      }
    }
  }

  lemma AtBoundOfAppend(s: seq<TierInterval>, x: TierInterval, b: Bound)
    ensures AtBound(s + [x], b) == AtBound(s, b) + (if x.iv.lo == b then [x] else [])
  {
    assert (s + [x])[..|s|] == s;
  }

  lemma {:induction false} InsertIsStable(s: seq<TierInterval>, x: TierInterval, b: Bound)
    ensures AtBound(Insert(s, x), b) == AtBound(s + [x], b)
  {
    if s != [] && Less(x.iv.lo, s[|s| - 1].iv.lo) {
      var init, last := s[..|s| - 1], s[|s| - 1];
      assert Insert(s, x) == Insert(init, x) + [last] && s == init + [last];
      InsertIsStable(init, x, b);
      hide Insert, AtBound;
      AtBoundOfAppend(Insert(init, x), last, b);
      AtBoundOfAppend(init, x, b);
      AtBoundOfAppend(init, last, b);
      AtBoundOfAppend(s, x, b);
    }
  }

  /** Sorted, a permutation, and stable: ranges with the same lower bound keep their order. */
  lemma {:induction false} StableSortedSorts(s: seq<TierInterval>)
    ensures Sorted(StableSorted(s))
    ensures multiset(StableSorted(s)) == multiset(s)
    ensures forall b :: AtBound(StableSorted(s), b) == AtBound(s, b)
  {
    if s != [] {
      var init, last := s[..|s| - 1], s[|s| - 1];
      var r := StableSorted(init);
      assert s == init + [last];
      StableSortedSorts(init);
      InsertSorts(r, last);
      InsertKeepsElements(r, last);
      forall b ensures AtBound(StableSorted(s), b) == AtBound(s, b) {
        InsertIsStable(r, last, b);
        assert (r + [last])[..|r|] == r;
      }
    }
  }

  /** Moves element i down to its place in the sorted prefix before it. */
  method InsertInPlace(ivs: array<TierInterval>, i: nat)
    requires i < ivs.Length
    modifies ivs
    ensures ivs[..i + 1] == Insert(old(ivs[..i]), old(ivs[i]))
    ensures ivs[i + 1..] == old(ivs[i + 1..])
  {
    var x := ivs[i];
    var j := i;
    while j > 0 && Less(x.iv.lo, ivs[j - 1].iv.lo)
      invariant 0 <= j <= i
      invariant ivs[..j] == old(ivs[..j])
      invariant ivs[i + 1..] == old(ivs[i + 1..])
      invariant Insert(old(ivs[..i]), x) == Insert(ivs[..j], x) + ivs[j + 1..i + 1]
    {
      ghost var head, tail := ivs[..j], ivs[j + 1..i + 1];
      assert head[..j - 1] == ivs[..j - 1] && head[j - 1] == ivs[j - 1];
      ivs[j] := ivs[j - 1];
      assert ivs[j..i + 1] == [head[j - 1]] + tail;
      j := j - 1;
      assert ivs[..j] == head[..j];
    }
    assert Insert(ivs[..j], x) == ivs[..j] + [x];
    ghost var head, tail := ivs[..j], ivs[j + 1..i + 1];
    ivs[j] := x;
    assert ivs[..i + 1] == head + [x] + tail;
  }

  /** The in-place sort of the slice. */
  method SortIntervals(ivs: array<TierInterval>)
    modifies ivs
    ensures ivs[..] == StableSorted(old(ivs[..]))
  {
    hide Insert;
    ghost var was := ivs[..];
    for i := 0 to ivs.Length
      invariant ivs[..i] == StableSorted(was[..i])
      invariant ivs[i..] == was[i..]
    {
      assert ivs[i] == ivs[i..][0] == was[i];
      assert ivs[i + 1..] == ivs[i..][1..] == was[i + 1..];
      assert was[..i + 1][..i] == was[..i];
      InsertInPlace(ivs, i);
    }
    assert ivs[..] == ivs[..ivs.Length] && was == was[..ivs.Length];
  }

  // ----- the sweep -----

  /** The highest upper bound covered so far, and whether it is itself covered. */
  datatype Cursor = Cursor(at: Bound, incl: bool)

  function Advance(c: Cursor, iv: Interval): Cursor {
    if Less(c.at, iv.hi) || (iv.hi == c.at && iv.hiIncl) then Cursor(iv.hi, iv.hiIncl) else c
  }

  function GapBefore(c: Cursor, iv: Interval): seq<Gap> {
    if Less(c.at, iv.lo) then [RangeGap(c.at, c.incl, iv.lo, iv.loIncl)]
    else if iv.lo == c.at && !c.incl && !iv.loIncl then [PointGap(c.at)]
    else []
  }

  function CursorAfter(ivs: seq<TierInterval>, k: nat): Cursor
    requires 1 <= k <= |ivs|
  {
    if k == 1 then Cursor(ivs[0].iv.hi, ivs[0].iv.hiIncl)
    else Advance(CursorAfter(ivs, k - 1), ivs[k - 1].iv)
  }

  function GapsAfter(ivs: seq<TierInterval>, k: nat): seq<Gap>
    requires 1 <= k <= |ivs|
  {
    if k == 1 then []
    else GapsAfter(ivs, k - 1) + GapBefore(CursorAfter(ivs, k - 1), ivs[k - 1].iv)
  }

  function Swept(ivs: seq<TierInterval>): seq<Gap>
    requires |ivs| > 0
  {
    var c := CursorAfter(ivs, |ivs|);
    GapsAfter(ivs, |ivs|) + (if c.at != PosInf then [TopGap(c.at, c.incl)] else [])
  }

  method Sweep(ivs: array<TierInterval>) returns (gaps: seq<Gap>)
    requires ivs.Length > 0
    ensures gaps == Swept(ivs[..])
  {
    gaps := [];
    var cursor, cursorIncl := ivs[0].iv.hi, ivs[0].iv.hiIncl;
    for i := 1 to ivs.Length
      invariant Cursor(cursor, cursorIncl) == CursorAfter(ivs[..], i)
      invariant gaps == GapsAfter(ivs[..], i)
    {
      var iv := ivs[i].iv;
      if Less(cursor, iv.lo) {
        gaps := gaps + [RangeGap(cursor, cursorIncl, iv.lo, iv.loIncl)];
      } else if iv.lo == cursor && !cursorIncl && !iv.loIncl {
        gaps := gaps + [PointGap(cursor)];
      }
      if Less(cursor, iv.hi) || (iv.hi == cursor && iv.hiIncl) {
        cursor, cursorIncl := iv.hi, iv.hiIncl;
      }
    }
    if cursor != PosInf {
      gaps := gaps + [TopGap(cursor, cursorIncl)];
    }
  }

  /** The cursor is the greatest upper bound seen, inclusive exactly when some range includes it. */
  lemma {:induction false} CursorIsTheSupremum(ivs: seq<TierInterval>, k: nat)
    requires 1 <= k <= |ivs|
    ensures var c := CursorAfter(ivs, k);
      && (forall i | 0 <= i < k :: !Less(c.at, ivs[i].iv.hi))
      && (exists i | 0 <= i < k :: ivs[i].iv.hi == c.at && ivs[i].iv.hiIncl == c.incl)
      && (forall i | 0 <= i < k :: ivs[i].iv.hi == c.at && ivs[i].iv.hiIncl ==> c.incl)
  {
    if k == 1 {
      assert ivs[0].iv.hi == CursorAfter(ivs, 1).at;
    } else {
      CursorIsTheSupremum(ivs, k - 1);
      var c, c' := CursorAfter(ivs, k - 1), CursorAfter(ivs, k);
      if c' == c {
        var i :| 0 <= i < k - 1 && ivs[i].iv.hi == c.at && ivs[i].iv.hiIncl == c.incl;
        assert ivs[i].iv.hi == c'.at;
      } else {
        assert ivs[k - 1].iv.hi == c'.at;
      }
    }
  }

  predicate UpTo(c: Cursor, v: real) {
    Less(Fin(v), c.at) || (c.incl && c.at == Fin(v))
  }

  /** A range swept in silence covers everything it moves the cursor past. */
  lemma SilentStepCovers(c: Cursor, iv: Interval, v: real)
    requires GapBefore(c, iv) == [] && !UpTo(c, v) && UpTo(Advance(c, iv), v)
    ensures iv.Contains(v)
  {}

  lemma OneStep(ivs: seq<TierInterval>, k: nat)
    requires 1 <= k <= |ivs|
    ensures k == 1 ==> CursorAfter(ivs, k) == Cursor(ivs[0].iv.hi, ivs[0].iv.hiIncl)
    ensures k > 1 ==> CursorAfter(ivs, k) == Advance(CursorAfter(ivs, k - 1), ivs[k - 1].iv)
    ensures k > 1 && GapsAfter(ivs, k) == [] ==>
              GapsAfter(ivs, k - 1) == [] && GapBefore(CursorAfter(ivs, k - 1), ivs[k - 1].iv) == []
  {
    if k > 1 {
      assert GapsAfter(ivs, k) == GapsAfter(ivs, k - 1) + GapBefore(CursorAfter(ivs, k - 1), ivs[k - 1].iv);
    }
  }

  /** While nothing is reported, everything above the lowest bound and up to the cursor is covered. */
  lemma {:induction false} SweepCoversUpToCursor(ivs: seq<TierInterval>, k: nat, v: real) returns (i: nat)
    requires 1 <= k <= |ivs| && GapsAfter(ivs, k) == []
    requires Less(ivs[0].iv.lo, Fin(v)) && UpTo(CursorAfter(ivs, k), v)
    ensures i < k && ivs[i].iv.Contains(v)
  {
    hide GapBefore, Advance, GapsAfter, CursorAfter;
    OneStep(ivs, k);
    if k == 1 {
      i := 0;
    } else if UpTo(CursorAfter(ivs, k - 1), v) {
      i := SweepCoversUpToCursor(ivs, k - 1, v);
    } else {
      SilentStepCovers(CursorAfter(ivs, k - 1), ivs[k - 1].iv, v);
      i := k - 1;
    }
  }

  /** Silence is sound without any assumption on the ranges: if the sweep reports nothing, every value
      strictly above the lowest lower bound is covered. */
  lemma SilenceMeansCovered(ivs: seq<TierInterval>, v: real)
    requires |ivs| > 0 && Sorted(ivs) && Swept(ivs) == []
    requires exists t :: t in ivs && Less(t.iv.lo, Fin(v))
    ensures Covered(ivs, v)
  {
    var t :| t in ivs && Less(t.iv.lo, Fin(v));
    var j :| 0 <= j < |ivs| && ivs[j] == t;
    assert !Less(ivs[j].iv.lo, ivs[0].iv.lo);
    assert CursorAfter(ivs, |ivs|).at == PosInf;
    var i := SweepCoversUpToCursor(ivs, |ivs|, v);
  }

  /** Where a reported gap comes from. */
  lemma {:induction false} GapOrigin(ivs: seq<TierInterval>, k: nat, g: Gap) returns (j: nat)
    requires 1 <= k <= |ivs| && g in GapsAfter(ivs, k)
    ensures 1 <= j < k && GapBefore(CursorAfter(ivs, j), ivs[j].iv) == [g]
  {
    if g in GapsAfter(ivs, k - 1) {
      j := GapOrigin(ivs, k - 1, g);
    } else {
      j := k - 1;
    }
  }

  lemma EndsBefore(iv: Interval, c: Cursor, v: real)
    requires !Less(c.at, iv.hi) && (iv.hi == c.at && iv.hiIncl ==> c.incl)
    requires Less(c.at, Fin(v)) || (c.at == Fin(v) && !c.incl)
    ensures !iv.Contains(v)
  {}

  lemma StartsAfter(iv: Interval, lo: Bound, v: real)
    requires !Less(iv.lo, lo) && Less(Fin(v), lo)
    ensures !iv.Contains(v)
  {}

  /** No value strictly between the cursor and the next lower bound is covered, nor the cursor itself
      when it is exclusive. */
  lemma NothingBetween(ivs: seq<TierInterval>, j: nat, v: real)
    requires 1 <= j < |ivs| && Sorted(ivs)
    requires var c := CursorAfter(ivs, j);
      (Less(c.at, Fin(v)) || (c.at == Fin(v) && !c.incl)) && Less(Fin(v), ivs[j].iv.lo)
    ensures !Covered(ivs, v)
  {
    CursorIsTheSupremum(ivs, j);
    forall i | 0 <= i < |ivs| ensures !ivs[i].iv.Contains(v) {
      if i < j {
        EndsBefore(ivs[i].iv, CursorAfter(ivs, j), v);
      } else {
        assert i == j || !Less(ivs[i].iv.lo, ivs[j].iv.lo);
        StartsAfter(ivs[i].iv, ivs[j].iv.lo, v);
      }
    }
  }

  /** A reported range is a real hole: nothing strictly inside it is covered, nor its lower end if printed closed. */
  lemma ReportedRangesAreHoles(ivs: seq<TierInterval>, g: Gap, v: real)
    requires |ivs| > 0 && Sorted(ivs) && g in Swept(ivs) && g.RangeGap?
    requires Less(g.from, Fin(v)) || (g.from == Fin(v) && !g.fromOpen)
    requires Less(Fin(v), g.to)
    ensures !Covered(ivs, v)
  {
    var j := GapOrigin(ivs, |ivs|, g);
    NothingBetween(ivs, j, v);
  }

  /** A reported top region is a real hole. */
  lemma ReportedTopIsAHole(ivs: seq<TierInterval>, g: Gap, v: real)
    requires |ivs| > 0 && g in Swept(ivs) && g.TopGap?
    requires Less(g.above, Fin(v)) || (g.above == Fin(v) && !g.open)
    ensures !Covered(ivs, v)
  {
    if g in GapsAfter(ivs, |ivs|) { var j := GapOrigin(ivs, |ivs|, g); }
    CursorIsTheSupremum(ivs, |ivs|);
  }

  /** A reported single value is a real hole exactly when no non-empty range starts at it inclusively:
      the sort leaves ranges with equal lower bounds in declaration order, whatever their inclusivity. */
  lemma ReportedPointsAreHolesUnlessTied(ivs: seq<TierInterval>, g: Gap)
    requires |ivs| > 0 && Sorted(ivs) && g in Swept(ivs) && g.PointGap? && g.at.Fin?
    ensures !Covered(ivs, g.at.v)
      <==> !exists t :: t in ivs && t.iv.lo == g.at && t.iv.loIncl && !t.iv.IsEmpty()
    ensures forall t | t in ivs && t.iv.Contains(g.at.v) :: t.iv.lo == g.at && t.iv.loIncl && !t.iv.IsEmpty()
  {
    var j := GapOrigin(ivs, |ivs|, g);
    CursorIsTheSupremum(ivs, j);
    forall i | 0 <= i < |ivs| && ivs[i].iv.Contains(g.at.v)
      ensures ivs[i].iv.lo == g.at && ivs[i].iv.loIncl && !ivs[i].iv.IsEmpty()
    {
      if i > j { assert !Less(ivs[i].iv.lo, ivs[j].iv.lo); }
    }
  }

  /** The upper end of a reported range: printed open, some range starts there inclusively; printed closed, it
      is a real hole, with the same exception for ties. */
  lemma ReportedUpperEnds(ivs: seq<TierInterval>, g: Gap)
    requires |ivs| > 0 && Sorted(ivs) && g in Swept(ivs) && g.RangeGap? && g.to.Fin?
    ensures g.toOpen ==> exists t :: t in ivs && t.iv.lo == g.to && t.iv.loIncl
    ensures !Covered(ivs, g.to.v)
      <==> !exists t :: t in ivs && t.iv.lo == g.to && t.iv.loIncl && !t.iv.IsEmpty()
  {
    var j := GapOrigin(ivs, |ivs|, g);
    assert ivs[j] in ivs && ivs[j].iv.lo == g.to;
    CursorIsTheSupremum(ivs, j);
    forall i | 0 <= i < |ivs| && ivs[i].iv.Contains(g.to.v)
      ensures ivs[i].iv.lo == g.to && ivs[i].iv.loIncl && !ivs[i].iv.IsEmpty()
    {
      if i < j {
        assert !Less(CursorAfter(ivs, j).at, ivs[i].iv.hi);
      } else {
        assert i == j || !Less(ivs[i].iv.lo, ivs[j].iv.lo);
      }
    }
  }

  ghost predicate NonEmptyRanges(ivs: seq<TierInterval>) {
    forall t | t in ivs :: !t.iv.IsEmpty() && t.iv.lo != PosInf && t.iv.hi != NegInf
  }

  ghost predicate CoveredAboveLowest(ivs: seq<TierInterval>) {
    forall v: real | exists t :: t in ivs && Less(t.iv.lo, Fin(v)) :: Covered(ivs, v)
  }

  /** A value strictly between two bounds. */
  function Between(a: Bound, b: Bound): (v: real)
    requires Less(a, b)
    ensures Less(a, Fin(v)) && Less(Fin(v), b)
  {
    match (a, b)
    case (Fin(x), Fin(y)) => (x + y) / 2.0
    case (Fin(x), _) => x + 1.0
    case (_, Fin(y)) => y - 1.0
    case _ => 0.0
  }

  // ----- reported single values that are covered after all -----

  /** Range j starts exclusively at b, where some earlier range ends, and no earlier range includes b or
      reaches past it. */
  ghost predicate MeetsOpen(ivs: seq<TierInterval>, j: nat, b: Bound) {
    && 1 <= j < |ivs| && ivs[j].iv.lo == b && !ivs[j].iv.loIncl
    && (forall i | 0 <= i < j :: !Less(b, ivs[i].iv.hi) && !(ivs[i].iv.hi == b && ivs[i].iv.hiIncl))
    && (exists i | 0 <= i < j :: ivs[i].iv.hi == b)
  }

  /** Some non-empty range starts at b inclusively. */
  ghost predicate StartsAt(ivs: seq<TierInterval>, b: Bound) {
    exists t :: t in ivs && t.iv.lo == b && t.iv.loIncl && !t.iv.IsEmpty()
  }

  lemma MeetsOpenIsTheGuard(ivs: seq<TierInterval>, j: nat, b: Bound)
    requires 1 <= j < |ivs|
    ensures MeetsOpen(ivs, j, b) <==> GapBefore(CursorAfter(ivs, j), ivs[j].iv) == [PointGap(b)]
  {
    CursorIsTheSupremum(ivs, j);
    var c := CursorAfter(ivs, j);
    if MeetsOpen(ivs, j, b) {
      var i :| 0 <= i < j && ivs[i].iv.hi == b;
      var k :| 0 <= k < j && ivs[k].iv.hi == c.at && ivs[k].iv.hiIncl == c.incl;
      SameUnlessLess(c.at, b);
    }
  }

  lemma SameUnlessLess(a: Bound, b: Bound)
    ensures a == b || Less(a, b) || Less(b, a)
  {}

  lemma {:induction false} StepGapsAreReported(ivs: seq<TierInterval>, j: nat, k: nat, g: Gap)
    requires 1 <= j < k <= |ivs| && g in GapBefore(CursorAfter(ivs, j), ivs[j].iv)
    ensures g in GapsAfter(ivs, k)
  {
    if j < k - 1 { StepGapsAreReported(ivs, j, k - 1, g); }
  }

  lemma PointsAreReportedWhereRangesMeetOpen(ivs: seq<TierInterval>, b: Bound)
    requires |ivs| > 0
    ensures PointGap(b) in Swept(ivs) <==> exists j :: MeetsOpen(ivs, j, b)
  {
    if PointGap(b) in Swept(ivs) {
      var j := GapOrigin(ivs, |ivs|, PointGap(b));
      MeetsOpenIsTheGuard(ivs, j, b);
    }
    if j :| MeetsOpen(ivs, j, b) {
      MeetsOpenIsTheGuard(ivs, j, b);
      StepGapsAreReported(ivs, j, |ivs|, PointGap(b));
    }
  }

  /** A single value is reported although it is covered exactly when two ranges meet open at it and some
      non-empty range starts at it inclusively. */
  lemma CoveredPointsAreReportedExactly(ivs: seq<TierInterval>, b: real)
    requires |ivs| > 0 && Sorted(ivs)
    ensures PointGap(Fin(b)) in Swept(ivs) && Covered(ivs, b)
      <==> (exists j :: MeetsOpen(ivs, j, Fin(b))) && StartsAt(ivs, Fin(b))
  {
    PointsAreReportedWhereRangesMeetOpen(ivs, Fin(b));
    if PointGap(Fin(b)) in Swept(ivs) { ReportedPointsAreHolesUnlessTied(ivs, PointGap(Fin(b))); }
  }

  /** The same condition read off the ranges in the order they are declared: the first range that starts at b
      excludes b and another one includes it, and of the ranges that start below b some end at b but none
      include it or reach past it. */
  ghost predicate TiedOpen(ivs: seq<TierInterval>, b: real) {
    && AtBound(ivs, Fin(b)) != [] && !AtBound(ivs, Fin(b))[0].iv.loIncl
    && StartsAt(ivs, Fin(b))
    && (exists t :: t in ivs && Less(t.iv.lo, Fin(b)) && t.iv.hi == Fin(b))
    && (forall t | t in ivs && Less(t.iv.lo, Fin(b)) ::
          Less(t.iv.hi, Fin(b)) || (t.iv.hi == Fin(b) && !t.iv.hiIncl))
  }

  lemma SortingKeepsTies(ivs: seq<TierInterval>, b: real)
    ensures TiedOpen(StableSorted(ivs), b) <==> TiedOpen(ivs, b)
  {
    StableSortedSorts(ivs);
    SameElements(ivs);
    hide StableSorted, AtBound;
  }

  lemma SameElements(ivs: seq<TierInterval>)
    ensures forall t :: t in StableSorted(ivs) <==> t in ivs
  {
    StableSortedSorts(ivs);
    forall t ensures t in StableSorted(ivs) <==> t in ivs {
      assert t in multiset(StableSorted(ivs)) <==> t in multiset(ivs);
    }
  }

  lemma {:induction false} FirstAtBound(s: seq<TierInterval>, b: Bound) returns (f: nat)
    requires AtBound(s, b) != []
    ensures f < |s| && s[f] == AtBound(s, b)[0] && s[f].iv.lo == b
    ensures forall i | 0 <= i < f :: s[i].iv.lo != b
  {
    var init := s[..|s| - 1];
    if AtBound(init, b) != [] {
      f := FirstAtBound(init, b);
    } else {
      f := |s| - 1;
      forall i | 0 <= i < f ensures s[i].iv.lo != b { NoneAtBound(init, b, i); }
    }
  }

  lemma {:induction false} NoneAtBound(s: seq<TierInterval>, b: Bound, i: nat)
    requires AtBound(s, b) == [] && i < |s|
    ensures s[i].iv.lo != b
  {
    if i < |s| - 1 { NoneAtBound(s[..|s| - 1], b, i); }
  }

  lemma TiedMeansMeetingOpen(ivs: seq<TierInterval>, b: real)
    requires Sorted(ivs) && TiedOpen(ivs, b)
    ensures exists j :: MeetsOpen(ivs, j, Fin(b))
  {
    var f := FirstAtBound(ivs, Fin(b));
    hide AtBound;
    var t :| t in ivs && Less(t.iv.lo, Fin(b)) && t.iv.hi == Fin(b);
    var e :| 0 <= e < |ivs| && ivs[e] == t;
    assert e < f;
    forall i | 0 <= i < f ensures !Less(Fin(b), ivs[i].iv.hi) && !(ivs[i].iv.hi == Fin(b) && ivs[i].iv.hiIncl) {
      assert !Less(ivs[f].iv.lo, ivs[i].iv.lo) && ivs[i] in ivs;
      SameUnlessLess(ivs[i].iv.lo, Fin(b));
    }
    assert MeetsOpen(ivs, f, Fin(b));
  }

  lemma MeetingOpenMeansTied(ivs: seq<TierInterval>, j: nat, b: real)
    requires Sorted(ivs) && NonEmptyRanges(ivs) && MeetsOpen(ivs, j, Fin(b)) && StartsAt(ivs, Fin(b))
    ensures TiedOpen(ivs, b)
  {
    assert ivs[j] in ivs;
    if AtBound(ivs, Fin(b)) == [] { NoneAtBound(ivs, Fin(b), j); }
    var f := FirstAtBound(ivs, Fin(b));
    hide AtBound;
    forall i | 0 <= i < j ensures ivs[i].iv.lo != Fin(b) { assert !ivs[i].iv.IsEmpty() by { assert ivs[i] in ivs; } }
    var e :| 0 <= e < j && ivs[e].iv.hi == Fin(b);
    assert !Less(ivs[j].iv.lo, ivs[e].iv.lo);
    SameUnlessLess(ivs[e].iv.lo, Fin(b));
    assert ivs[e] in ivs && Less(ivs[e].iv.lo, Fin(b)) && ivs[e].iv.hi == Fin(b);
    forall t | t in ivs && Less(t.iv.lo, Fin(b))
      ensures Less(t.iv.hi, Fin(b)) || (t.iv.hi == Fin(b) && !t.iv.hiIncl)
    {
      var i :| 0 <= i < |ivs| && ivs[i] == t;
      assert i < j;
      SameUnlessLess(t.iv.hi, Fin(b));
    }
  }

  /** For non-empty ranges the condition can be read off the declared order. */
  lemma TiedOpenIsExact(ivs: seq<TierInterval>, b: real)
    requires |ivs| > 0 && Sorted(ivs) && NonEmptyRanges(ivs)
    ensures PointGap(Fin(b)) in Swept(ivs) && Covered(ivs, b) <==> TiedOpen(ivs, b)
  {
    CoveredPointsAreReportedExactly(ivs, b);
    if TiedOpen(ivs, b) { TiedMeansMeetingOpen(ivs, b); }
    if j :| MeetsOpen(ivs, j, Fin(b)) {
      if StartsAt(ivs, Fin(b)) { MeetingOpenMeansTied(ivs, j, b); }
    }
  }

  // ----- exactness of the sweep -----

  ghost predicate NoTiedPoint(ivs: seq<TierInterval>) {
    forall b :: !TiedOpen(ivs, b)
  }

  lemma AReportLeavesAHole(ivs: seq<TierInterval>, g: Gap) returns (v: real)
    requires |ivs| > 0 && Sorted(ivs) && NonEmptyRanges(ivs) && NoTiedPoint(ivs) && g in Swept(ivs)
    ensures Less(ivs[0].iv.lo, Fin(v)) && !Covered(ivs, v)
  {
    hide NoTiedPoint;
    assert ivs[0] in ivs;
    if g.TopGap? {
      CursorIsTheSupremum(ivs, |ivs|);
      if g in GapsAfter(ivs, |ivs|) { var j := GapOrigin(ivs, |ivs|, g); }
      v := Between(g.above, PosInf);
      ReportedTopIsAHole(ivs, g, v);
    } else {
      var j := GapOrigin(ivs, |ivs|, g);
      CursorIsTheSupremum(ivs, j);
      assert ivs[j] in ivs && !Less(ivs[j].iv.lo, ivs[0].iv.lo);
      if g.RangeGap? {
        v := Between(g.from, g.to);
        ReportedRangesAreHoles(ivs, g, v);
      } else {
        v := g.at.v;
        ReportedPointIsAHole(ivs, v);
      }
    }
  }

  lemma ReportedPointIsAHole(ivs: seq<TierInterval>, b: real)
    requires |ivs| > 0 && Sorted(ivs) && NonEmptyRanges(ivs) && NoTiedPoint(ivs) && PointGap(Fin(b)) in Swept(ivs)
    ensures !Covered(ivs, b)
  {
    TiedOpenIsExact(ivs, b);
  }

  /** For non-empty ranges the diagnostics are empty exactly when everything above the lowest bound is covered
      and no covered value is tied open. */
  lemma SweepIsExact(ivs: seq<TierInterval>)
    requires |ivs| > 0 && Sorted(ivs) && NonEmptyRanges(ivs)
    ensures Swept(ivs) == [] <==> CoveredAboveLowest(ivs) && NoTiedPoint(ivs)
  {
    hide TiedOpen;
    if Swept(ivs) == [] {
      forall v: real | exists t :: t in ivs && Less(t.iv.lo, Fin(v)) ensures Covered(ivs, v) {
        SilenceMeansCovered(ivs, v);
      }
      forall b ensures !TiedOpen(ivs, b) { TiedOpenIsExact(ivs, b); }
    } else if NoTiedPoint(ivs) {
      var v := AReportLeavesAHole(ivs, Swept(ivs)[0]);
      assert ivs[0] in ivs;
    }
  }

  // ----- every hole is reported -----

  /** The reading lies in the gap as it is printed: open and closed ends as shown. */
  predicate Shows(g: Gap, v: real) {
    match g
    case RangeGap(from, fromOpen, to, toOpen) =>
      && (Less(from, Fin(v)) || (from == Fin(v) && !fromOpen))
      && (Less(Fin(v), to) || (to == Fin(v) && !toOpen))
    case PointGap(at) => at == Fin(v)
    case TopGap(above, open) => Less(above, Fin(v)) || (above == Fin(v) && !open)
  }

  ghost predicate Shown(gaps: seq<Gap>, v: real) {
    exists g :: g in gaps && Shows(g, v)
  }

  /** What a range leaves out when the cursor moves past it is in the gap before it. */
  lemma StepReportsWhatItSkips(c: Cursor, iv: Interval, v: real)
    requires !UpTo(c, v) && UpTo(Advance(c, iv), v) && !iv.Contains(v)
    ensures GapBefore(c, iv) != [] && Shows(GapBefore(c, iv)[0], v)
  {}

  lemma {:induction false} HolesUpToCursorAreReported(ivs: seq<TierInterval>, k: nat, v: real)
    requires 1 <= k <= |ivs| && Less(ivs[0].iv.lo, Fin(v)) && !Covered(ivs, v) && UpTo(CursorAfter(ivs, k), v)
    ensures Shown(GapsAfter(ivs, k), v)
  {
    assert !ivs[k - 1].iv.Contains(v) && !ivs[0].iv.Contains(v) by { assert ivs[k - 1] in ivs && ivs[0] in ivs; }
    if k > 1 {
      var before := GapsAfter(ivs, k - 1);
      var step := GapBefore(CursorAfter(ivs, k - 1), ivs[k - 1].iv);
      assert GapsAfter(ivs, k) == before + step;
      hide GapBefore, GapsAfter, Advance, Shows, Covered;
      if UpTo(CursorAfter(ivs, k - 1), v) {
        HolesUpToCursorAreReported(ivs, k - 1, v);
        var g :| g in before && Shows(g, v);
        assert g in before + step;
      } else {
        StepReportsWhatItSkips(CursorAfter(ivs, k - 1), ivs[k - 1].iv, v);
        assert step[0] in before + step;
      }
    }
  }

  /** Completeness, whatever the ranges: every value above the first range's lower bound that no range covers lies
      in some reported gap. */
  lemma EveryHoleIsReported(ivs: seq<TierInterval>, v: real)
    requires |ivs| > 0 && Less(ivs[0].iv.lo, Fin(v)) && !Covered(ivs, v)
    ensures Shown(Swept(ivs), v)
  {
    var c := CursorAfter(ivs, |ivs|);
    var top := if c.at != PosInf then [TopGap(c.at, c.incl)] else [];
    assert Swept(ivs) == GapsAfter(ivs, |ivs|) + top;
    if UpTo(c, v) {
      HolesUpToCursorAreReported(ivs, |ivs|, v);
      var g :| g in GapsAfter(ivs, |ivs|) && Shows(g, v);
      assert g in Swept(ivs);
    } else {
      assert TopGap(c.at, c.incl) in top && TopGap(c.at, c.incl) in Swept(ivs);
      assert Shows(TopGap(c.at, c.incl), v);
    }
  }

  /** Value by value the report is exact: unless a non-empty range starts at the value inclusively, it lies in a
      reported gap if and only if no range covers it. */
  lemma ReportIsExact(ivs: seq<TierInterval>, v: real)
    requires |ivs| > 0 && Sorted(ivs) && Less(ivs[0].iv.lo, Fin(v)) && !StartsAt(ivs, Fin(v))
    ensures Shown(Swept(ivs), v) <==> !Covered(ivs, v)
  {
    if !Covered(ivs, v) { EveryHoleIsReported(ivs, v); }
    if Shown(Swept(ivs), v) {
      var g :| g in Swept(ivs) && Shows(g, v);
      ShownGapsAreHoles(ivs, g, v);
    }
  }

  lemma ShownGapsAreHoles(ivs: seq<TierInterval>, g: Gap, v: real)
    requires |ivs| > 0 && Sorted(ivs) && !StartsAt(ivs, Fin(v)) && g in Swept(ivs) && Shows(g, v)
    ensures !Covered(ivs, v)
  {
    hide Swept, Covered, Sorted;
    match g
    case RangeGap(from, fromOpen, to, toOpen) =>
      if Less(Fin(v), to) { ReportedRangesAreHoles(ivs, g, v); } else { ReportedUpperEnds(ivs, g); }
    case PointGap(at) => ReportedPointsAreHolesUnlessTied(ivs, g);
    case TopGap(above, open) => ReportedTopIsAHole(ivs, g, v);
  }
}
