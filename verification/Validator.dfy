/** Stage 2 of the compiler: the semantic checks on a parsed policy. */
module Validator {
  import opened Policy
  import opened Ladder
  import opened Intervals
  import opened TierGaps

  /** Diagnostics by category; only the TTL check is a warning. */
  datatype Diagnostic =
    | NoTiers
    | MissingName
    | DuplicateName(tier: string)
    | UnknownMode(tier: string)
    | UnknownOnTimeout(tier: string)
    | GateWithoutWait(tier: string)
    | EmptyRange(tier: string, signal: string)
    | Undeclared(tier: string, signal: string)
    | TtlBelowRecovery(tier: string)
    | Hole(gap: Gap)
    | IsolatedCascade(service: string)
    | CircularDependency(path: seq<string>)
  {
    predicate IsError() { !TtlBelowRecovery? }
  }

  // ----- structural recursions over a condition -----

  predicate ContradictoryHere(c: Condition, id: string) {
    && id in c.comparisons
    && var iv := ComparatorToInterval(c.comparisons[id]);
    iv.Some? && iv.value.IsEmpty()
  }

  /** Somewhere in the tree the comparator on `id` describes an empty range. */
  ghost predicate Contradictory(c: Condition, id: string) {
    || ContradictoryHere(c, id)
    || (exists sub | sub in c.allOf :: Contradictory(sub, id))
    || (exists sub | sub in c.anyOf :: Contradictory(sub, id))
  }

  /** A signal is contradictory exactly when some node of the tree compares it with an empty range. */
  lemma {:induction false} ContradictoryMeansEmptyRange(c: Condition, id: string)
    ensures Contradictory(c, id) <==> exists sub :: Within(sub, c) && EmptyRangeAt(sub, id)
  {
    forall x | x in c.allOf || x in c.anyOf
      ensures Contradictory(x, id) <==> exists sub :: Within(sub, x) && EmptyRangeAt(sub, id)
    {
      ContradictoryMeansEmptyRange(x, id);
    }
    if ContradictoryHere(c, id) { assert Within(c, c) && EmptyRangeAt(c, id); }
    if x :| x in c.allOf && Contradictory(x, id) {
      var sub :| Within(sub, x) && EmptyRangeAt(sub, id);
      assert Within(sub, c);
    }
    if x :| x in c.anyOf && Contradictory(x, id) {
      var sub :| Within(sub, x) && EmptyRangeAt(sub, id);
      assert Within(sub, c);
    }
  }

  /** The node compares `id` with bounds of which the lower is above the upper, or equal to it with one excluded. */
  predicate EmptyRangeAt(c: Condition, id: string) {
    && id in c.comparisons && ComparatorToInterval(c.comparisons[id]).Some?
    && var iv := ComparatorToInterval(c.comparisons[id]).value;
    Less(iv.hi, iv.lo) || (iv.lo == iv.hi && !(iv.loIncl && iv.hiIncl))
  }

  ghost predicate AnyContradictory(cs: seq<Condition>, id: string) {
    exists sub | sub in cs :: Contradictory(sub, id)
  }

  ghost predicate AnyMentions(cs: seq<Condition>, id: string) {
    exists sub | sub in cs :: Mentions(sub, id)
  }

  lemma AnyOfPrefix(cs: seq<Condition>, i: nat, id: string)
    requires i < |cs|
    ensures AnyContradictory(cs[..i + 1], id) <==> AnyContradictory(cs[..i], id) || Contradictory(cs[i], id)
    ensures AnyMentions(cs[..i + 1], id) <==> AnyMentions(cs[..i], id) || Mentions(cs[i], id)
  {
    assert forall sub :: sub in cs[..i + 1] <==> sub in cs[..i] || sub == cs[i];
  }

  /** The map is walked in an arbitrary order. */
  method EmptyRanges(c: Condition) returns (out: seq<string>)
    ensures forall id :: id in out <==> Contradictory(c, id)
  {
    out := [];
    var todo := c.comparisons.Keys;
    while todo != {}
      invariant todo <= c.comparisons.Keys
      invariant forall id :: id in out <==> ContradictoryHere(c, id) && id !in todo
    {
      var id :| id in todo;
      todo := todo - {id};
      var iv := ComparatorToInterval(c.comparisons[id]);
      if iv.Some? && iv.value.IsEmpty() { out := out + [id]; }
    }
    for i := 0 to |c.allOf|
      invariant forall id :: id in out <==> ContradictoryHere(c, id) || AnyContradictory(c.allOf[..i], id)
    {
      var more := EmptyRanges(c.allOf[i]);
      out := out + more;
      forall id ensures AnyContradictory(c.allOf[..i + 1], id) <==>
                        AnyContradictory(c.allOf[..i], id) || Contradictory(c.allOf[i], id)
      { AnyOfPrefix(c.allOf, i, id); }
    }
    assert c.allOf[..|c.allOf|] == c.allOf;
    for i := 0 to |c.anyOf|
      invariant forall id :: id in out <==>
                  ContradictoryHere(c, id) || AnyContradictory(c.allOf, id) || AnyContradictory(c.anyOf[..i], id)
    {
      var more := EmptyRanges(c.anyOf[i]);
      out := out + more;
      forall id ensures AnyContradictory(c.anyOf[..i + 1], id) <==>
                        AnyContradictory(c.anyOf[..i], id) || Contradictory(c.anyOf[i], id)
      { AnyOfPrefix(c.anyOf, i, id); }
    }
    assert c.anyOf[..|c.anyOf|] == c.anyOf;
  }

  method CollectSignalRefs(c: Condition) returns (refs: seq<string>)
    ensures forall id :: id in refs <==> Mentions(c, id)
  {
    refs := [];
    var todo := c.comparisons.Keys;
    while todo != {}
      invariant todo <= c.comparisons.Keys
      invariant forall id :: id in refs <==> id in c.comparisons && id !in todo
    {
      var id :| id in todo;
      todo := todo - {id};
      refs := refs + [id];
    }
    for i := 0 to |c.allOf|
      invariant forall id :: id in refs <==> id in c.comparisons || AnyMentions(c.allOf[..i], id)
    {
      var more := CollectSignalRefs(c.allOf[i]);
      refs := refs + more;
      forall id ensures AnyMentions(c.allOf[..i + 1], id) <==>
                        AnyMentions(c.allOf[..i], id) || Mentions(c.allOf[i], id)
      { AnyOfPrefix(c.allOf, i, id); }
    }
    assert c.allOf[..|c.allOf|] == c.allOf;
    for i := 0 to |c.anyOf|
      invariant forall id :: id in refs <==>
                  id in c.comparisons || AnyMentions(c.allOf, id) || AnyMentions(c.anyOf[..i], id)
    {
      var more := CollectSignalRefs(c.anyOf[i]);
      refs := refs + more;
      forall id ensures AnyMentions(c.anyOf[..i + 1], id) <==>
                        AnyMentions(c.anyOf[..i], id) || Mentions(c.anyOf[i], id)
      { AnyOfPrefix(c.anyOf, i, id); }
    }
    assert c.anyOf[..|c.anyOf|] == c.anyOf;
  }

  // ----- the tier-gap check on a policy -----

  /** A flat condition with one comparator, on signal `id`, that describes a range. */
  predicate RangeOn(t: Tier, id: string) {
    && t.when.allOf == [] && t.when.anyOf == []
    && t.when.comparisons.Keys == {id}
    && ComparatorToInterval(t.when.comparisons[id]).Some?
  }

  /** The ladders the detector analyses: the first k tiers on the signal called "", the rest on `signal`.
      The compiler keeps the ladder's signal in a string that is "" until one is seen. */
  ghost predicate OnSignal(tiers: seq<Tier>, k: nat, signal: string) {
    k <= |tiers| && forall i | 0 <= i < |tiers| :: RangeOn(tiers[i], if i < k then "" else signal)
  }

  ghost predicate Analysed(tiers: seq<Tier>) {
    |tiers| >= 2 && exists k: nat, signal :: OnSignal(tiers, k, signal)
  }

  ghost predicate HasRange(t: Tier) {
    exists id :: RangeOn(t, id)
  }

  ghost function RangeOf(t: Tier): TierInterval
    requires HasRange(t)
  {
    var id :| RangeOn(t, id);
    TierInterval(t.name, ComparatorToInterval(t.when.comparisons[id]).value)
  }

  ghost function Ranges(tiers: seq<Tier>): (ivs: seq<TierInterval>)
    requires forall t | t in tiers :: HasRange(t)
    ensures |ivs| == |tiers| && forall i | 0 <= i < |tiers| :: ivs[i] == RangeOf(tiers[i])
  {
    seq(|tiers|, i requires 0 <= i < |tiers| => RangeOf(tiers[i]))
  }

  lemma RangeOnIsUnique(t: Tier, a: string, b: string)
    requires RangeOn(t, a) && RangeOn(t, b)
    ensures a == b
  {
    assert a in t.when.comparisons.Keys;
  }

  lemma AnalysedTiersHaveRanges(tiers: seq<Tier>, k: nat, signal: string)
    requires OnSignal(tiers, k, signal)
    ensures forall t | t in tiers :: HasRange(t)
  {}

  ghost function DetectedGaps(tiers: seq<Tier>): seq<Gap> {
    if Analysed(tiers) then
      var k: nat, signal :| OnSignal(tiers, k, signal);
      AnalysedTiersHaveRanges(tiers, k, signal);
      Swept(StableSorted(Ranges(tiers)))
    else []
  }

  /** The detector reports nothing. */
  ghost predicate NoGaps(tiers: seq<Tier>) {
    forall g :: g !in DetectedGaps(tiers)
  }

  lemma SingletonKeys(m: map<string, Comparator>, id: string)
    requires |m| == 1 && id in m
    ensures m.Keys == {id}
  {
    assert |m.Keys - {id}| == 0;
  }

  method DetectTierGaps(tiers: seq<Tier>) returns (gaps: seq<Gap>)
    ensures gaps == DetectedGaps(tiers)
  {
    if |tiers| < 2 { return []; }
    var ivs: seq<TierInterval> := [];
    var signal := "";
    ghost var k: nat := 0;
    for i := 0 to |tiers|
      invariant k <= i && (forall j | 0 <= j < i :: RangeOn(tiers[j], if j < k then "" else signal))
      invariant if signal == "" then k == i else k < i
      invariant |ivs| == i && forall j | 0 <= j < i :: HasRange(tiers[j]) && ivs[j] == RangeOf(tiers[j])
    {
      var when := tiers[i].when;
      if |when.allOf| > 0 || |when.anyOf| > 0 || |when.comparisons| != 1 {
        assert !HasRange(tiers[i]);
        assert !Analysed(tiers) by { NotARange(tiers, i); }
        return [];
      }
      assert |when.comparisons.Keys| == 1;
      var id :| id in when.comparisons.Keys;
      SingletonKeys(when.comparisons, id);
      if signal != "" && id != signal {
        assert !Analysed(tiers) by {
          if HasRange(tiers[i]) {
            var other :| RangeOn(tiers[i], other);
            assert other in when.comparisons.Keys;
            TwoSignals(tiers, k, i, signal, id);
          } else {
            NotARange(tiers, i);
          }
        }
        return [];
      }
      var iv := ComparatorToInterval(when.comparisons[id]);
      if iv.None? {
        assert !HasRange(tiers[i]);
        assert !Analysed(tiers) by { NotARange(tiers, i); }
        return [];
      }
      if signal == "" && id == "" { k := i + 1; }
      signal := id;
      assert RangeOn(tiers[i], id);
      forall other | RangeOn(tiers[i], other) ensures other == id { RangeOnIsUnique(tiers[i], other, id); }
      ivs := ivs + [TierInterval(tiers[i].name, iv.value)];
    }
    assert OnSignal(tiers, k, signal);
    assert ivs == Ranges(tiers);
    var slice := new TierInterval[|ivs|](i requires 0 <= i < |ivs| => ivs[i]);
    assert slice[..] == ivs;
    SortIntervals(slice);
    gaps := Sweep(slice);
  }

  lemma NotARange(tiers: seq<Tier>, i: nat)
    requires i < |tiers| && !HasRange(tiers[i])
    ensures !Analysed(tiers)
  {
    forall k: nat, signal ensures !OnSignal(tiers, k, signal) {
      if OnSignal(tiers, k, signal) { AnalysedTiersHaveRanges(tiers, k, signal); }
    }
  }

  lemma TwoSignals(tiers: seq<Tier>, a: nat, b: nat, signal: string, id: string)
    requires a < b < |tiers| && signal != "" && id != signal
    requires RangeOn(tiers[a], signal) && RangeOn(tiers[b], id)
    ensures !Analysed(tiers)
  {
    forall k: nat, s ensures !OnSignal(tiers, k, s) {
      if OnSignal(tiers, k, s) {
        RangeOnIsUnique(tiers[a], signal, if a < k then "" else s);
        RangeOnIsUnique(tiers[b], id, if b < k then "" else s);
      }
    }
  }

  // ----- the whole of stage 2 -----

  const MODES := {"", "full_service", "read_only", "static_fallback"}
  const ON_TIMEOUTS := {"", "execute_policy", "hold", "escalate"}
  const NANOS_PER_SECOND := 1_000_000_000

  /** What a single tier is reported for, given the names seen before it. */
  ghost predicate ShapeFault(t: Tier, seen: set<string>, d: Diagnostic) {
    match d
    case MissingName => t.name == ""
    case DuplicateName(n) => n == t.name && n != "" && n in seen
    case UnknownMode(n) => n == t.name && t.behavior.mode !in MODES
    case UnknownOnTimeout(n) => n == t.name && t.humanGate.Some? && t.humanGate.value.onTimeout !in ON_TIMEOUTS
    case GateWithoutWait(n) => n == t.name && t.humanGate.Some? && t.humanGate.value.wait <= 0
    case EmptyRange(n, id) => n == t.name && Contradictory(t.when, id)
    case _ => false
  }

  method ValidateTierShape(t: Tier, seen: set<string>) returns (diags: seq<Diagnostic>, seen': set<string>)
    ensures seen' == seen + {t.name}
    ensures forall d :: d in diags <==> ShapeFault(t, seen, d)
  {
    diags := [];
    if t.name == "" {
      diags := diags + [MissingName];
    } else if t.name in seen {
      diags := diags + [DuplicateName(t.name)];
    }
    seen' := seen + {t.name};
    if t.behavior.mode !in MODES { diags := diags + [UnknownMode(t.name)]; }
    if t.humanGate.Some? {
      if t.humanGate.value.onTimeout !in ON_TIMEOUTS { diags := diags + [UnknownOnTimeout(t.name)]; }
      if t.humanGate.value.wait <= 0 { diags := diags + [GateWithoutWait(t.name)]; }
    }
    assert forall d :: d in diags <==> !d.EmptyRange? && ShapeFault(t, seen, d);
    var contradictions := ReportContradictions(t);
    diags := diags + contradictions;
  }

  method ReportContradictions(t: Tier) returns (diags: seq<Diagnostic>)
    ensures forall d :: d in diags <==> d.EmptyRange? && d.tier == t.name && Contradictory(t.when, d.signal)
  {
    diags := [];
    var ids := EmptyRanges(t.when);
    for i := 0 to |ids|
      invariant forall d :: d in diags <==> d.EmptyRange? && d.tier == t.name && d.signal in ids[..i]
    {
      diags := diags + [EmptyRange(t.name, ids[i])];
    }
    assert ids[..|ids|] == ids;
  }

  ghost function NamesOf(tiers: seq<Tier>): set<string> {
    set t | t in tiers :: t.name
  }

  predicate TtlFault(p: DegradationPolicy, t: Tier) {
    && t.behavior.queueWrites.Some? && p.blastRadius.recoverySLASeconds > 0
    && 0 < t.behavior.queueWrites.value.ttl / NANOS_PER_SECOND < p.blastRadius.recoverySLASeconds
  }

  /** What tier i is reported for by the reference and TTL checks. */
  ghost predicate ReferenceFault(p: DegradationPolicy, t: Tier, d: Diagnostic) {
    match d
    case Undeclared(n, id) => n == t.name && Mentions(t.when, id) && id !in p.signals
    case TtlBelowRecovery(n) => n == t.name && TtlFault(p, t)
    case _ => false
  }

  /** The diagnostics of a policy, stated without saying how they are found. */
  ghost predicate Fault(p: DegradationPolicy, d: Diagnostic) {
    || (d == NoTiers && p.tiers == [])
    || (exists i | 0 <= i < |p.tiers| :: ShapeFault(p.tiers[i], NamesOf(p.tiers[..i]), d))
    || (exists i | 0 <= i < |p.tiers| :: ReferenceFault(p, p.tiers[i], d))
    || (d.Hole? && d.gap in DetectedGaps(p.tiers))
  }

  method CheckReferences(p: DegradationPolicy, declared: set<string>, t: Tier) returns (diags: seq<Diagnostic>)
    requires forall id :: id in declared <==> id in p.signals
    ensures forall d :: d in diags <==> ReferenceFault(p, t, d)
  {
    diags := [];
    var refs := CollectSignalRefs(t.when);
    for i := 0 to |refs|
      invariant forall d :: d in diags <==>
                  d.Undeclared? && d.tier == t.name && d.signal in refs[..i] && d.signal !in declared
    {
      if refs[i] !in declared { diags := diags + [Undeclared(t.name, refs[i])]; }
    }
    assert refs[..|refs|] == refs;
    if t.behavior.queueWrites.Some? && p.blastRadius.recoverySLASeconds > 0 {
      var ttlSec := t.behavior.queueWrites.value.ttl / NANOS_PER_SECOND;
      if ttlSec > 0 && ttlSec < p.blastRadius.recoverySLASeconds {
        diags := diags + [TtlBelowRecovery(t.name)];
      }
    }
  }

  method CheckShapes(tiers: seq<Tier>) returns (diags: seq<Diagnostic>)
    ensures forall d :: d in diags <==>
              exists i | 0 <= i < |tiers| :: ShapeFault(tiers[i], NamesOf(tiers[..i]), d)
  {
    diags := [];
    var seen: set<string> := {};
    for i := 0 to |tiers|
      invariant seen == NamesOf(tiers[..i])
      invariant forall d :: d in diags <==>
                  exists j | 0 <= j < i :: ShapeFault(tiers[j], NamesOf(tiers[..j]), d)
    {
      ghost var before := diags;
      var more;
      assert tiers[..i + 1] == tiers[..i] + [tiers[i]];
      more, seen := ValidateTierShape(tiers[i], seen);
      diags := diags + more;
    }
  }

  /** Stage 2 reports exactly the faults of the policy. */
  method Validate(p: DegradationPolicy) returns (diags: seq<Diagnostic>)
    ensures forall d :: d in diags <==> Fault(p, d)
  {
    var declared := set id | id in p.signals;
    diags := if p.tiers == [] then [NoTiers] else [];
    var shapes := CheckShapes(p.tiers);
    diags := diags + shapes;
    ghost var before := diags;
    for i := 0 to |p.tiers|
      invariant forall d :: d in diags <==>
                  d in before || exists j | 0 <= j < i :: ReferenceFault(p, p.tiers[j], d)
    {
      var more := CheckReferences(p, declared, p.tiers[i]);
      diags := diags + more;
    }
    var gaps := DetectTierGaps(p.tiers);
    ghost var before' := diags;
    for i := 0 to |gaps|
      invariant forall d :: d in diags <==> d in before' || (d.Hole? && d.gap in gaps[..i])
    {
      diags := diags + [Hole(gaps[i])];
    }
    assert gaps[..|gaps|] == gaps;
  }
}
