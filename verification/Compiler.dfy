/** The compiler as a whole: when it emits a bundle, and what an emitted bundle guarantees to the runtime. */
module Compiler {
  import opened Policy
  import opened Ladder
  import opened Intervals
  import opened TierGaps
  import opened Graphs
  import opened Validator

  // ----- stage 3: the blast radius -----

  function GraphRoot(service: string): string {
    if service == "" then "self" else service
  }

  function Neighbours(br: BlastRadius): seq<string> {
    br.dependsOn + br.cascadeTo
  }

  /** Every edge leaves the service itself; the services it names are leaves. */
  function BlastGraphOf(service: string, br: BlastRadius): Graph {
    var root := GraphRoot(service);
    map n | n in [root] + Neighbours(br) :: if n == root then Neighbours(br) else []
  }

  function IsolationSetOf(br: BlastRadius): set<string> {
    if br.isolationBoundary != "" then {br.isolationBoundary} else {}
  }

  predicate SelfDependent(p: DegradationPolicy) {
    GraphRoot(p.service) in Neighbours(p.blastRadius)
  }

  predicate IsolationBreached(br: BlastRadius) {
    br.isolationBoundary != "" && br.isolationBoundary in br.cascadeTo
  }

  ghost predicate BlastFault(p: DegradationPolicy, d: Diagnostic) {
    match d
    case IsolatedCascade(s) => s == p.blastRadius.isolationBoundary && IsolationBreached(p.blastRadius)
    case CircularDependency(path) => SelfDependent(p) && path == [GraphRoot(p.service), GraphRoot(p.service)]
    case _ => false
  }

  lemma IsolationSetIsTheBoundary(br: BlastRadius)
    ensures IsolationSetOf(br) == if br.isolationBoundary == "" then {} else {br.isolationBoundary}
  {}

  /** The graph as the policy declares it: the service points at its dependencies and then at what it cascades to,
      in that order, and every service it names is a leaf. */
  lemma BlastGraphMeans(service: string, br: BlastRadius)
    ensures var g, root := BlastGraphOf(service, br), if service == "" then "self" else service;
      && g.Keys == {root} + (set n | n in br.dependsOn) + (set n | n in br.cascadeTo)
      && g[root] == br.dependsOn + br.cascadeTo
      && (forall n | n in g && n != root :: g[n] == [])
  {}

  lemma BlastGraphEdges(service: string, br: BlastRadius)
    ensures var g := BlastGraphOf(service, br);
      && Closed(g)
      && (forall a, b :: Edge(g, a, b) <==> a == GraphRoot(service) && b in Neighbours(br))
  {}

  /** The graph is a star, so a cycle is always the service depending on, or cascading to, itself. */
  lemma CycleMeansSelfDependency(service: string, br: BlastRadius, a: string, b: string)
    ensures CycleEdge(BlastGraphOf(service, br), a, b)
      <==> a == b == GraphRoot(service) && GraphRoot(service) in Neighbours(br)
  {
    var g, root := BlastGraphOf(service, br), GraphRoot(service);
    BlastGraphEdges(service, br);
    if CycleEdge(g, a, b) {
      var p :| Walk(g, p) && p[0] == b && p[|p| - 1] == a;
      if |p| > 1 { assert Hop(g, p, 0); }
    }
    if a == b == root && root in Neighbours(br) { ReachesItself(g, root); }
  }

  method BuildGraph(svc: string, br: BlastRadius) returns (graph: Graph)
    ensures svc != "" ==> graph == BlastGraphOf(svc, br)
  {
    var all := br.dependsOn + br.cascadeTo;
    graph := map[svc := all];
    for i := 0 to |all|
      invariant forall n :: n in graph <==> n == svc || n in all[..i]
      invariant forall n | n in graph :: graph[n] == if n == svc then all else []
    {
      assert all[..i + 1] == all[..i] + [all[i]];
      if all[i] !in graph { graph := graph[all[i] := []]; }
    }
    assert all[..|all|] == all;
  }

  method CheckIsolation(br: BlastRadius) returns (diags: seq<Diagnostic>, isolationSet: set<string>)
    ensures forall d :: d in diags <==> d == IsolatedCascade(br.isolationBoundary) && IsolationBreached(br)
    ensures isolationSet == IsolationSetOf(br)
  {
    diags, isolationSet := [], {};
    if br.isolationBoundary != "" {
      isolationSet := isolationSet + {br.isolationBoundary};
      for i := 0 to |br.cascadeTo|
        invariant forall d :: d in diags <==>
                    d == IsolatedCascade(br.isolationBoundary) && br.isolationBoundary in br.cascadeTo[..i]
      {
        if br.cascadeTo[i] == br.isolationBoundary {
          diags := diags + [IsolatedCascade(br.isolationBoundary)];
        }
      }
      assert br.cascadeTo[..|br.cascadeTo|] == br.cascadeTo;
    }
  }

  lemma CyclicMeansSelfDependent(p: DegradationPolicy)
    ensures Cyclic(BlastGraphOf(p.service, p.blastRadius)) <==> SelfDependent(p)
  {
    var g, root := BlastGraphOf(p.service, p.blastRadius), GraphRoot(p.service);
    CycleMeansSelfDependency(p.service, p.blastRadius, root, root);
    if Cyclic(g) {
      var a, b :| CycleEdge(g, a, b);
      CycleMeansSelfDependency(p.service, p.blastRadius, a, b);
    }
  }

  method CheckCycle(p: DegradationPolicy, graph: Graph) returns (diags: seq<Diagnostic>, ghost rank: map<string, nat>)
    requires graph == BlastGraphOf(p.service, p.blastRadius)
    ensures forall d :: d in diags <==>
              SelfDependent(p) && d == CircularDependency([GraphRoot(p.service), GraphRoot(p.service)])
    ensures SelfDependent(p) <==> Cyclic(graph)
    ensures !SelfDependent(p) ==> Ranks(graph, rank) && rank.Keys == graph.Keys
  {
    BlastGraphEdges(p.service, p.blastRadius);
    CyclicMeansSelfDependent(p);
    hide Cyclic, CycleEdge, BlastGraphOf, Ranks, Neighbours;
    diags := [];
    var found, path;
    found, path, rank := DetectCycle(graph);
    if found {
      CycleMeansSelfDependency(p.service, p.blastRadius, path[0], path[1]);
      assert path == [GraphRoot(p.service), GraphRoot(p.service)];
      diags := [CircularDependency(path)];
    }
  }

  method AnalyzeBlast(p: DegradationPolicy)
    returns (diags: seq<Diagnostic>, graph: Graph, isolationSet: set<string>, ghost rank: map<string, nat>)
    ensures forall d :: d in diags <==> BlastFault(p, d)
    ensures graph == BlastGraphOf(p.service, p.blastRadius)
    ensures isolationSet == IsolationSetOf(p.blastRadius)
    ensures SelfDependent(p) <==> Cyclic(graph)
    ensures !SelfDependent(p) ==> Ranks(graph, rank) && rank.Keys == graph.Keys
  {
    var svc := p.service;
    if svc == "" { svc := "self"; }
    graph := BuildGraph(svc, p.blastRadius);
    assert graph == BlastGraphOf(p.service, p.blastRadius);
    diags, isolationSet := CheckIsolation(p.blastRadius);
    hide Cyclic, BlastGraphOf, Ranks, SelfDependent, IsolationBreached, IsolationSetOf;
    var cycles;
    cycles, rank := CheckCycle(p, graph);
    diags := diags + cycles;
  }

  // ----- the whole compiler -----

  function CompiledTierOf(t: Tier): CompiledTier {
    CompiledTier(t.name, t.when, t.behavior, t.humanGate)
  }

  function LadderOf(p: DegradationPolicy): (tiers: Tiers)
    ensures |tiers| == |p.tiers|
  {
    seq(|p.tiers|, i requires 0 <= i < |p.tiers| => CompiledTierOf(p.tiers[i]))
  }

  function BundleOf(p: DegradationPolicy): Bundle {
    Bundle(p.service, LadderOf(p), BlastGraphOf(p.service, p.blastRadius), IsolationSetOf(p.blastRadius), p.signals)
  }

  ghost predicate AcceptableTier(p: DegradationPolicy, t: Tier) {
    && t.name != ""
    && t.behavior.mode in {"", "full_service", "read_only", "static_fallback"}
    && (t.humanGate.Some? ==>
          t.humanGate.value.onTimeout in {"", "execute_policy", "hold", "escalate"} && t.humanGate.value.wait > 0)
    && (forall id :: !Contradictory(t.when, id))
    && (forall id | Mentions(t.when, id) :: id in p.signals)
  }

  /** The policies the compiler accepts. */
  ghost predicate Acceptable(p: DegradationPolicy) {
    && p.tiers != []
    && (forall t | t in p.tiers :: AcceptableTier(p, t))
    && (forall i, j | 0 <= i < j < |p.tiers| :: p.tiers[i].name != p.tiers[j].name)
    && NoGaps(p.tiers)
    && (p.blastRadius.isolationBoundary != "" ==> p.blastRadius.isolationBoundary !in p.blastRadius.cascadeTo)
    && var self := if p.service == "" then "self" else p.service;
    self !in p.blastRadius.dependsOn && self !in p.blastRadius.cascadeTo
  }

  method CompileTiers(tiers: seq<Tier>) returns (out: seq<CompiledTier>)
    ensures |out| == |tiers| && forall i | 0 <= i < |tiers| :: out[i] == CompiledTierOf(tiers[i])
    ensures forall i | 0 <= i < |tiers| ::
      && out[i].name == tiers[i].name && out[i].condition == tiers[i].when
      && out[i].behavior == tiers[i].behavior && out[i].gateSpec == tiers[i].humanGate
  {
    var slots := new CompiledTier[|tiers|];
    for i := 0 to |tiers|
      invariant forall j | 0 <= j < i :: slots[j] == CompiledTierOf(tiers[j])
    {
      var t := tiers[i];
      slots[i] := CompiledTier(t.name, t.when, t.behavior, t.humanGate);
    }
    out := slots[..];
  }

  /** What each diagnostic says of a policy. */
  ghost predicate Deserved(p: DegradationPolicy, d: Diagnostic) {
    var self := if p.service == "" then "self" else p.service;
    match d
    case NoTiers => p.tiers == []
    case MissingName => exists t :: t in p.tiers && t.name == ""
    case DuplicateName(n) => n != "" && exists i, j :: 0 <= i < j < |p.tiers| && p.tiers[i].name == p.tiers[j].name == n
    case UnknownMode(n) =>
      exists t | t in p.tiers ::
        t.name == n && t.behavior.mode !in {"", "full_service", "read_only", "static_fallback"}
    case UnknownOnTimeout(n) =>
      exists t | t in p.tiers ::
        && t.name == n && t.humanGate.Some?
        && t.humanGate.value.onTimeout !in {"", "execute_policy", "hold", "escalate"}
    case GateWithoutWait(n) =>
      exists t | t in p.tiers :: t.name == n && t.humanGate.Some? && t.humanGate.value.wait <= 0
    case EmptyRange(n, id) =>
      exists t, sub | t in p.tiers && Within(sub, t.when) :: t.name == n && EmptyRangeAt(sub, id)
    case Undeclared(n, id) =>
      id !in p.signals && exists t, sub | t in p.tiers && Within(sub, t.when) :: t.name == n && id in sub.comparisons
    case TtlBelowRecovery(n) =>
      exists t | t in p.tiers ::
        && t.name == n && t.behavior.queueWrites.Some?
        && 0 < t.behavior.queueWrites.value.ttl / 1_000_000_000 < p.blastRadius.recoverySLASeconds
    case Hole(g) => g in DetectedGaps(p.tiers)
    case IsolatedCascade(n) => n != "" && n == p.blastRadius.isolationBoundary && n in p.blastRadius.cascadeTo
    case CircularDependency(path) =>
      path == [self, self] && (self in p.blastRadius.dependsOn || self in p.blastRadius.cascadeTo)
  }

  /** The two stages report exactly what the policy deserves. */
  lemma DiagnosticsMean(p: DegradationPolicy, d: Diagnostic)
    ensures Fault(p, d) || BlastFault(p, d) <==> Deserved(p, d)
  {
    match d
    case EmptyRange(n, id) =>
      forall t | t in p.tiers { ContradictoryMeansEmptyRange(t.when, id); }
      hide Contradictory, Within, EmptyRangeAt;
    case Undeclared(n, id) =>
      forall t | t in p.tiers { MentionedMeansCompared(t.when, id); }
      hide Mentions, Within;
    case DuplicateName(n) =>
      forall j | 0 <= j < |p.tiers|
        ensures n in NamesOf(p.tiers[..j]) <==> exists i :: 0 <= i < j && p.tiers[i].name == n
      {
        if i :| 0 <= i < j && p.tiers[i].name == n { assert p.tiers[..j][i] in p.tiers[..j]; }
      }
    case _ =>
  }

  /** The tier-gap check only speaks of ladders of at least two tiers, each of them one comparator. */
  lemma OnlyFlatLaddersAreSwept(tiers: seq<Tier>)
    requires DetectedGaps(tiers) != []
    ensures |tiers| >= 2
    ensures forall t | t in tiers :: t.when.allOf == [] && t.when.anyOf == [] && |t.when.comparisons| == 1
  {
    forall t | t in tiers
      ensures t.when.allOf == [] && t.when.anyOf == [] && |t.when.comparisons| == 1
    {
      var k: nat, signal :| OnSignal(tiers, k, signal);
      var i :| 0 <= i < |tiers| && tiers[i] == t;
      var id := if i < k then "" else signal;
      assert RangeOn(t, id);
      assert |t.when.comparisons| == |t.when.comparisons.Keys| == |{id}|;
    }
  }

  lemma TierFaultsBlock(p: DegradationPolicy, i: nat)
    requires i < |p.tiers|
    ensures (forall d | Fault(p, d) :: !d.IsError()) ==>
              AcceptableTier(p, p.tiers[i]) && p.tiers[i].name !in NamesOf(p.tiers[..i])
  {
    var t := p.tiers[i];
    var seen := NamesOf(p.tiers[..i]);
    if forall d | Fault(p, d) :: !d.IsError() {
      forall d: Diagnostic | d.IsError() ensures !ShapeFault(t, seen, d) && !ReferenceFault(p, t, d) {
        assert !Fault(p, d);
      }
      assert !ShapeFault(t, seen, MissingName) && !ShapeFault(t, seen, DuplicateName(t.name));
      assert !ShapeFault(t, seen, UnknownMode(t.name)) && !ShapeFault(t, seen, UnknownOnTimeout(t.name));
      assert !ShapeFault(t, seen, GateWithoutWait(t.name));
      forall id ensures !Contradictory(t.when, id) { assert !ShapeFault(t, seen, EmptyRange(t.name, id)); }
      forall id | Mentions(t.when, id) ensures id in p.signals {
        assert !ReferenceFault(p, t, Undeclared(t.name, id));
      }
    }
  }

  lemma NoErrorsMakeAcceptable(p: DegradationPolicy)
    requires forall d | Fault(p, d) || BlastFault(p, d) :: !d.IsError()
    ensures Acceptable(p)
  {
    assert p.tiers != [] by { assert !Fault(p, NoTiers); }
    assert NoGaps(p.tiers) by {
      forall g ensures g !in DetectedGaps(p.tiers) { assert !Fault(p, Hole(g)); }
    }
    assert !IsolationBreached(p.blastRadius) && !SelfDependent(p) by {
      assert !BlastFault(p, IsolatedCascade(p.blastRadius.isolationBoundary));
      assert !BlastFault(p, CircularDependency([GraphRoot(p.service), GraphRoot(p.service)]));
    }
    hide Fault, BlastFault, AcceptableTier, NoGaps, IsolationBreached, SelfDependent;
    forall i | 0 <= i < |p.tiers| ensures AcceptableTier(p, p.tiers[i]) { TierFaultsBlock(p, i); }
    forall i, j | 0 <= i < j < |p.tiers| ensures p.tiers[i].name != p.tiers[j].name {
      TierFaultsBlock(p, j);
      assert p.tiers[..j][i] == p.tiers[i];
    }
  }

  lemma AcceptableTiersHaveNoFaults(p: DegradationPolicy, i: nat, d: Diagnostic)
    requires Acceptable(p) && i < |p.tiers|
    ensures !ShapeFault(p.tiers[i], NamesOf(p.tiers[..i]), d)
    ensures ReferenceFault(p, p.tiers[i], d) ==> !d.IsError()
  {
    assert AcceptableTier(p, p.tiers[i]);
    assert p.tiers[i].name !in NamesOf(p.tiers[..i]);
  }

  lemma AcceptableMakesNoErrors(p: DegradationPolicy, d: Diagnostic)
    requires Acceptable(p) && (Fault(p, d) || BlastFault(p, d))
    ensures !d.IsError()
  {
    hide ShapeFault, ReferenceFault, AcceptableTier;
    forall i | 0 <= i < |p.tiers|
      ensures !ShapeFault(p.tiers[i], NamesOf(p.tiers[..i]), d)
      ensures ReferenceFault(p, p.tiers[i], d) ==> !d.IsError()
    {
      AcceptableTiersHaveNoFaults(p, i, d);
    }
  }

  /** No error-level diagnostic is reported exactly for the acceptable policies. */
  lemma NoErrorsMeansAcceptable(p: DegradationPolicy)
    ensures (forall d | Fault(p, d) || BlastFault(p, d) :: !d.IsError()) <==> Acceptable(p)
  {
    hide Acceptable, Fault, BlastFault;
    if forall d | Fault(p, d) || BlastFault(p, d) :: !d.IsError() { NoErrorsMakeAcceptable(p); }
    if Acceptable(p) {
      forall d | Fault(p, d) || BlastFault(p, d) ensures !d.IsError() { AcceptableMakesNoErrors(p, d); }
    }
  }

  lemma AcceptableIsNotSelfDependent(p: DegradationPolicy)
    ensures Acceptable(p) ==> !SelfDependent(p)
  {}

  /** The compiler emits a bundle exactly for the acceptable policies, and reports exactly the faults. The
      finishing order of its cycle check ranks the graph of every bundle. */
  method Compile(p: DegradationPolicy)
    returns (bundle: Option<Bundle>, diags: seq<Diagnostic>, ghost rank: map<string, nat>)
    ensures forall d :: d in diags <==> Fault(p, d) || BlastFault(p, d)
    ensures bundle.Some? <==> Acceptable(p)
    ensures bundle.Some? ==> bundle.value == BundleOf(p)
    ensures bundle.Some? ==>
      var b := bundle.value;
      && b.service == p.service && b.signalSources == p.signals && |b.tiers| == |p.tiers|
      && (forall i | 0 <= i < |p.tiers| ::
            && b.tiers[i].name == p.tiers[i].name && b.tiers[i].condition == p.tiers[i].when
            && b.tiers[i].behavior == p.tiers[i].behavior && b.tiers[i].gateSpec == p.tiers[i].humanGate)
      && b.isolationSet == (if p.blastRadius.isolationBoundary == "" then {} else {p.blastRadius.isolationBoundary})
    ensures bundle.Some? ==> Ranks(bundle.value.blastGraph, rank) && rank.Keys == bundle.value.blastGraph.Keys
  {
    hide Fault, BlastFault, AcceptableTier, BlastGraphOf, IsolationSetOf, Ranks, SelfDependent, NoGaps;
    diags := Validate(p);
    var blastDiags, graph, isolationSet;
    blastDiags, graph, isolationSet, rank := AnalyzeBlast(p);
    diags := diags + blastDiags;
    NoErrorsMeansAcceptable(p);
    AcceptableIsNotSelfDependent(p);
    for i := 0 to |diags|
      invariant forall j | 0 <= j < i :: !diags[j].IsError()
    {
      if diags[i].IsError() {
        assert diags[i] in diags;
        return None, diags, rank;
      }
    }
    forall d | Fault(p, d) || BlastFault(p, d) ensures !d.IsError() {
      assert d in diags;
    }
    var tiers := CompileTiers(p.tiers);
    assert tiers == LadderOf(p);
    IsolationSetIsTheBoundary(p.blastRadius);
    bundle := Some(Bundle(p.service, tiers, graph, isolationSet, p.signals));
  }

  // ----- what an accepted policy guarantees at run time -----

  /** Names are non-empty and distinct, so looking a compiled tier up by name finds that tier. */
  lemma CompiledLadderIsWellFormed(p: DegradationPolicy)
    requires Acceptable(p)
    ensures WellFormed(LadderOf(p))
    ensures forall i | 0 <= i < |p.tiers| :: Index(LadderOf(p), p.tiers[i].name) == i
  {
    var tiers := LadderOf(p);
    forall i | 0 <= i < |p.tiers| ensures tiers[i].name != "" { assert p.tiers[i] in p.tiers; }
    forall i | 0 <= i < |p.tiers| ensures Index(tiers, p.tiers[i].name) == i {
      IndexInvertsNames(tiers, i, p.tiers[i].name);
    }
  }

  /** Two snapshots that agree on the declared signals match the same tier. */
  lemma CompiledMatchIgnoresUndeclared(p: DegradationPolicy, a: Snapshot, b: Snapshot)
    requires Acceptable(p) && AgreeOn(a, b, set id | id in p.signals)
    ensures MatchTier(LadderOf(p), a) == MatchTier(LadderOf(p), b)
  {
    var tiers := LadderOf(p);
    forall i, id | 0 <= i < |tiers| && Mentions(tiers[i].condition, id) ensures id in p.signals {
      assert AcceptableTier(p, p.tiers[i]) by { assert p.tiers[i] in p.tiers; }
    }
    UndeclaredSignalsDoNotMatter(tiers, |tiers|, a, b, set id | id in p.signals);
  }

  /** Every tier is a flat condition with one comparator on `signal`. */
  ghost predicate SingleSignal(tiers: seq<Tier>, signal: string) {
    |tiers| >= 2 && OnSignal(tiers, 0, signal)
  }

  /** The detector takes "" for "no signal seen yet", so a ladder that starts on a signal called "" and goes on
      to another one is analysed as if it had one signal. That is the only way an analysed ladder can mix. */
  lemma AnalysedLaddersHaveOneSignalUnlessUnnamed(tiers: seq<Tier>)
    requires Analysed(tiers)
    ensures (exists s :: SingleSignal(tiers, s))
      <==> (RangeOn(tiers[0], "") <==> RangeOn(tiers[|tiers| - 1], ""))
  {
    var k: nat, signal :| OnSignal(tiers, k, signal);
    var first, last := tiers[0], tiers[|tiers| - 1];
    assert RangeOn(first, if 0 < k then "" else signal) && RangeOn(last, if |tiers| - 1 < k then "" else signal);
    if exists s :: SingleSignal(tiers, s) {
      var s :| SingleSignal(tiers, s);
      assert RangeOn(first, s) && RangeOn(last, s);
      if RangeOn(first, "") { RangeOnIsUnique(first, s, ""); }
      if RangeOn(last, "") { RangeOnIsUnique(last, s, ""); }
    }
    if RangeOn(first, "") <==> RangeOn(last, "") {
      if k == 0 {
        assert SingleSignal(tiers, signal);
      } else {
        if k < |tiers| { RangeOnIsUnique(last, "", signal); }
        assert SingleSignal(tiers, "");
      }
    }
  }

  ghost predicate IgnoredBoundsImpliedEverywhere(tiers: seq<Tier>, signal: string)
    requires SingleSignal(tiers, signal)
  {
    forall i | 0 <= i < |tiers| :: IgnoredBoundsImplied(tiers[i].when.comparisons[signal])
  }

  /** The ranges the detector sorts and sweeps for a single-signal ladder. */
  ghost function SignalRanges(tiers: seq<Tier>, signal: string): (ivs: seq<TierInterval>)
    requires SingleSignal(tiers, signal)
    ensures |ivs| == |tiers|
  {
    seq(|tiers|, i requires 0 <= i < |tiers| =>
      TierInterval(tiers[i].name, ComparatorToInterval(tiers[i].when.comparisons[signal]).value))
  }

  lemma DetectorSweepsSignalRanges(tiers: seq<Tier>, signal: string)
    requires SingleSignal(tiers, signal)
    ensures DetectedGaps(tiers) == Swept(StableSorted(SignalRanges(tiers, signal)))
    ensures Sorted(StableSorted(SignalRanges(tiers, signal)))
    ensures forall t :: t in StableSorted(SignalRanges(tiers, signal)) <==> t in SignalRanges(tiers, signal)
  {
    var ivs := SignalRanges(tiers, signal);
    AnalysedTiersHaveRanges(tiers, 0, signal);
    forall i | 0 <= i < |tiers| ensures RangeOf(tiers[i]) == ivs[i] {
      forall other | RangeOn(tiers[i], other) ensures other == signal { RangeOnIsUnique(tiers[i], other, signal); }
    }
    assert ivs == Ranges(tiers);
    StableSortedSorts(ivs);
    forall t ensures t in StableSorted(ivs) <==> t in ivs {
      assert t in multiset(StableSorted(ivs)) <==> t in multiset(ivs);
    }
  }

  /** A reading of `signal` makes the runtime condition of tier i true only inside the tier's range,
      and throughout the range when the bounds the range ignores are implied. */
  lemma RuntimeAgreesWithRange(tiers: seq<Tier>, signal: string, i: nat, vals: Snapshot)
    requires SingleSignal(tiers, signal) && i < |tiers| && signal in vals
    ensures var c, iv := tiers[i].when.comparisons[signal], SignalRanges(tiers, signal)[i].iv;
      && (EvalCondition(tiers[i].when, vals) ==> iv.Contains(vals[signal]))
      && (IgnoredBoundsImplied(c) ==> (EvalCondition(tiers[i].when, vals) <==> iv.Contains(vals[signal])))
  {
    var c := tiers[i].when.comparisons;
    IntervalAgreesWithRuntime(c[signal], vals[signal]);
    assert forall id :: id in c <==> id == signal;
  }

  /** The reading lies above the lower bound of some tier, or in the range of some tier. */
  ghost predicate ReachesLadder(tiers: seq<Tier>, signal: string, v: real)
    requires SingleSignal(tiers, signal)
  {
    exists t :: t in SignalRanges(tiers, signal) && (Less(t.iv.lo, Fin(v)) || t.iv.Contains(v))
  }

  ghost predicate SomeTierMatches(tiers: seq<Tier>, vals: Snapshot) {
    exists i | 0 <= i < |tiers| :: EvalCondition(tiers[i].when, vals)
  }

  lemma CoveredMeansMatched(tiers: seq<Tier>, signal: string, vals: Snapshot)
    requires SingleSignal(tiers, signal) && IgnoredBoundsImpliedEverywhere(tiers, signal) && signal in vals
    ensures Covered(StableSorted(SignalRanges(tiers, signal)), vals[signal]) <==> SomeTierMatches(tiers, vals)
  {
    hide EvalCondition, Swept, DetectedGaps, StableSorted, Sorted;
    var ivs, v := SignalRanges(tiers, signal), vals[signal];
    DetectorSweepsSignalRanges(tiers, signal);
    if Covered(StableSorted(ivs), v) {
      var t :| t in StableSorted(ivs) && t.iv.Contains(v);
      var i :| 0 <= i < |ivs| && ivs[i] == t;
      RuntimeAgreesWithRange(tiers, signal, i, vals);
    }
    if i :| 0 <= i < |tiers| && EvalCondition(tiers[i].when, vals) {
      RuntimeAgreesWithRange(tiers, signal, i, vals);
      assert ivs[i] in StableSorted(ivs);
    }
  }

  lemma MatchFindsAMatchingTier(p: DegradationPolicy, vals: Snapshot)
    requires Acceptable(p) && SomeTierMatches(p.tiers, vals)
    ensures var m := MatchIndex(LadderOf(p), vals);
      0 <= m < |p.tiers| && EvalCondition(p.tiers[m].when, vals)
  {
    CompiledLadderIsWellFormed(p);
    MatchTierIsMostDegraded(LadderOf(p), vals);
    var i :| 0 <= i < |p.tiers| && EvalCondition(p.tiers[i].when, vals);
    assert EvalCondition(LadderOf(p)[i].condition, vals);
  }

  /** An accepted ladder has no holes at run time: wherever the signal reaches the ladder, the matched
      tier is one whose own condition holds, never the silent fallback. */
  lemma AcceptedLadderHasNoHoles(p: DegradationPolicy, signal: string, vals: Snapshot)
    requires Acceptable(p) && SingleSignal(p.tiers, signal) && IgnoredBoundsImpliedEverywhere(p.tiers, signal)
    requires signal in vals && ReachesLadder(p.tiers, signal, vals[signal])
    ensures var m := MatchIndex(LadderOf(p), vals);
      0 <= m < |p.tiers| && EvalCondition(p.tiers[m].when, vals)
  {
    ReachedReadingsAreCovered(p.tiers, signal, vals[signal]);
    CoveredMeansMatched(p.tiers, signal, vals);
    MatchFindsAMatchingTier(p, vals);
  }

  /** Exactly where an accepted ladder has holes: a reading that reaches the ladder always lies in the range of
      some tier, and it falls through to a tier whose condition is false if and only if the ignored bounds of
      every such tier reject it. */
  lemma HolesAreWhereIgnoredBoundsFail(p: DegradationPolicy, signal: string, vals: Snapshot)
    requires Acceptable(p) && SingleSignal(p.tiers, signal)
    requires signal in vals && ReachesLadder(p.tiers, signal, vals[signal])
    ensures exists i | 0 <= i < |p.tiers| :: SignalRanges(p.tiers, signal)[i].iv.Contains(vals[signal])
    ensures var m := MatchIndex(LadderOf(p), vals);
      && 0 <= m < |p.tiers|
      && (!EvalCondition(p.tiers[m].when, vals) <==>
            forall i | 0 <= i < |p.tiers| && SignalRanges(p.tiers, signal)[i].iv.Contains(vals[signal]) ::
              !IgnoredBoundsHold(p.tiers[i].when.comparisons[signal], vals[signal]))
  {
    assert p.tiers != [] && NoGaps(p.tiers);
    hide EvalCondition, Swept, DetectedGaps, StableSorted, Sorted, Acceptable, IgnoredBoundsHold, NoGaps;
    ReachedReadingsAreInARange(p.tiers, signal, vals[signal]);
    forall i | 0 <= i < |p.tiers|
      ensures var c := p.tiers[i].when.comparisons[signal];
        && (EvalCondition(p.tiers[i].when, vals) <==>
              SignalRanges(p.tiers, signal)[i].iv.Contains(vals[signal]) && IgnoredBoundsHold(c, vals[signal]))
    {
      EvaluationIsRangeAndIgnoredBounds(p.tiers, signal, i, vals);
    }
    hide SingleSignal, SignalRanges, ReachesLadder;
    FallbackExactlyWithoutMatch(p, vals);
  }

  lemma ReachedReadingsAreInARange(tiers: seq<Tier>, signal: string, v: real)
    requires SingleSignal(tiers, signal) && NoGaps(tiers) && ReachesLadder(tiers, signal, v)
    ensures exists i | 0 <= i < |tiers| :: SignalRanges(tiers, signal)[i].iv.Contains(v)
  {
    hide Swept, DetectedGaps, StableSorted, Sorted, NoGaps;
    ReachedReadingsAreCovered(tiers, signal, v);
    DetectorSweepsSignalRanges(tiers, signal);
    var ivs := SignalRanges(tiers, signal);
    var t :| t in StableSorted(ivs) && t.iv.Contains(v);
    var i :| 0 <= i < |ivs| && ivs[i] == t;
  }

  lemma FallbackExactlyWithoutMatch(p: DegradationPolicy, vals: Snapshot)
    requires p.tiers != []
    ensures var m := MatchIndex(LadderOf(p), vals);
      && 0 <= m < |p.tiers|
      && (EvalCondition(p.tiers[m].when, vals) <==> SomeTierMatches(p.tiers, vals))
  {
    hide EvalCondition;
    var tiers := LadderOf(p);
    MatchFromIsGreatest(tiers, |tiers|, vals);
    assert forall i | 0 <= i < |p.tiers| :: tiers[i].condition == p.tiers[i].when;
  }

  lemma EvaluationIsRangeAndIgnoredBounds(tiers: seq<Tier>, signal: string, i: nat, vals: Snapshot)
    requires SingleSignal(tiers, signal) && i < |tiers| && signal in vals
    ensures var c, iv := tiers[i].when.comparisons[signal], SignalRanges(tiers, signal)[i].iv;
      EvalCondition(tiers[i].when, vals) <==> iv.Contains(vals[signal]) && IgnoredBoundsHold(c, vals[signal])
  {
    var c := tiers[i].when.comparisons;
    RuntimeIsRangeAndIgnoredBounds(c[signal], vals[signal]);
    assert forall id :: id in c <==> id == signal;
  }

  lemma NoGapsMeansSilence(tiers: seq<Tier>)
    ensures NoGaps(tiers) <==> DetectedGaps(tiers) == []
  {
    if DetectedGaps(tiers) != [] { assert DetectedGaps(tiers)[0] in DetectedGaps(tiers); }
  }

  lemma ReachedReadingsAreCovered(tiers: seq<Tier>, signal: string, v: real)
    requires SingleSignal(tiers, signal) && NoGaps(tiers) && ReachesLadder(tiers, signal, v)
    ensures Covered(StableSorted(SignalRanges(tiers, signal)), v)
  {
    var ivs := SignalRanges(tiers, signal);
    DetectorSweepsSignalRanges(tiers, signal);
    var t :| t in ivs && (Less(t.iv.lo, Fin(v)) || t.iv.Contains(v));
    assert t in StableSorted(ivs);
    NoGapsMeansSilence(tiers);
    if Less(t.iv.lo, Fin(v)) { SilenceMeansCovered(StableSorted(ivs), v); }
  }

  /** Strictly inside a reported range, or anywhere in a reported top region. */
  predicate InReportedRegion(g: Gap, v: real) {
    || (g.RangeGap? && Less(g.from, Fin(v)) && Less(Fin(v), g.to))
    || (g.TopGap? && (Less(g.above, Fin(v)) || (g.above == Fin(v) && !g.open)))
  }

  lemma ReportedRegionsAreUncovered(tiers: seq<Tier>, signal: string, g: Gap, v: real)
    requires SingleSignal(tiers, signal) && g in DetectedGaps(tiers) && InReportedRegion(g, v)
    ensures !Covered(StableSorted(SignalRanges(tiers, signal)), v)
  {
    var sorted := StableSorted(SignalRanges(tiers, signal));
    DetectorSweepsSignalRanges(tiers, signal);
    if g.RangeGap? {
      ReportedRangesAreHoles(sorted, g, v);
    } else {
      ReportedTopIsAHole(sorted, g, v);
    }
  }

  lemma UncoveredMatchesNoTier(tiers: seq<Tier>, signal: string, vals: Snapshot)
    requires SingleSignal(tiers, signal) && signal in vals
    requires !Covered(StableSorted(SignalRanges(tiers, signal)), vals[signal])
    ensures !SomeTierMatches(tiers, vals)
  {
    var ivs := SignalRanges(tiers, signal);
    DetectorSweepsSignalRanges(tiers, signal);
    forall i | 0 <= i < |tiers| ensures !EvalCondition(tiers[i].when, vals) {
      RuntimeAgreesWithRange(tiers, signal, i, vals);
      assert ivs[i] in StableSorted(ivs);
    }
  }

  /** Reported holes are real, whatever the comparators: no tier's condition holds there, and the first tier
      is matched as a fallback. */
  lemma ReportedHolesAreReal(p: DegradationPolicy, signal: string, g: Gap, vals: Snapshot)
    requires SingleSignal(p.tiers, signal) && signal in vals && g in DetectedGaps(p.tiers)
    requires InReportedRegion(g, vals[signal])
    ensures !SomeTierMatches(p.tiers, vals)
    ensures MatchTier(LadderOf(p), vals) == p.tiers[0].name
  {
    ReportedRegionsAreUncovered(p.tiers, signal, g, vals[signal]);
    UncoveredMatchesNoTier(p.tiers, signal, vals);
    FallbackWithoutMatch(p, vals);
  }

  /** Some tier's range starts at b inclusively and is not empty, and its ignored bounds accept b. */
  ghost predicate SomeTierStartsAt(tiers: seq<Tier>, signal: string, b: real)
    requires SingleSignal(tiers, signal)
  {
    exists i | 0 <= i < |tiers| ::
      var iv := SignalRanges(tiers, signal)[i].iv;
      iv.lo == Fin(b) && iv.loIncl && !iv.IsEmpty() && IgnoredBoundsHold(tiers[i].when.comparisons[signal], b)
  }

  /** A reported single value is a real hole exactly when no tier's range starts there and accepts it; then the
      first tier is matched as a fallback. */
  lemma ReportedPointsAreHolesUnlessATierStartsThere(p: DegradationPolicy, signal: string, b: real, vals: Snapshot)
    requires SingleSignal(p.tiers, signal) && PointGap(Fin(b)) in DetectedGaps(p.tiers)
    requires signal in vals && vals[signal] == b
    ensures SomeTierMatches(p.tiers, vals) <==> SomeTierStartsAt(p.tiers, signal, b)
    ensures !SomeTierStartsAt(p.tiers, signal, b) ==> MatchTier(LadderOf(p), vals) == p.tiers[0].name
  {
    hide EvalCondition, Swept, DetectedGaps, StableSorted, Sorted, IgnoredBoundsHold;
    var ivs := SignalRanges(p.tiers, signal);
    DetectorSweepsSignalRanges(p.tiers, signal);
    ReportedPointsAreHolesUnlessTied(StableSorted(ivs), PointGap(Fin(b)));
    forall i | 0 <= i < |p.tiers|
      ensures var iv, c := ivs[i].iv, p.tiers[i].when.comparisons[signal];
        && (EvalCondition(p.tiers[i].when, vals) <==> iv.Contains(b) && IgnoredBoundsHold(c, b))
        && (iv.Contains(b) <==> iv.lo == Fin(b) && iv.loIncl && !iv.IsEmpty())
    {
      EvaluationIsRangeAndIgnoredBounds(p.tiers, signal, i, vals);
      assert ivs[i] in StableSorted(ivs);
    }
    if !SomeTierMatches(p.tiers, vals) { FallbackWithoutMatch(p, vals); }
  }

  /** The reading lies strictly above the lower bound of some tier. */
  ghost predicate AboveSomeBound(tiers: seq<Tier>, signal: string, v: real)
    requires SingleSignal(tiers, signal)
  {
    exists t :: t in SignalRanges(tiers, signal) && Less(t.iv.lo, Fin(v))
  }

  /** Every reading above a tier's lower bound matches some tier. */
  ghost predicate EveryReadingMatches(tiers: seq<Tier>, signal: string)
    requires SingleSignal(tiers, signal)
  {
    forall v: real | AboveSomeBound(tiers, signal, v) :: SomeTierMatches(tiers, map[signal := v])
  }

  lemma SortingKeepsTheRanges(tiers: seq<Tier>, signal: string, v: real)
    requires SingleSignal(tiers, signal)
    ensures AboveSomeBound(tiers, signal, v)
      <==> exists t :: t in StableSorted(SignalRanges(tiers, signal)) && Less(t.iv.lo, Fin(v))
  {
    DetectorSweepsSignalRanges(tiers, signal);
  }

  lemma SweptRangesAreNonEmpty(tiers: seq<Tier>, signal: string)
    requires SingleSignal(tiers, signal) && forall t | t in tiers :: !ContradictoryHere(t.when, signal)
    ensures NonEmptyRanges(StableSorted(SignalRanges(tiers, signal)))
  {
    SignalRangesAreNonEmpty(tiers, signal);
    DetectorSweepsSignalRanges(tiers, signal);
    hide StableSorted, Swept, SignalRanges, SingleSignal;
  }

  lemma SignalRangesAreNonEmpty(tiers: seq<Tier>, signal: string)
    requires SingleSignal(tiers, signal) && forall t | t in tiers :: !ContradictoryHere(t.when, signal)
    ensures NonEmptyRanges(SignalRanges(tiers, signal))
  {
    var ivs := SignalRanges(tiers, signal);
    forall i | 0 <= i < |ivs| ensures !ivs[i].iv.IsEmpty() && ivs[i].iv.lo != PosInf && ivs[i].iv.hi != NegInf {
      assert tiers[i] in tiers;
      RangeIsNotEmpty(tiers[i], signal);
    }
  }

  lemma RangeIsNotEmpty(t: Tier, signal: string)
    requires RangeOn(t, signal) && !ContradictoryHere(t.when, signal)
    ensures var iv := ComparatorToInterval(t.when.comparisons[signal]).value;
      !iv.IsEmpty() && iv.lo != PosInf && iv.hi != NegInf
  {
    assert signal in t.when.comparisons.Keys;
  }

  /** No reading is tied open in the ladder's ranges, read in the order the tiers are declared. */
  ghost predicate NoTiedReading(tiers: seq<Tier>, signal: string)
    requires SingleSignal(tiers, signal)
  {
    NoTiedPoint(SignalRanges(tiers, signal))
  }

  lemma SortingKeepsNoTies(ivs: seq<TierInterval>)
    ensures NoTiedPoint(StableSorted(ivs)) <==> NoTiedPoint(ivs)
  {
    hide TiedOpen;
    forall b ensures TiedOpen(StableSorted(ivs), b) <==> TiedOpen(ivs, b) { SortingKeepsTies(ivs, b); }
  }

  /** Every reading above a tier's lower bound lies in some tier's range. */
  ghost predicate EveryReadingInARange(tiers: seq<Tier>, signal: string)
    requires SingleSignal(tiers, signal)
  {
    forall v: real | AboveSomeBound(tiers, signal, v) :: Covered(SignalRanges(tiers, signal), v)
  }

  /** Whatever the comparators, on non-contradictory single-signal ladders the detector is silent if and only if
      every reading above a tier's lower bound lies in some range and no reading is tied open. */
  lemma DetectorIsExactOnRanges(tiers: seq<Tier>, signal: string)
    requires SingleSignal(tiers, signal)
    requires forall t | t in tiers :: !ContradictoryHere(t.when, signal)
    ensures NoGaps(tiers) <==> EveryReadingInARange(tiers, signal) && NoTiedReading(tiers, signal)
  {
    hide Covered, NoGaps, NoTiedPoint;
    NoGapsMeansSilence(tiers);
    var sorted := StableSorted(SignalRanges(tiers, signal));
    DetectorSweepsSignalRanges(tiers, signal);
    SweptRangesAreNonEmpty(tiers, signal);
    SortingKeepsNoTies(SignalRanges(tiers, signal));
    SweepIsExact(sorted);
    forall v: real
      ensures Covered(sorted, v) <==> Covered(SignalRanges(tiers, signal), v)
      ensures AboveSomeBound(tiers, signal, v) <==> exists t :: t in sorted && Less(t.iv.lo, Fin(v))
    {
      SortingKeepsCover(SignalRanges(tiers, signal), v);
      SortingKeepsTheRanges(tiers, signal, v);
    }
  }

  /** Completeness: whatever the comparators, every reading above a tier's lower bound that lies in no range lies in
      a diagnosed gap, read as it is printed. */
  lemma EveryHoleIsDiagnosed(p: DegradationPolicy, signal: string, v: real)
    requires SingleSignal(p.tiers, signal) && AboveSomeBound(p.tiers, signal, v)
    requires forall i | 0 <= i < |p.tiers| :: !SignalRanges(p.tiers, signal)[i].iv.Contains(v)
    ensures exists g :: Fault(p, Hole(g)) && Shows(g, v)
  {
    var ivs := SignalRanges(p.tiers, signal);
    var sorted := StableSorted(ivs);
    DetectorSweepsSignalRanges(p.tiers, signal);
    SortingKeepsTheRanges(p.tiers, signal, v);
    SortingKeepsCover(ivs, v);
    hide StableSorted, Swept, DetectedGaps, Shows, SignalRanges, ShapeFault, ReferenceFault;
    var t :| t in sorted && Less(t.iv.lo, Fin(v));
    var j :| 0 <= j < |sorted| && sorted[j] == t;
    assert !Less(sorted[j].iv.lo, sorted[0].iv.lo);
    EveryHoleIsReported(sorted, v);
    var g :| g in Swept(sorted) && Shows(g, v);
    assert Fault(p, Hole(g));
  }

  lemma HoleFault(p: DegradationPolicy, g: Gap)
    ensures Fault(p, Hole(g)) <==> g in DetectedGaps(p.tiers)
  {}

  /** Unless a tier's range starts at the reading inclusively, the reading is in a diagnosed gap if and only if it
      lies in no range. */
  lemma DiagnosisIsExact(p: DegradationPolicy, signal: string, v: real)
    requires SingleSignal(p.tiers, signal) && AboveSomeBound(p.tiers, signal, v)
    requires !StartsAt(SignalRanges(p.tiers, signal), Fin(v))
    ensures (exists g :: Fault(p, Hole(g)) && Shows(g, v)) <==> !Covered(SignalRanges(p.tiers, signal), v)
  {
    var ivs := SignalRanges(p.tiers, signal);
    var sorted := StableSorted(ivs);
    DetectorSweepsSignalRanges(p.tiers, signal);
    SortingKeepsCover(ivs, v);
    SameElements(ivs);
    forall g { HoleFault(p, g); }
    if !Covered(ivs, v) { EveryHoleIsDiagnosed(p, signal, v); }
    hide *;
    if g :| Fault(p, Hole(g)) && Shows(g, v) { ShownGapsAreHoles(sorted, g, v); }
  }

  lemma SortingKeepsCover(ivs: seq<TierInterval>, v: real)
    ensures Covered(StableSorted(ivs), v) <==> Covered(ivs, v)
  {
    SameElements(ivs);
    hide StableSorted;
  }

  /** When the ignored bounds are implied, that is: every reading above a tier's lower bound matches some tier,
      and no reading is tied open. */
  lemma DetectorIsExact(tiers: seq<Tier>, signal: string)
    requires SingleSignal(tiers, signal) && IgnoredBoundsImpliedEverywhere(tiers, signal)
    requires forall t | t in tiers :: !ContradictoryHere(t.when, signal)
    ensures NoGaps(tiers) <==> EveryReadingMatches(tiers, signal) && NoTiedReading(tiers, signal)
  {
    hide SomeTierMatches, Covered, NoGaps, NoTiedPoint, StableSorted;
    DetectorIsExactOnRanges(tiers, signal);
    forall v: real
      ensures Covered(SignalRanges(tiers, signal), v) <==> SomeTierMatches(tiers, map[signal := v])
    {
      SortingKeepsCover(SignalRanges(tiers, signal), v);
      CoveredMeansMatched(tiers, signal, map[signal := v]);
    }
  }

  // ----- where the conditions matter: concrete policies -----

  function Below(v: real): Comparator { Comparator(Some(v), None, None, None, None) }
  function Above(v: real): Comparator { Comparator(None, None, Some(v), None, None) }
  function From(v: real): Comparator { Comparator(None, None, None, Some(v), None) }

  function FlatTier(name: string, signal: string, c: Comparator): Tier {
    Tier(name, Condition(map[signal := c], [], []), Behavior("", [], None), None)
  }

  function SmallPolicy(signals: seq<string>, tiers: seq<Tier>): DegradationPolicy {
    DegradationPolicy("shop", signals, tiers, BlastRadius([], [], "", 0))
  }

  lemma FlatTierHolds(name: string, signal: string, c: Comparator, vals: Snapshot)
    ensures EvalCondition(FlatTier(name, signal, c).when, vals)
      <==> signal in vals && EvalComparator(vals[signal], c)
  {
    assert signal in FlatTier(name, signal, c).when.comparisons;
  }

  lemma FlatTierIsAcceptable(p: DegradationPolicy, name: string, signal: string, c: Comparator)
    requires name != "" && signal in p.signals
    requires ComparatorToInterval(c).Some? ==> !ComparatorToInterval(c).value.IsEmpty()
    ensures AcceptableTier(p, FlatTier(name, signal, c))
  {}

  lemma LowHighIsAcceptable(signals: seq<string>, a: string, b: string, c: Comparator, d: Comparator)
    requires var p := SmallPolicy(signals, [FlatTier("low", a, c), FlatTier("high", b, d)]);
      AcceptableTier(p, p.tiers[0]) && AcceptableTier(p, p.tiers[1]) && NoGaps(p.tiers)
    ensures Acceptable(SmallPolicy(signals, [FlatTier("low", a, c), FlatTier("high", b, d)]))
  {
    hide NoGaps, AcceptableTier;
    assert "low"[0] != "high"[0];
  }

  /** Two ranges that meet at b, exactly one of which includes it, are swept in silence. */
  lemma MeetingRangesAreSilent(low: string, high: string, b: real, below: bool)
    ensures var l := TierInterval(low, Interval(NegInf, Fin(b), false, below));
      var h := TierInterval(high, Interval(Fin(b), PosInf, !below, false));
      Swept(StableSorted([l, h])) == []
  {
    var l := TierInterval(low, Interval(NegInf, Fin(b), false, below));
    var h := TierInterval(high, Interval(Fin(b), PosInf, !below, false));
    TwoInOrder(l, h);
    hide StableSorted;
    assert CursorAfter([l, h], 1) == Cursor(Fin(b), below);
    assert GapsAfter([l, h], 2) == [];
  }

  lemma TwoInOrder(l: TierInterval, h: TierInterval)
    requires !Less(h.iv.lo, l.iv.lo)
    ensures StableSorted([l, h]) == [l, h]
  {
    assert [l, h][..1] == [l] && [l][..0] == [];
    assert StableSorted([l]) == [l];
  }

  const FROM_ZERO_ABOVE_TEN := Comparator(None, None, Some(10.0), Some(0.0), None)

  /** { lt: 0 } and { gte: 0, gt: 10 }. */
  function HoleyPolicy(signal: string): DegradationPolicy {
    SmallPolicy([signal], [FlatTier("low", signal, Below(0.0)), FlatTier("high", signal, FROM_ZERO_ABOVE_TEN)])
  }

  lemma HoleyRanges(signal: string)
    ensures SingleSignal(HoleyPolicy(signal).tiers, signal)
    ensures SignalRanges(HoleyPolicy(signal).tiers, signal) == [
              TierInterval("low", Interval(NegInf, Fin(0.0), false, false)),
              TierInterval("high", Interval(Fin(0.0), PosInf, true, false))]
  {}

  lemma HoleyPolicyIsAccepted(signal: string)
    ensures Acceptable(HoleyPolicy(signal))
  {
    var p := HoleyPolicy(signal);
    FlatTierIsAcceptable(p, "low", signal, Below(0.0));
    FlatTierIsAcceptable(p, "high", signal, FROM_ZERO_ABOVE_TEN);
    HoleyRanges(signal);
    DetectorSweepsSignalRanges(p.tiers, signal);
    MeetingRangesAreSilent("low", "high", 0.0, false);
    NoGapsMeansSilence(p.tiers);
    hide NoGaps, AcceptableTier, SignalRanges, DetectedGaps, StableSorted, Swept, Acceptable;
    LowHighIsAcceptable([signal], signal, signal, Below(0.0), FROM_ZERO_ABOVE_TEN);
  }

  /** When an ignored bound is not implied an accepted policy can have a hole: { gte: 0, gt: 10 } counts as
      covering 5, which no tier accepts, so the first tier is matched although its condition is false. */
  lemma SecondBoundsHideHoles(signal: string)
    ensures var p, vals := HoleyPolicy(signal), map[signal := 5.0];
      && Acceptable(p) && SingleSignal(p.tiers, signal) && ReachesLadder(p.tiers, signal, 5.0)
      && !IgnoredBoundsImplied(FROM_ZERO_ABOVE_TEN)
      && !SomeTierMatches(p.tiers, vals)
      && MatchTier(LadderOf(p), vals) == p.tiers[0].name
  {
    var p: DegradationPolicy, vals: Snapshot := HoleyPolicy(signal), map[signal := 5.0];
    HoleyPolicyIsAccepted(signal);
    HoleyRanges(signal);
    assert SignalRanges(p.tiers, signal)[1].iv.Contains(5.0);
    FlatTierHolds("low", signal, Below(0.0), vals);
    FlatTierHolds("high", signal, FROM_ZERO_ABOVE_TEN, vals);
    hide Acceptable, EvalCondition;
    FallbackWithoutMatch(p, vals);
  }

  lemma FallbackWithoutMatch(p: DegradationPolicy, vals: Snapshot)
    requires p.tiers != [] && !SomeTierMatches(p.tiers, vals)
    ensures MatchTier(LadderOf(p), vals) == p.tiers[0].name
  {
    var tiers := LadderOf(p);
    MatchFromIsGreatest(tiers, |tiers|, vals);
    assert !EvalCondition(p.tiers[MatchIndex(tiers, vals)].when, vals);
  }

  /** { lt: 5 }, { gt: 5 }, { gte: 5 }. */
  function TiedLadder(signal: string): seq<Tier> {
    [FlatTier("low", signal, Below(5.0)), FlatTier("mid", signal, Above(5.0)), FlatTier("high", signal, From(5.0))]
  }

  lemma TiedRanges(signal: string)
    ensures SingleSignal(TiedLadder(signal), signal)
    ensures SignalRanges(TiedLadder(signal), signal) == [
              TierInterval("low", Interval(NegInf, Fin(5.0), false, false)),
              TierInterval("mid", Interval(Fin(5.0), PosInf, false, false)),
              TierInterval("high", Interval(Fin(5.0), PosInf, true, false))]
  {}

  lemma ThreeAtBound(l: TierInterval, m: TierInterval, h: TierInterval, b: Bound)
    requires l.iv.lo != b && m.iv.lo == b && h.iv.lo == b
    ensures AtBound([l, m, h], b) == [m, h]
  {
    var none: seq<TierInterval> := [];
    assert none + [l] == [l] && [l] + [m] == [l, m] && [l, m] + [h] == [l, m, h];
    AtBoundOfAppend(none, l, b);
    AtBoundOfAppend([l], m, b);
    AtBoundOfAppend([l, m], h, b);
    assert AtBound(none, b) == none;
  }

  lemma TiedRangesAreReported(l: TierInterval, m: TierInterval, h: TierInterval)
    requires l.iv == Interval(NegInf, Fin(5.0), false, false)
    requires m.iv == Interval(Fin(5.0), PosInf, false, false) && h.iv == Interval(Fin(5.0), PosInf, true, false)
    ensures PointGap(Fin(5.0)) in Swept(StableSorted([l, m, h]))
  {
    hide AtBound, StableSorted, MeetsOpen, Swept;
    var ivs := [l, m, h];
    ThreeAtBound(l, m, h, Fin(5.0));
    assert l in ivs && h in ivs;
    assert TiedOpen(ivs, 5.0);
    hide TiedOpen;
    StableSortedSorts(ivs);
    SortingKeepsTies(ivs, 5.0);
    TiedMeansMeetingOpen(StableSorted(ivs), 5.0);
    PointsAreReportedWhereRangesMeetOpen(StableSorted(ivs), Fin(5.0));
  }

  /** A ladder with a tied point is reported, and so rejected, although every reading matches a tier. */
  lemma DisagreeingTiesAreRejected(signal: string, v: real)
    ensures SingleSignal(TiedLadder(signal), signal)
    ensures PointGap(Fin(5.0)) in DetectedGaps(TiedLadder(signal)) && !NoGaps(TiedLadder(signal))
    ensures SomeTierMatches(TiedLadder(signal), map[signal := v])
  {
    var tiers := TiedLadder(signal);
    var vals: Snapshot := map[signal := v];
    TiedRanges(signal);
    DetectorSweepsSignalRanges(tiers, signal);
    var ivs := SignalRanges(tiers, signal);
    TiedRangesAreReported(ivs[0], ivs[1], ivs[2]);
    assert ivs == [ivs[0], ivs[1], ivs[2]];
    FlatTierHolds("low", signal, Below(5.0), vals);
    FlatTierHolds("high", signal, From(5.0), vals);
    hide EvalCondition, DetectedGaps, SignalRanges;
    assert EvalCondition(tiers[0].when, vals) || EvalCondition(tiers[2].when, vals);
  }

  /** { "": lt 5 } and { signal: gte 5 }. */
  function MixedPolicy(signal: string): DegradationPolicy {
    SmallPolicy(["", signal], [FlatTier("low", "", Below(5.0)), FlatTier("high", signal, From(5.0))])
  }

  lemma MixedRanges(signal: string)
    ensures OnSignal(MixedPolicy(signal).tiers, 1, signal)
    ensures DetectedGaps(MixedPolicy(signal).tiers) == []
  {
    var tiers := MixedPolicy(signal).tiers;
    var l := TierInterval("low", Interval(NegInf, Fin(5.0), false, false));
    var h := TierInterval("high", Interval(Fin(5.0), PosInf, true, false));
    assert OnSignal(tiers, 1, signal);
    AnalysedTiersHaveRanges(tiers, 1, signal);
    forall other | RangeOn(tiers[0], other) ensures other == "" { RangeOnIsUnique(tiers[0], other, ""); }
    forall other | RangeOn(tiers[1], other) ensures other == signal { RangeOnIsUnique(tiers[1], other, signal); }
    assert RangeOf(tiers[0]) == l && RangeOf(tiers[1]) == h;
    assert Ranges(tiers) == [l, h];
    MeetingRangesAreSilent("low", "high", 5.0, false);
  }

  lemma MixedPolicyIsAccepted(signal: string)
    ensures Acceptable(MixedPolicy(signal))
  {
    var p := MixedPolicy(signal);
    FlatTierIsAcceptable(p, "low", "", Below(5.0));
    FlatTierIsAcceptable(p, "high", signal, From(5.0));
    hide NoGaps, AcceptableTier, DetectedGaps, Acceptable, OnSignal;
    MixedRanges(signal);
    NoGapsMeansSilence(p.tiers);
    LowHighIsAcceptable(["", signal], "", signal, Below(5.0), From(5.0));
  }

  /** An accepted ladder that starts on a signal called "" and goes on to another one can have a hole. */
  lemma MixedLaddersHideHoles(signal: string)
    requires signal != ""
    ensures var p, vals := MixedPolicy(signal), map["" := 7.0, signal := 3.0];
      && Acceptable(p) && !SomeTierMatches(p.tiers, vals)
      && MatchTier(LadderOf(p), vals) == p.tiers[0].name
  {
    var p: DegradationPolicy, vals: Snapshot := MixedPolicy(signal), map["" := 7.0, signal := 3.0];
    MixedPolicyIsAccepted(signal);
    FlatTierHolds("low", "", Below(5.0), vals);
    FlatTierHolds("high", signal, From(5.0), vals);
    hide Acceptable, EvalCondition;
    FallbackWithoutMatch(p, vals);
  }

  /** Every graph the compiler accepts makes the printer return from any node. */
  lemma AcceptedGraphsArePrintable(p: DegradationPolicy, m: string)
    requires Acceptable(p) && m in BlastGraphOf(p.service, p.blastRadius)
    ensures PrinterReturns(BlastGraphOf(p.service, p.blastRadius), m)
  {
    BlastGraphEdges(p.service, p.blastRadius);
    CyclicMeansSelfDependent(p);
    PrinterReturnsIffAcyclic(BlastGraphOf(p.service, p.blastRadius));
  }

  /** With any ranking as its measure, such as the finishing order of the compiler's cycle check, the printer
      names the service, its dependencies and what it cascades to. */
  lemma FinishingOrderPrintsTheStar(
      p: DegradationPolicy, rank: map<string, nat>, prefix: string, last: bool, n: string)
    requires var g := BlastGraphOf(p.service, p.blastRadius); Ranks(g, rank) && g.Keys <= rank.Keys
    ensures Prints(PrintGraph(BlastGraphOf(p.service, p.blastRadius), GraphRoot(p.service), prefix, last, rank), n)
      <==> n == GraphRoot(p.service) || n in Neighbours(p.blastRadius)
  {
    var g, root := BlastGraphOf(p.service, p.blastRadius), GraphRoot(p.service);
    BlastGraphEdges(p.service, p.blastRadius);
    PrinterNamesReachableNodes(g, root, prefix, last, rank, n);
    if Reaches(g, root, n) {
      var w :| Walk(g, w) && w[0] == root && w[|w| - 1] == n;
      if |w| > 1 { assert Hop(g, w, |w| - 2); }
    }
    ReachesItself(g, root);
    if n in Neighbours(p.blastRadius) { ReachesStep(g, root, root, n); }
  }

  /** The printed tree of a compiled bundle, with the compiler's finishing order as the printer's measure. */
  method PrintCompiled(p: DegradationPolicy) returns (lines: Option<seq<Line>>)
    ensures lines.Some? <==> Acceptable(p)
    ensures lines.Some? && p.service != "" ==>
              forall n :: Prints(lines.value, n) <==> n == p.service || n in Neighbours(p.blastRadius)
  {
    var bundle, diags, rank := Compile(p);
    if bundle.None? { return None; }
    lines := Some(PrintGraph(bundle.value.blastGraph, bundle.value.service, "", true, rank));
    if p.service != "" {
      forall n ensures Prints(lines.value, n) <==> n == p.service || n in Neighbours(p.blastRadius) {
        FinishingOrderPrintsTheStar(p, rank, "", true, n);
      }
    }
  }

  /** The printer starts from the service's name, the graph from "self" when that is empty: for an unnamed
      service one bare line is printed, whatever it depends on. */
  lemma UnnamedServicePrintsAlone(p: DegradationPolicy, rank: map<string, nat>)
    requires p.service == ""
    requires var g := BlastGraphOf(p.service, p.blastRadius); Ranks(g, rank) && g.Keys <= rank.Keys
    ensures |PrintGraph(BlastGraphOf(p.service, p.blastRadius), p.service, "", true, rank)| == 1
  {
    var g := BlastGraphOf(p.service, p.blastRadius);
    assert Children(g, "") == [];
    assert PrintChildren(g, "", 0, "    ", rank) == [];
  }
}
