/** The Kubernetes reconciler, run against an abstract cluster in place of the REST client. */
module Kubernetes {
  import opened Policy

  /** The value of a saved-bound annotation: a number, or text that does not parse as one. */
  datatype Saved = Number(v: int) | Garbage

  /** What the reconciler reads and writes: the Deployment, its saved-bound annotations (an absent and an
      empty annotation are the same to it), its HPA, and each node's unschedulable flag. */
  datatype Cluster = Cluster(
    replicas: int, paused: bool,
    savedMin: Option<Saved>, savedMax: Option<Saved>,
    hpaMin: Option<int>, hpaMax: int,
    nodes: map<string, bool>)

  /** Which API calls fail, without effect, during one reconciliation. */
  datatype Faults = Faults(
    getDeployment: bool, patchReplicas: bool, getHPA: bool, annotateMin: bool, annotateMax: bool,
    patchHPA: bool, patchPaused: bool, listNodes: bool, nodes: set<string>)

  datatype Config = Config(targetWarm: int, maxPods: int)

  datatype ReplicaAction = ReplicaAction(
    setReplicas: int, disableHPA: bool, blockRollouts: bool, blockScheduling: bool)

  function TierToReplicaAction(tier: string, currentReplicas: int, cfg: Config): ReplicaAction {
    match tier
    case "warm" =>
      ReplicaAction(if currentReplicas < cfg.targetWarm then cfg.targetWarm else currentReplicas, false, false, false)
    case "hot" => ReplicaAction(cfg.maxPods, true, false, false)
    case "critical" => ReplicaAction(currentReplicas, false, true, false)
    case "survival" => ReplicaAction(currentReplicas, false, true, true)
    case _ => ReplicaAction(0, false, false, false)
  }

  function GetOr(o: Option<int>, default: int): int {
    if o.Some? then o.value else default
  }

  /** Saves the current bounds unless a minimum is already saved, then pins the HPA. */
  function LockedHPA(c: Cluster, replicas: int, f: Faults): (c': Cluster)
    ensures c'.replicas == c.replicas && c'.paused == c.paused && c'.nodes == c.nodes
  {
    if f.getHPA then c else
    var first := c.savedMin.None?;
    var c1 := if first && !f.annotateMin then c.(savedMin := Some(Number(GetOr(c.hpaMin, 1)))) else c;
    var c2 := if first && !f.annotateMax then c1.(savedMax := Some(Number(c.hpaMax))) else c1;
    if f.patchHPA then c2 else c2.(hpaMin := Some(replicas), hpaMax := replicas)
  }

  /** Re-applies the saved bounds and clears the annotations. */
  function RestoredHPA(c: Cluster, f: Faults): (c': Cluster)
    ensures c'.replicas == c.replicas && c'.paused == c.paused && c'.nodes == c.nodes
  {
    match (c.savedMin, c.savedMax)
    case (Some(Number(min)), Some(Number(max))) =>
      if f.patchHPA then c else
      var c1 := c.(hpaMin := Some(min), hpaMax := max);
      var c2 := if f.annotateMin then c1 else c1.(savedMin := None);
      if f.annotateMax then c2 else c2.(savedMax := None)
    case _ => c
  }

  /** The cluster and the reconciler's own ledger of the nodes it cordoned. */
  datatype State = State(cluster: Cluster, cordoned: set<string>)

  function CordonedAll(s: State, f: Faults): State {
    if f.listNodes then s else
    var nodes := s.cluster.nodes;
    State(s.cluster.(nodes := map n | n in nodes :: nodes[n] || n !in f.nodes),
          s.cordoned + set n | n in nodes && !nodes[n] && n !in f.nodes)
  }

  function UncordonedOwned(s: State, f: Faults): State {
    var nodes := s.cluster.nodes;
    State(s.cluster.(nodes := map n | n in nodes :: nodes[n] && !(n in s.cordoned && n !in f.nodes)),
          set n | n in s.cordoned && (n in f.nodes || n !in nodes))
  }

  function CurrentReplicas(c: Cluster): int {
    if c.replicas == 0 then 1 else c.replicas
  }

  /** The reconciliation gets past the replica patch. */
  predicate ReachesHPA(cfg: Config, c: Cluster, tier: string, f: Faults) {
    var current := CurrentReplicas(c);
    var replicas := TierToReplicaAction(tier, current, cfg).setReplicas;
    !f.getDeployment && !(replicas > 0 && current != replicas && f.patchReplicas)
  }

  /** The Deployment and HPA after the first two steps. */
  function Scaled(cfg: Config, c: Cluster, tier: string, f: Faults): Cluster {
    var action := TierToReplicaAction(tier, CurrentReplicas(c), cfg);
    var c := if action.setReplicas > 0 && CurrentReplicas(c) != action.setReplicas
             then c.(replicas := action.setReplicas) else c;
    if action.disableHPA then LockedHPA(c, action.setReplicas, f)
    else if tier == "nominal" then RestoredHPA(c, f)
    else c
  }

  function Reconciled(cfg: Config, s: State, tier: string, f: Faults): (State, bool) {
    if !ReachesHPA(cfg, s.cluster, tier, f) then (s, false) else
    var action := TierToReplicaAction(tier, CurrentReplicas(s.cluster), cfg);
    var c := Scaled(cfg, s.cluster, tier, f);
    if c.paused != action.blockRollouts && f.patchPaused then (s.(cluster := c), false) else
    var s := s.(cluster := c.(paused := action.blockRollouts));
    (if action.blockScheduling then CordonedAll(s, f) else UncordonedOwned(s, f), true)
  }

  // ----- the reconciler over its client -----

  /** The REST client: every call either takes effect or, when it is among the faults, does nothing. */
  class Client {
    var c: Cluster
    var faults: Faults

    constructor (c: Cluster, faults: Faults)
      ensures this.c == c && this.faults == faults
    {
      this.c, this.faults := c, faults;
    }

    method PatchDeploymentReplicas(replicas: int) returns (ok: bool)
      modifies this`c
      ensures ok == !faults.patchReplicas
      ensures c == if ok then old(c).(replicas := replicas) else old(c)
    {
      ok := !faults.patchReplicas;
      if ok { c := c.(replicas := replicas); }
    }

    method PatchDeploymentPaused(paused: bool) returns (ok: bool)
      modifies this`c
      ensures ok == !faults.patchPaused
      ensures c == if ok then old(c).(paused := paused) else old(c)
    {
      ok := !faults.patchPaused;
      if ok { c := c.(paused := paused); }
    }

    method AnnotateMin(value: Option<Saved>)
      modifies this`c
      ensures c == if faults.annotateMin then old(c) else old(c).(savedMin := value)
    {
      if !faults.annotateMin { c := c.(savedMin := value); }
    }

    method AnnotateMax(value: Option<Saved>)
      modifies this`c
      ensures c == if faults.annotateMax then old(c) else old(c).(savedMax := value)
    {
      if !faults.annotateMax { c := c.(savedMax := value); }
    }

    method PatchHPABounds(min: int, max: int) returns (ok: bool)
      modifies this`c
      ensures ok == !faults.patchHPA
      ensures c == if ok then old(c).(hpaMin := Some(min), hpaMax := max) else old(c)
    {
      ok := !faults.patchHPA;
      if ok { c := c.(hpaMin := Some(min), hpaMax := max); }
    }

    method SetNodeUnschedulable(name: string, val: bool) returns (ok: bool)
      modifies this`c
      ensures ok == (name !in faults.nodes && name in old(c).nodes)
      ensures c == if ok then old(c).(nodes := old(c).nodes[name := val]) else old(c)
    {
      ok := name !in faults.nodes && name in c.nodes;
      if ok { c := c.(nodes := c.nodes[name := val]); }
    }
  }

  class Reconciler {
    const cfg: Config
    const client: Client
    var cordonedNodes: set<string>

    ghost function Fields(): State reads this, client {
      State(client.c, cordonedNodes)
    }

    constructor (cfg: Config, client: Client)
      ensures this.cfg == cfg && this.client == client && cordonedNodes == {}
    {
      this.cfg, this.client, cordonedNodes := cfg, client, {};
    }

    method LockHPA(deploy: Cluster, replicas: int)
      requires deploy.savedMin == client.c.savedMin
      modifies client`c
      ensures client.c == LockedHPA(old(client.c), replicas, client.faults)
    {
      if client.faults.getHPA { return; }
      var hpaMin, hpaMax := client.c.hpaMin, client.c.hpaMax;
      if deploy.savedMin.None? {
        var origMin := 1;
        if hpaMin.Some? { origMin := hpaMin.value; }
        client.AnnotateMin(Some(Number(origMin)));
        client.AnnotateMax(Some(Number(hpaMax)));
      }
      var _ := client.PatchHPABounds(replicas, replicas);
    }

    method RestoreHPA(deploy: Cluster)
      requires deploy.savedMin == client.c.savedMin && deploy.savedMax == client.c.savedMax
      modifies client`c
      ensures client.c == RestoredHPA(old(client.c), client.faults)
    {
      if deploy.savedMin.None? || deploy.savedMax.None? { return; }
      if deploy.savedMin.value.Garbage? || deploy.savedMax.value.Garbage? { return; }
      var ok := client.PatchHPABounds(deploy.savedMin.value.v, deploy.savedMax.value.v);
      if !ok { return; }
      client.AnnotateMin(None);
      client.AnnotateMax(None);
    }

    method CordonAll()
      modifies this`cordonedNodes, client`c
      ensures Fields() == CordonedAll(old(Fields()), client.faults)
    {
      if client.faults.listNodes { return; }
      var nodes := client.c.nodes;
      ghost var f := client.faults.nodes;
      var todo := nodes.Keys;
      while todo != {}
        invariant todo <= nodes.Keys
        invariant client.c == old(client.c).(nodes := client.c.nodes)
        invariant client.c.nodes == map n | n in nodes :: nodes[n] || (n !in f && n !in todo)
        invariant cordonedNodes == old(cordonedNodes) + set n | n in nodes && !nodes[n] && n !in f && n !in todo
      {
        var name :| name in todo;
        todo := todo - {name};
        if !nodes[name] {
          var ok := client.SetNodeUnschedulable(name, true);
          if ok { cordonedNodes := cordonedNodes + {name}; }
        }
      }
    }

    method UncordonOwned()
      modifies this`cordonedNodes, client`c
      ensures Fields() == UncordonedOwned(old(Fields()), client.faults)
    {
      var owned := cordonedNodes;
      ghost var nodes, f := client.c.nodes, client.faults.nodes;
      var todo := owned;
      while todo != {}
        invariant todo <= owned
        invariant client.c == old(client.c).(nodes := client.c.nodes)
        invariant client.c.nodes.Keys == nodes.Keys
        invariant forall n | n in nodes :: client.c.nodes[n] == (nodes[n] && !(n in owned && n !in f && n !in todo))
        invariant cordonedNodes == set n | n in owned && (n in todo || n in f || n !in nodes)
      {
        var name :| name in todo;
        todo := todo - {name};
        var ok := client.SetNodeUnschedulable(name, false);
        if ok { cordonedNodes := cordonedNodes - {name}; }
      }
    }

    method Reconcile(tier: string) returns (ok: bool)
      modifies this`cordonedNodes, client`c
      ensures (Fields(), ok) == Reconciled(cfg, old(Fields()), tier, client.faults)
    {
      hide CordonedAll, UncordonedOwned, LockedHPA, RestoredHPA;
      if client.faults.getDeployment { return false; }
      var deploy := client.c;
      var currentReplicas := deploy.replicas;
      if currentReplicas == 0 { currentReplicas := 1; }
      var action := TierToReplicaAction(tier, currentReplicas, cfg);
      if action.setReplicas > 0 && currentReplicas != action.setReplicas {
        ok := client.PatchDeploymentReplicas(action.setReplicas);
        if !ok { return false; }
      }
      if action.disableHPA {
        LockHPA(deploy, action.setReplicas);
      } else if tier == "nominal" {
        RestoreHPA(deploy);
      }
      assert client.c == Scaled(cfg, old(client.c), tier, client.faults);
      hide Scaled;
      if deploy.paused != action.blockRollouts {
        ok := client.PatchDeploymentPaused(action.blockRollouts);
        if !ok { return false; }
      }
      if action.blockScheduling {
        CordonAll();
      } else {
        UncordonOwned();
      }
      return true;
    }
  }

  // ----- runs -----

  datatype Call = Call(tier: string, faults: Faults)

  function Run(cfg: Config, s: State, calls: seq<Call>): State {
    if calls == [] then s
    else Reconciled(cfg, Run(cfg, s, calls[..|calls| - 1]), calls[|calls| - 1].tier, calls[|calls| - 1].faults).0
  }

  /** The HPA's bounds; an unset minimum counts as 1. */
  function Bounds(c: Cluster): (int, int) {
    (if c.hpaMin.Some? then c.hpaMin.value else 1, c.hpaMax)
  }

  const NO_FAULTS := Faults(false, false, false, false, false, false, false, false, {})

  predicate NoFaults(f: Faults) {
    f == NO_FAULTS
  }

  /** Whatever tiers come first, a nominal reconciliation ends with the original bounds, when no call fails. */
  ghost predicate Recoverable(cfg: Config, s: State, orig: (int, int)) {
    forall calls: seq<Call> | (forall call | call in calls :: NoFaults(call.faults)) ::
      Bounds(Run(cfg, s, calls + [Call("nominal", NO_FAULTS)]).cluster) == orig
  }

  predicate BothSaved(c: Cluster) {
    c.savedMin.Some? && c.savedMin.value.Number? && c.savedMax.Some? && c.savedMax.value.Number?
  }

  /** Nothing is saved and the HPA holds the original bounds, or the saved bounds are the originals, or, when
      pinning sets the original bounds anyway, saving is stuck and the HPA holds them. */
  predicate HPALedger(cfg: Config, c: Cluster, orig: (int, int)) {
    || (c.savedMin.None? && Bounds(c) == orig)
    || (c.savedMin == Some(Number(orig.0)) && c.savedMax == Some(Number(orig.1)))
    || (orig == (cfg.maxPods, cfg.maxPods) && c.savedMin.Some? && !BothSaved(c) && Bounds(c) == orig)
  }

  /** The failures that lose the originals: pinning without saving the minimum, saving the minimum beside a
      missing or stale maximum, or restoring and clearing only the maximum. When pinning sets the original
      bounds anyway, only the stale maximum loses them. */
  predicate LosesBounds(cfg: Config, c: Cluster, tier: string, f: Faults, orig: (int, int)) {
    var pinned := (cfg.maxPods, cfg.maxPods);
    && ReachesHPA(cfg, c, tier, f)
    && ((tier == "hot" && !f.getHPA && c.savedMin.None?
           && ((f.annotateMin && !f.patchHPA && orig != pinned)
               || (!f.annotateMin && f.annotateMax && c.savedMax != Some(Number(orig.1))
                     && (orig != pinned || (c.savedMax.Some? && c.savedMax.value.Number?)))))
        || (tier == "nominal" && c.savedMin.Some? && !f.patchHPA && f.annotateMin && !f.annotateMax
              && orig != pinned))
  }

  /** One reconciliation keeps the HPA ledger exactly when its failures do not lose the bounds. */
  lemma LedgerKeptUnlessBoundsLost(cfg: Config, s: State, tier: string, f: Faults, orig: (int, int))
    requires HPALedger(cfg, s.cluster, orig)
    ensures HPALedger(cfg, Reconciled(cfg, s, tier, f).0.cluster, orig)
      <==> !LosesBounds(cfg, s.cluster, tier, f, orig)
  {
    hide CordonedAll, UncordonedOwned;
    OnlyScalingTouchesHPA(cfg, s, tier, f);
    hide Reconciled;
    if ReachesHPA(cfg, s.cluster, tier, f) { ScalingKeepsLedger(cfg, s.cluster, tier, f, orig); }
  }

  lemma OnlyScalingTouchesHPA(cfg: Config, s: State, tier: string, f: Faults)
    ensures var c := if ReachesHPA(cfg, s.cluster, tier, f) then Scaled(cfg, s.cluster, tier, f) else s.cluster;
      var c' := Reconciled(cfg, s, tier, f).0.cluster;
      c'.savedMin == c.savedMin && c'.savedMax == c.savedMax && c'.hpaMin == c.hpaMin && c'.hpaMax == c.hpaMax
  {}

  lemma ScalingKeepsLedger(cfg: Config, c: Cluster, tier: string, f: Faults, orig: (int, int))
    requires HPALedger(cfg, c, orig) && ReachesHPA(cfg, c, tier, f)
    ensures HPALedger(cfg, Scaled(cfg, c, tier, f), orig) <==> !LosesBounds(cfg, c, tier, f, orig)
  {}

  /** After the first k calls the ledger holds. */
  predicate LedgerAfter(cfg: Config, s: State, calls: seq<Call>, k: nat, orig: (int, int))
    requires k <= |calls|
  {
    HPALedger(cfg, Run(cfg, s, calls[..k]).cluster, orig)
  }

  /** The call at k loses the bounds. */
  predicate CallLosesBounds(cfg: Config, s: State, calls: seq<Call>, k: nat, orig: (int, int))
    requires k < |calls|
  {
    LosesBounds(cfg, Run(cfg, s, calls[..k]).cluster, calls[k].tier, calls[k].faults, orig)
  }

  /** The ledger holds before and after every call of a run exactly when no call of the run loses the bounds. */
  lemma HPALedgerHolds(cfg: Config, s: State, calls: seq<Call>, orig: (int, int))
    requires HPALedger(cfg, s.cluster, orig)
    ensures (forall k | 0 <= k <= |calls| :: LedgerAfter(cfg, s, calls, k, orig))
      <==> (forall k | 0 <= k < |calls| :: !CallLosesBounds(cfg, s, calls, k, orig))
  {
    hide HPALedger, LosesBounds, Reconciled, Run;
    forall k | 0 <= k < |calls| && LedgerAfter(cfg, s, calls, k, orig)
      ensures LedgerAfter(cfg, s, calls, k + 1, orig) <==> !CallLosesBounds(cfg, s, calls, k, orig)
    {
      RunOfPrefix(cfg, s, calls, k);
      LedgerKeptUnlessBoundsLost(cfg, Run(cfg, s, calls[..k]), calls[k].tier, calls[k].faults, orig);
    }
    assert calls[..0] == [];
    RunOfNothing(cfg, s);
    assert LedgerAfter(cfg, s, calls, 0, orig);
    hide LedgerAfter, CallLosesBounds;
    if forall k | 0 <= k < |calls| :: !CallLosesBounds(cfg, s, calls, k, orig) {
      var n := 0;
      while n < |calls|
        invariant n <= |calls|
        invariant forall k | 0 <= k <= n :: LedgerAfter(cfg, s, calls, k, orig)
      {
        assert LedgerAfter(cfg, s, calls, n, orig);
        n := n + 1;
      }
    }
    if forall k | 0 <= k <= |calls| :: LedgerAfter(cfg, s, calls, k, orig) {
      forall k | 0 <= k < |calls| ensures !CallLosesBounds(cfg, s, calls, k, orig) {
        assert LedgerAfter(cfg, s, calls, k, orig) && LedgerAfter(cfg, s, calls, k + 1, orig);
      }
    }
  }

  lemma RunOfNothing(cfg: Config, s: State)
    ensures Run(cfg, s, []) == s
  {}

  lemma RunOfPrefix(cfg: Config, s: State, calls: seq<Call>, k: nat)
    requires k < |calls|
    ensures Run(cfg, s, calls[..k + 1]) == Reconciled(cfg, Run(cfg, s, calls[..k]), calls[k].tier, calls[k].faults).0
  {
    hide Reconciled;
    assert calls[..k + 1][..k] == calls[..k];
  }

  /** Calls that fail anywhere but in an annotation write keep the ledger: over any run whose annotation writes
      succeed, whatever else fails, it still holds at the end. */
  lemma {:induction false} OnlyAnnotationFaultsLoseBounds(cfg: Config, s: State, calls: seq<Call>, orig: (int, int))
    requires HPALedger(cfg, s.cluster, orig)
    requires forall call | call in calls :: !call.faults.annotateMin && !call.faults.annotateMax
    ensures HPALedger(cfg, Run(cfg, s, calls).cluster, orig)
  {
    if calls != [] {
      var last := calls[|calls| - 1];
      assert last in calls;
      OnlyAnnotationFaultsLoseBounds(cfg, s, calls[..|calls| - 1], orig);
      LedgerKeptUnlessBoundsLost(cfg, Run(cfg, s, calls[..|calls| - 1]), last.tier, last.faults, orig);
    }
  }

  lemma RunOfAppend(cfg: Config, s: State, calls: seq<Call>, call: Call)
    ensures Run(cfg, s, calls + [call]) == Reconciled(cfg, Run(cfg, s, calls), call.tier, call.faults).0
  {
    assert (calls + [call])[..|calls|] == calls;
  }

  /** From the ledger, a nominal reconciliation that gets its deployment and its HPA patch through ends with the
      original bounds. */
  lemma NominalRestores(cfg: Config, s: State, f: Faults, orig: (int, int))
    requires HPALedger(cfg, s.cluster, orig) && !f.getDeployment && !f.patchHPA
    ensures Bounds(Reconciled(cfg, s, "nominal", f).0.cluster) == orig
  {}

  /** So every nominal reconciliation that reaches the HPA ends with the original bounds, however often and in
      whatever order other tiers came between, as long as no call before it lost them. */
  lemma NominalRestoresBounds(cfg: Config, s: State, calls: seq<Call>, f: Faults, orig: (int, int))
    requires HPALedger(cfg, s.cluster, orig) && !f.getDeployment && !f.patchHPA
    requires forall k | 0 <= k < |calls| :: !CallLosesBounds(cfg, s, calls, k, orig)
    ensures Bounds(Run(cfg, s, calls + [Call("nominal", f)]).cluster) == orig
  {
    HPALedgerHolds(cfg, s, calls, orig);
    assert LedgerAfter(cfg, s, calls, |calls|, orig);
    assert calls[..|calls|] == calls;
    hide HPALedger, LosesBounds, Reconciled;
    NominalRestores(cfg, Run(cfg, s, calls), f, orig);
    RunOfAppend(cfg, s, calls, Call("nominal", f));
  }

  lemma TwoCleanCallsDecide(cfg: Config, s: State, orig: (int, int))
    requires Bounds(Reconciled(cfg, s, "nominal", NO_FAULTS).0.cluster) == orig
    requires var hot := Reconciled(cfg, s, "hot", NO_FAULTS).0;
      Bounds(Reconciled(cfg, hot, "nominal", NO_FAULTS).0.cluster) == orig
    ensures HPALedger(cfg, s.cluster, orig)
  {
    hide CordonedAll, UncordonedOwned;
    var hot := Reconciled(cfg, s, "hot", NO_FAULTS).0;
    OnlyScalingTouchesHPA(cfg, s, "hot", NO_FAULTS);
    OnlyScalingTouchesHPA(cfg, s, "nominal", NO_FAULTS);
    OnlyScalingTouchesHPA(cfg, hot, "nominal", NO_FAULTS);
    hide Reconciled;
  }

  /** What the ledger means: the original bounds can be recovered exactly when it holds. */
  lemma LedgerMeansRecoverable(cfg: Config, s: State, orig: (int, int))
    ensures HPALedger(cfg, s.cluster, orig) <==> Recoverable(cfg, s, orig)
  {
    hide HPALedger, Reconciled;
    if HPALedger(cfg, s.cluster, orig) {
      forall calls: seq<Call> | forall call | call in calls :: NoFaults(call.faults)
        ensures Bounds(Run(cfg, s, calls + [Call("nominal", NO_FAULTS)]).cluster) == orig
      {
        OnlyAnnotationFaultsLoseBounds(cfg, s, calls, orig);
        NominalRestores(cfg, Run(cfg, s, calls), NO_FAULTS, orig);
        RunOfAppend(cfg, s, calls, Call("nominal", NO_FAULTS));
      }
    }
    if Recoverable(cfg, s, orig) {
      var none: seq<Call>, hot := [], [Call("hot", NO_FAULTS)];
      assert Run(cfg, s, none) == s;
      assert none + hot == hot;
      RunOfAppend(cfg, s, none, Call("hot", NO_FAULTS));
      RunOfAppend(cfg, s, none, Call("nominal", NO_FAULTS));
      RunOfAppend(cfg, s, hot, Call("nominal", NO_FAULTS));
      assert forall call | call in none :: NoFaults(call.faults);
      assert forall call | call in hot :: NoFaults(call.faults);
      TwoCleanCallsDecide(cfg, s, orig);
    }
  }

  /** A reconciliation leaves the original bounds recoverable exactly when it does not lose them; once lost,
      some run of calls that all succeed ends a nominal reconciliation with other bounds. */
  lemma LosingBoundsIsUnrecoverable(cfg: Config, s: State, tier: string, f: Faults, orig: (int, int))
    requires Recoverable(cfg, s, orig)
    ensures Recoverable(cfg, Reconciled(cfg, s, tier, f).0, orig) <==> !LosesBounds(cfg, s.cluster, tier, f, orig)
  {
    hide HPALedger, Reconciled, LosesBounds, Recoverable;
    LedgerMeansRecoverable(cfg, s, orig);
    LedgerMeansRecoverable(cfg, Reconciled(cfg, s, tier, f).0, orig);
    LedgerKeptUnlessBoundsLost(cfg, s, tier, f, orig);
  }

  // ----- what one reconciliation does when only some calls fail -----

  /** The read of the Deployment fails, or a replica patch that is needed: warm raises the replicas to its target,
      hot sets the maximum, and a Deployment without replicas counts as one. */
  predicate AbortsFirst(cfg: Config, c: Cluster, tier: string, f: Faults) {
    var current := if c.replicas == 0 then 1 else c.replicas;
    || f.getDeployment
    || (f.patchReplicas && tier == "warm" && current < cfg.targetWarm && cfg.targetWarm > 0)
    || (f.patchReplicas && tier == "hot" && cfg.maxPods > 0 && current != cfg.maxPods)
  }

  /** The same, or a pause patch that is needed fails. */
  predicate Aborts(cfg: Config, c: Cluster, tier: string, f: Faults) {
    AbortsFirst(cfg, c, tier, f) || (f.patchPaused && c.paused != (tier == "critical" || tier == "survival"))
  }

  /** The verdict is exactly that no needed call on the Deployment failed; then the Deployment is paused as the tier
      asks, and otherwise neither the pause nor any node changes. A failing HPA, annotation, node list or node call
      does not fail the reconciliation. */
  lemma VerdictMeans(cfg: Config, s: State, tier: string, f: Faults)
    ensures var (s', ok) := Reconciled(cfg, s, tier, f);
      && (ok <==> !Aborts(cfg, s.cluster, tier, f))
      && (ok ==> (s'.cluster.paused <==> tier == "critical" || tier == "survival"))
      && (!ok ==> s'.cluster.paused == s.cluster.paused && s'.cluster.nodes == s.cluster.nodes
                  && s'.cordoned == s.cordoned)
  {
    hide CordonedAll, UncordonedOwned, LockedHPA, RestoredHPA;
    NodeCallsLeaveTheRest(s.(cluster := Scaled(cfg, s.cluster, tier, f).(paused := true)), f);
    NodeCallsLeaveTheRest(s.(cluster := Scaled(cfg, s.cluster, tier, f).(paused := false)), f);
  }

  /** The replicas are the tier's. */
  ghost predicate ReplicasCallByCall(cfg: Config, c: Cluster, tier: string, c': Cluster) {
    var current := if c.replicas == 0 then 1 else c.replicas;
    c'.replicas == if tier == "warm" && current < cfg.targetWarm && cfg.targetWarm > 0 then cfg.targetWarm
                   else if tier == "hot" && cfg.maxPods > 0 && current != cfg.maxPods then cfg.maxPods
                   else c.replicas
  }

  /** Hot saves each bound unless its own annotation write fails, only when no minimum is saved, and pins the HPA
      unless that patch fails; nominal re-applies two saved numbers unless that patch fails, and then clears each
      annotation whose own write succeeds; any other tier leaves the HPA alone. */
  ghost predicate HPACallByCall(cfg: Config, c: Cluster, tier: string, f: Faults, c': Cluster) {
    if tier == "hot" && !f.getHPA then
      && c'.savedMin == (if c.savedMin.None? && !f.annotateMin
                         then Some(Number(if c.hpaMin.Some? then c.hpaMin.value else 1)) else c.savedMin)
      && c'.savedMax == (if c.savedMin.None? && !f.annotateMax then Some(Number(c.hpaMax)) else c.savedMax)
      && (c'.hpaMin, c'.hpaMax) == (if f.patchHPA then (c.hpaMin, c.hpaMax) else (Some(cfg.maxPods), cfg.maxPods))
    else if tier == "nominal" && BothSaved(c) && !f.patchHPA then
      && (c'.hpaMin, c'.hpaMax) == (Some(c.savedMin.value.v), c.savedMax.value.v)
      && c'.savedMin == (if f.annotateMin then c.savedMin else None)
      && c'.savedMax == (if f.annotateMax then c.savedMax else None)
    else (c'.hpaMin, c'.hpaMax, c'.savedMin, c'.savedMax) == (c.hpaMin, c.hpaMax, c.savedMin, c.savedMax)
  }

  /** A call that fails before the HPA leaves everything alone; after it, each part follows its own calls. */
  lemma HPAFollowsItsOwnCalls(cfg: Config, s: State, tier: string, f: Faults)
    ensures var s' := Reconciled(cfg, s, tier, f).0;
      if AbortsFirst(cfg, s.cluster, tier, f) then s' == s
      else ReplicasCallByCall(cfg, s.cluster, tier, s'.cluster) && HPACallByCall(cfg, s.cluster, tier, f, s'.cluster)
  {
    assert AbortsFirst(cfg, s.cluster, tier, f) <==> !ReachesHPA(cfg, s.cluster, tier, f);
    OnlyScalingTouchesHPA(cfg, s, tier, f);
    hide HPACallByCall, ReplicasCallByCall, AbortsFirst, ReachesHPA, CordonedAll, UncordonedOwned, Scaled;
    hide TierToReplicaAction;
    if !AbortsFirst(cfg, s.cluster, tier, f) {
      var c, c' := Scaled(cfg, s.cluster, tier, f), Reconciled(cfg, s, tier, f).0.cluster;
      NodeCallsLeaveTheRest(s.(cluster := c.(paused := true)), f);
      NodeCallsLeaveTheRest(s.(cluster := c.(paused := false)), f);
      ReplicasFollow(cfg, s.cluster, tier, f, c');
      HPAFollows(cfg, s.cluster, tier, f, c');
    }
  }

  lemma ReplicasFollow(cfg: Config, c: Cluster, tier: string, f: Faults, c': Cluster)
    requires c'.replicas == Scaled(cfg, c, tier, f).replicas
    ensures ReplicasCallByCall(cfg, c, tier, c')
  {
    hide LockedHPA, RestoredHPA;
  }

  lemma HPAFollows(cfg: Config, c: Cluster, tier: string, f: Faults, c': Cluster)
    requires var d := Scaled(cfg, c, tier, f);
      (c'.hpaMin, c'.hpaMax, c'.savedMin, c'.savedMax) == (d.hpaMin, d.hpaMax, d.savedMin, d.savedMax)
    ensures HPACallByCall(cfg, c, tier, f, c')
  {}

  lemma NodeCallsLeaveTheRest(s: State, f: Faults)
    ensures CordonedAll(s, f).cluster == s.cluster.(nodes := CordonedAll(s, f).cluster.nodes)
    ensures UncordonedOwned(s, f).cluster == s.cluster.(nodes := UncordonedOwned(s, f).cluster.nodes)
  {}

  /** Node by node, whatever happens to the others: in survival a node ends cordoned, and newly recorded, exactly
      when the list and its own call succeed; in any other tier a recorded node is freed and forgotten exactly when
      its own call succeeds, and no other node changes. */
  lemma NodesFollowTheirOwnCalls(cfg: Config, s: State, tier: string, f: Faults, n: string)
    requires !Aborts(cfg, s.cluster, tier, f) && n in s.cluster.nodes
    ensures var s' := Reconciled(cfg, s, tier, f).0;
      var was, owned := s.cluster.nodes[n], n in s.cordoned;
      && n in s'.cluster.nodes
      && (tier == "survival" ==>
            && (s'.cluster.nodes[n] <==> was || (!f.listNodes && n !in f.nodes))
            && (n in s'.cordoned <==> owned || (!was && !f.listNodes && n !in f.nodes)))
      && (tier != "survival" ==>
            && (s'.cluster.nodes[n] <==> was && !(owned && n !in f.nodes))
            && (n in s'.cordoned <==> owned && n in f.nodes))
  {
    hide LockedHPA, RestoredHPA;
    VerdictMeans(cfg, s, tier, f);
    assert Scaled(cfg, s.cluster, tier, f).nodes == s.cluster.nodes;
  }

  function Unschedulable(c: Cluster): set<string> {
    set n | n in c.nodes && c.nodes[n]
  }

  /** The unschedulable nodes are those cordoned beforehand and, apart from them, those in the ledger. */
  predicate CordonLedger(s: State, before: set<string>) {
    Unschedulable(s.cluster) == before + s.cordoned && before !! s.cordoned
  }

  lemma CordonStep(cfg: Config, s: State, tier: string, f: Faults, before: set<string>)
    requires CordonLedger(s, before)
    ensures CordonLedger(Reconciled(cfg, s, tier, f).0, before)
    ensures Reconciled(cfg, s, tier, f).0.cluster.nodes.Keys == s.cluster.nodes.Keys
  {
    assert Scaled(cfg, s.cluster, tier, f).nodes == s.cluster.nodes;
    forall n | n in s.cordoned ensures n in s.cluster.nodes && n !in before {
      assert n in Unschedulable(s.cluster);
    }
    var s' := Reconciled(cfg, s, tier, f).0;
    forall n ensures n in Unschedulable(s'.cluster) <==> n in before + s'.cordoned {
      assert n in Unschedulable(s.cluster) <==> n in before + s.cordoned;
    }
  }

  /** The cordon ledger: over any calls with any node faults, the reconciler owns exactly the nodes it
      cordoned, and nodes cordoned beforehand stay cordoned. */
  lemma {:induction false} CordonLedgerHolds(cfg: Config, s: State, calls: seq<Call>)
    requires s.cordoned == {}
    ensures CordonLedger(Run(cfg, s, calls), Unschedulable(s.cluster))
    ensures Unschedulable(s.cluster) <= Unschedulable(Run(cfg, s, calls).cluster)
    ensures Run(cfg, s, calls).cluster.nodes.Keys == s.cluster.nodes.Keys
  {
    if calls != [] {
      var last := calls[|calls| - 1];
      CordonLedgerHolds(cfg, s, calls[..|calls| - 1]);
      CordonStep(cfg, Run(cfg, s, calls[..|calls| - 1]), last.tier, last.faults, Unschedulable(s.cluster));
    }
  }

  /** What a reconciliation whose calls all succeed leaves behind, tier by tier. */
  lemma CleanReconcileEffects(cfg: Config, s: State, tier: string, f: Faults)
    requires NoFaults(f)
    ensures var (s', ok) := Reconciled(cfg, s, tier, f);
      var c, c' := s.cluster, s'.cluster;
      && ok
      && (c'.paused <==> tier in {"critical", "survival"})
      && (tier == "warm" && c.replicas > 0 ==>
            c'.replicas == if c.replicas < cfg.targetWarm then cfg.targetWarm else c.replicas)
      && (tier == "warm" ==> c'.replicas >= cfg.targetWarm || cfg.targetWarm <= 1)
      && (tier == "hot" && cfg.maxPods > 0 ==> CurrentReplicas(c') == cfg.maxPods)
      && (tier == "hot" ==> c'.hpaMin == Some(cfg.maxPods) && c'.hpaMax == cfg.maxPods)
      && (tier !in {"warm", "hot"} && c.replicas >= 0 ==> c'.replicas == c.replicas)
      && (tier == "hot" ==>
            if c.savedMin.None?
            then c'.savedMin == Some(Number(if c.hpaMin.Some? then c.hpaMin.value else 1))
              && c'.savedMax == Some(Number(c.hpaMax))
            else c'.savedMin == c.savedMin && c'.savedMax == c.savedMax)
      && (tier == "nominal" ==>
            if BothSaved(c)
            then c'.hpaMin == Some(c.savedMin.value.v) && c'.hpaMax == c.savedMax.value.v
              && c'.savedMin == None && c'.savedMax == None
            else (c'.hpaMin, c'.hpaMax, c'.savedMin, c'.savedMax) == (c.hpaMin, c.hpaMax, c.savedMin, c.savedMax))
      && (tier !in {"hot", "nominal"} ==>
            (c'.hpaMin, c'.hpaMax, c'.savedMin, c'.savedMax) == (c.hpaMin, c.hpaMax, c.savedMin, c.savedMax))
  {}

  /** Reconciling the same tier again, with every call succeeding, changes nothing. */
  lemma CleanReconcileIsIdempotent(cfg: Config, s: State, tier: string, f: Faults)
    requires NoFaults(f)
    ensures var s' := Reconciled(cfg, s, tier, f).0; Reconciled(cfg, s', tier, f).0 == s'
  {
    var action := TierToReplicaAction(tier, CurrentReplicas(s.cluster), cfg);
    var s1 := s.(cluster := Scaled(cfg, s.cluster, tier, f).(paused := action.blockRollouts));
    ScaledTwice(cfg, s.cluster, Reconciled(cfg, s, tier, f).0.cluster, tier, f);
    NodesTwice(s1, f);
  }

  lemma ScaledTwice(cfg: Config, c: Cluster, c': Cluster, tier: string, f: Faults)
    requires NoFaults(f) && c' == Scaled(cfg, c, tier, f).(paused := c'.paused, nodes := c'.nodes)
    ensures Scaled(cfg, c', tier, f) == c'
    ensures TierToReplicaAction(tier, CurrentReplicas(c'), cfg).blockRollouts
         == TierToReplicaAction(tier, CurrentReplicas(c), cfg).blockRollouts
  {}

  lemma NodesTwice(s: State, f: Faults)
    requires NoFaults(f)
    ensures CordonedAll(CordonedAll(s, f), f) == CordonedAll(s, f)
    ensures UncordonedOwned(UncordonedOwned(s, f), f) == UncordonedOwned(s, f)
  {
    var c, v := CordonedAll(s, f), UncordonedOwned(s, f);
    assert CordonedAll(c, f).cordoned == c.cordoned && CordonedAll(c, f).cluster.nodes == c.cluster.nodes;
    assert UncordonedOwned(v, f).cordoned == v.cordoned && UncordonedOwned(v, f).cluster.nodes == v.cluster.nodes;
  }

  /** A reconciliation whose calls all succeed restores the original set, or cordons everything in survival. */
  lemma CleanReconcileSettlesNodes(cfg: Config, s: State, calls: seq<Call>, tier: string, f: Faults)
    requires s.cordoned == {} && NoFaults(f)
    ensures var s' := Run(cfg, s, calls + [Call(tier, f)]);
      if tier == "survival" then Unschedulable(s'.cluster) == s.cluster.nodes.Keys
      else Unschedulable(s'.cluster) == Unschedulable(s.cluster) && s'.cordoned == {}
  {
    CordonLedgerHolds(cfg, s, calls);
    CordonLedgerHolds(cfg, s, calls + [Call(tier, f)]);
    var all := calls + [Call(tier, f)];
    assert all[..|all| - 1] == calls;
    var m := Run(cfg, s, calls);
    forall n | n in m.cordoned ensures n in m.cluster.nodes { assert n in Unschedulable(m.cluster); }
    assert Scaled(cfg, m.cluster, tier, f).nodes == m.cluster.nodes;
  }
}
