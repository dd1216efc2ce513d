# Degradation contracts: a verified model of the decision core

This project models the decision core of IDDC (Intent-Driven Degradation Contracts) in Dafny and proves what
holds of it for every policy, every input and every run. A degradation policy is checked by the compiler,
evaluated over time with hysteresis, and enforced through a human-gate protocol that drives feature flags, a
write queue and a Kubernetes deployment.

- `Policy`, `Ladder`: policy values, lookup by name, condition semantics, tier matching.
- `Intervals`, `TierGaps`, `Validator`, `Graphs`, `Compiler`: stages 2 and 3 of the compiler, the exact set of
  policies it accepts, the tier-gap sweep compared with run-time matching, cycle detection, reachability and the
  tree printer.
- `Evaluator`, `EvaluatorRuns`: the evaluator class and its whole runs.
- `WriteQueue`, `QueueRuns`: the queue over its backing array, compared with a queue that expires eagerly.
- `Sidecar`, `Enforcer`, `Protocol`, `ProtocolRuns`: the enforcer with its collaborators, the composed system as
  a step protocol, its joint invariant and gate safety. `EndToEnd` joins compile time and run time.
- `HumanGates`: the gate's own protocol; `GatedRuns` joins it to the system. `Kubernetes`: the reconciler over an
  abstract cluster with failing calls.
- `Scenario`: the generator of signal values for a tier.

Code that changes state is a class or a loop whose contract equals a function on plain state values; the
properties are lemmas about those functions and about whole runs. A run is a sequence of steps with the state
before and after each. `dafny verify dfyconfig.toml` checks everything.

Modelling choices. Thresholds and readings are reals; a missing bound is an explicit infinity. Instants and
durations are unbounded integers of nanoseconds and every clock reading is a parameter (two for `Enqueue`, which
reads the clock twice). Each mutex section is one atomic step. Go map iteration is an arbitrary choice of the
next key. Diagnostics carry their category and subject instead of message text. In the composed system a gate is
reported superseded only when it is no longer the live one; `GatedRuns` derives this from the gate's own protocol,
given that the enforcer cancels a gate's context in no other step than a confirmed tick or an override.

What the proofs found, where the code and its documentation differ or a promise needs a condition:

- A comparator's range ignores a strict bound beside a non-strict one on the same side, and every bound beside an
  eq. It is exact if and only if it is empty or the ignored bounds are implied
  (`RangeIsExactIffIgnoredBoundsImplied`); otherwise an accepted policy can have a hole (`SecondBoundsHideHoles`),
  exactly where the ignored bounds fail (`HolesAreWhereIgnoredBoundsFail`).
- The tier-gap detector is silent if and only if the ranges cover everything above the lowest bound and no value is
  tied open: the first declared range that starts there excludes it, another includes it, and the ranges from
  below end there without it (`SweepIsExact`). A fully covered ladder with such a value is rejected
  (`DisagreeingTiesAreRejected`).
- The detector takes "" for "no signal seen yet", so a ladder that starts on a signal called "" may mix signals
  and be accepted with a hole (`MixedLaddersHideHoles`).
- The blast graph is a star, so the only cycle ever reported is a service that names itself.
- The printer starts at the service's name while the graph's root is "self" for an unnamed service; such a graph
  prints as one bare line.
- A lone `gt` on a negative threshold, and some comparators with two bounds on a side, get a scenario value that
  does not satisfy them (`PickValueIsExact`); an accepted tier can be left without a scenario
  (`AcceptedTierWithoutScenario`).
- The original HPA bounds stay recoverable unless annotation writes fail in one of the patterns of `LosesBounds`;
  after such a failure some run in which every call succeeds ends a nominal reconciliation with other bounds.
- The queue's drop count lags behind eager expiry after an Enqueue between whose clock readings a write expires.
- Agreement between evaluator and enforcer needs a confirmed tick and its handling to be one step: a transition
  handled late keeps it exactly when it still names the evaluator's tier, a dropped one never does.

## Model

| member | source | states |
|---|---|---|
| `EndToEnd.NoMoveByFallback` | pkg/enforcement/enforcer/enforcer.go:117-161 | on an accepted single-signal ladder whose ignored bounds are implied every change of the applied tier that nobody chose was earned by a hysteresis window of ticks at each of which, wherever the reading lies in the ladder, the new tier's own condition held; nothing was confirmed or forced between that window and the change |
| `EndToEnd.MatchedInLadderHoldsItself` | pkg/runtime/evaluator.go:166-183 | on such a ladder the matched tier's own condition holds wherever the reading reaches the ladder |
| `EndToEnd.DeclaredGatesAreAsked` | pkg/enforcement/enforcer/enforcer.go:127-131 | over a compiled policy a tier with a declared human gate is only entered from below by an override of it or a decision of the open gate |
| `EndToEnd.DeclaredGatesHold` | pkg/enforcement/enforcer/enforcer.go:117-132 | over a compiled policy a confirmed move up is held behind a gate of the spec the policy declares for the tier, and applied at once when it declares none |
| `EndToEnd.DeclaredBehaviourIsServed` | pkg/enforcement/enforcer/enforcer.go:274-310 | over a compiled policy mode, flags and buffering are in every reachable state those the policy declares for the applied tier |
| `EndToEnd.DeclaredQueuesBuffer` | cmd/dg-engine/control.go:535-548 | over a compiled policy a write is buffered if and only if the policy declares a queue for the applied tier and fewer writes than the maximum are live |
| `EndToEnd.AcceptedTierWithoutScenario` | cmd/dg-engine/control.go:332-400 | an accepted policy whose second tier holds at 0 and for which the generator returns nothing |
| `Ladder.Index` | pkg/runtime/evaluator.go:186-193 | the first tier with the name, or -1 exactly when there is none |
| `Ladder.IndexInvertsNames` | pkg/enforcement/enforcer/enforcer.go:323-330 | on a compiled ladder lookup by name and the tier list invert each other; the empty name is never found |
| `Ladder.MatchFromIsGreatest` | pkg/runtime/evaluator.go:174-182 | the walk from the top returns the greatest matching index; index 0 without a match means nothing matched |
| `Ladder.MatchTierIsMostDegraded` | pkg/runtime/evaluator.go:166-183 | the most degraded matching tier wins, and the matched tier's condition holds if and only if some tier's does |
| `Ladder.LowerBoundsAreMonotone` | pkg/runtime/evaluator.go:196-249 | a condition tree with only gte/gt stays true when signals rise |
| `Ladder.SeverityIsNeverShadowed` | pkg/runtime/evaluator.go:166-183 | once a gte/gt-only tier k matches, raising any signals keeps the match at k or above, whatever the other tiers say |
| `Ladder.OnlyMentionedSignalsMatter` | pkg/runtime/evaluator.go:196-230 | a condition has the same value on snapshots that agree on the signals it mentions |
| `Ladder.UndeclaredSignalsDoNotMatter` | pkg/runtime/evaluator.go:173-183 | the match of a whole ladder is the same on snapshots that agree on every signal its conditions mention |
| `Ladder.MentionedMeansCompared` | pkg/compiler/validator.go:135-147 | a signal is mentioned if and only if some node anywhere in the tree compares it |
| `Evaluator.TierEvaluator.constructor` | pkg/runtime/evaluator.go:43-53 | starts at the first tier with no candidate and no lock |
| `Evaluator.TierEvaluator.LockTier` | pkg/runtime/evaluator.go:58-71 | pins a declared tier and clears the candidate; refuses an unknown tier and changes nothing |
| `Evaluator.TierEvaluator.Unlock` | pkg/runtime/evaluator.go:74-79 | drops the lock and leaves the current tier and the candidate alone |
| `Evaluator.TierEvaluator.LockState` | pkg/runtime/evaluator.go:82-89 | reports the lock if and only if one is held and the clock is before its expiry |
| `Evaluator.TierEvaluator.Evaluate` | pkg/runtime/evaluator.go:94-152 | new fields and verdict are those of the evaluation function that the run lemmas below are about |
| `EvaluatorRuns.CurrentIsDeclared` | pkg/runtime/evaluator.go:117-149 | in every run the current tier is declared and its remembered index is its position |
| `EvaluatorRuns.RunsAreExecutions` | pkg/runtime/evaluator.go:43-152 | every sequence of operations at non-decreasing times has exactly one run |
| `EvaluatorRuns.LocksHold` | pkg/runtime/evaluator.go:100-103 | until a lock expires, is replaced or is released nothing moves the evaluator off the locked tier and no tick reports a change; refused locks may come between |
| `EvaluatorRuns.LocksEnd` | pkg/runtime/evaluator.go:100-106 | the first tick at or after the expiry of a lock is evaluated as if nothing had been locked: it stays, confirms at once without hysteresis, or begins a window |
| `EvaluatorRuns.CandidateHasWindow` | pkg/runtime/evaluator.go:121-135 | a pending candidate has an unbroken window of matching, unlocked ticks behind it, begun at its start time from the unchanged current tier |
| `EvaluatorRuns.ConfirmedMovesHadTheirWindow` | pkg/runtime/evaluator.go:137-149 | hysteresis: a confirmed move to T at t has behind it an unbroken run of unlocked ticks matching T that began at least the hysteresis of its direction before t |
| `EvaluatorRuns.TransitionBudget` | pkg/runtime/evaluator.go:117-151 | upward moves times up-hysteresis plus downward moves times down-hysteresis never exceed the elapsed time of the run |
| `EvaluatorRuns.BudgetSoFar` | pkg/runtime/evaluator.go:121-149 | the same for every prefix, measured up to the start of the pending window |
| `EvaluatorRuns.Convergence` | pkg/runtime/evaluator.go:94-152 | when from some tick on every tick matches T and nothing locks, releases and refused locks allowed, T is current from the first tick that comes the hysteresis of its own direction later on, and no later tick reports a change |
| `Intervals.IntervalAgreesWithRuntime` | pkg/compiler/validator.go:228-249 | the compiled range contains every value the runtime accepts, and no other when the bounds it ignores are implied |
| `Intervals.OnlyBoundlessHaveNoRange` | pkg/compiler/validator.go:228-249 | every comparator with a bound describes a range |
| `Intervals.RangeIsExactIffIgnoredBoundsImplied` | pkg/compiler/validator.go:228-249 | the range of a comparator is what the runtime accepts if and only if it is empty or the bounds it ignores are implied |
| `Intervals.RuntimeIsRangeAndIgnoredBounds` | pkg/runtime/evaluator.go:232-249 | value by value the runtime accepts exactly what lies in the range and passes the ignored bounds |
| `Intervals.EmptyRangeMeansUnsatisfiable` | pkg/compiler/validator.go:114-132 | the contradiction check only fires on unsatisfiable comparators, and on all of them when the ignored bounds are implied |
| `TierGaps.StableSortedSorts` | pkg/compiler/validator.go:268-270 | the sort orders by lower bound, is a permutation, and keeps the order of equal bounds |
| `TierGaps.SortIntervals` | pkg/compiler/validator.go:268-270 | the in-place sort leaves the slice as that sorted sequence |
| `TierGaps.Sweep` | pkg/compiler/validator.go:201-223 | the loop reports what the sweep function reports |
| `TierGaps.CursorIsTheSupremum` | pkg/compiler/validator.go:201-215 | the cursor is the greatest upper bound seen, inclusive exactly when some range includes it |
| `TierGaps.SilenceMeansCovered` | pkg/compiler/validator.go:201-223 | if nothing is reported, every value strictly above a lower bound is in some range, whatever the ranges |
| `TierGaps.ReportedRangesAreHoles` | pkg/compiler/validator.go:206-208 | nothing strictly inside a reported range is covered, nor its lower end when printed closed |
| `TierGaps.ReportedTopIsAHole` | pkg/compiler/validator.go:216-222 | nothing in a reported top region is covered |
| `TierGaps.ReportedPointsAreHolesUnlessTied` | pkg/compiler/validator.go:209-210 | a reported single value is uncovered if and only if no non-empty range starts at it inclusively |
| `TierGaps.ReportedUpperEnds` | pkg/compiler/validator.go:206-208 | a reported range printed open at its upper end meets a range there; the upper end itself is uncovered if and only if no non-empty range starts at it inclusively |
| `TierGaps.CoveredPointsAreReportedExactly` | pkg/compiler/validator.go:209-215 | a covered single value is reported if and only if, in sorted order, a range that excludes it meets the earlier ranges open there and some non-empty range starts at it inclusively |
| `TierGaps.TiedOpenIsExact` | pkg/compiler/validator.go:201-215 | the same condition for non-empty ranges, read off the order the ranges are in: the first to start there excludes the value, another includes it, and those from below end there but exclude it |
| `TierGaps.SweepIsExact` | pkg/compiler/validator.go:194-224 | for sorted non-empty ranges nothing is reported if and only if everything above the lowest bound is covered and no value is tied open |
| `TierGaps.EveryHoleIsReported` | pkg/compiler/validator.go:201-223 | whatever the ranges, every uncovered value above the lowest bound lies in some reported gap, read with its printed open and closed ends |
| `TierGaps.ReportIsExact` | pkg/compiler/validator.go:194-224 | unless a non-empty range starts at a value inclusively, the value lies in a reported gap, read with its printed ends, if and only if no range covers it |
| `Validator.EmptyRanges` | pkg/compiler/validator.go:114-132 | returns exactly the signals with an empty range anywhere in the tree, whatever the map order |
| `Validator.ContradictoryMeansEmptyRange` | pkg/compiler/validator.go:114-132 | a signal is contradictory if and only if some node anywhere in the tree compares it with bounds that leave no value |
| `Validator.CollectSignalRefs` | pkg/compiler/validator.go:135-147 | returns exactly the signals mentioned anywhere in the tree |
| `Validator.DetectTierGaps` | pkg/compiler/validator.go:170-224 | reports the sweep of the sorted ranges for exactly the ladders it analyses, nothing otherwise |
| `Validator.ValidateTierShape` | pkg/compiler/validator.go:79-110 | reports exactly the naming, mode, gate and range faults of the tier, given the names seen before |
| `Validator.CheckShapes` | pkg/compiler/validator.go:31-34 | a name is reported as duplicate exactly at its later occurrences |
| `Validator.CheckReferences` | pkg/compiler/validator.go:37-62 | reports exactly the undeclared references and the TTL warning of a tier |
| `Validator.Validate` | pkg/compiler/validator.go:14-71 | stage 2 reports exactly the faults of the policy |
| `Compiler.CycleMeansSelfDependency` | pkg/compiler/blast.go:23-29 | the blast graph is a star: an edge lies on a cycle if and only if it is the service's edge to itself |
| `Compiler.BlastGraphMeans` | pkg/compiler/blast.go:12-50 | the graph has the service, pointing at its dependencies and then at what it cascades to, and every service it names as a leaf |
| `Compiler.AnalyzeBlast` | pkg/compiler/blast.go:12-86 | builds that graph and reports exactly the isolation breach and the self-dependency, which is there if and only if the graph is cyclic |
| `Compiler.CompileTiers` | pkg/compiler/compiler.go:81-92 | copies name, condition, behaviour and gate of each tier to its own position |
| `Compiler.NoErrorsMeansAcceptable` | pkg/compiler/compiler.go:58-63 | no error-level fault exists if and only if the policy meets a declarative list of requirements |
| `Compiler.DiagnosticsMean` | pkg/compiler/validator.go:14-110 | what each diagnostic of both stages says of the policy, if and only if |
| `Compiler.OnlyFlatLaddersAreSwept` | pkg/compiler/validator.go:170-192 | gaps are only reported for ladders of at least two tiers with one comparator each |
| `Compiler.Compile` | pkg/compiler/compiler.go:46-79 | emits a bundle if and only if the policy is acceptable; the bundle has the policy's service, signals, isolation boundary and, tier by tier, its name, condition, behaviour and human gate; the diagnostics are exactly its faults; the finishing order ranks the graph of every bundle |
| `Compiler.CompiledLadderIsWellFormed` | pkg/compiler/validator.go:85-90 | accepted names are non-empty and distinct, so index lookup inverts the tier list |
| `Compiler.CompiledMatchIgnoresUndeclared` | pkg/compiler/validator.go:36-47 | for a compiled policy two snapshots that agree on declared signals match the same tier |
| `Compiler.AnalysedLaddersHaveOneSignalUnlessUnnamed` | pkg/compiler/validator.go:175-192 | an analysed ladder is on one signal if and only if its first and last tiers are both, or neither, on a signal called "" |
| `Compiler.MixedLaddersHideHoles` | pkg/compiler/validator.go:175-192 | an accepted policy whose ladder starts on a signal called "" and goes on to another one, with a reading no tier matches that falls back to the first tier |
| `Compiler.RuntimeAgreesWithRange` | pkg/runtime/evaluator.go:217-226 | a reading makes a tier's runtime condition true only inside its range, and throughout it when the ignored bounds are implied |
| `Compiler.AcceptedLadderHasNoHoles` | pkg/compiler/validator.go:162-224 | wherever the signal reaches an accepted ladder whose ignored bounds are implied, the matched tier's own condition holds |
| `Compiler.HolesAreWhereIgnoredBoundsFail` | pkg/compiler/validator.go:228-249 | whatever the bounds, a reading that reaches an accepted ladder lies in some tier's range, and the matched tier's condition is false if and only if the ignored bounds of every such tier reject the reading |
| `Compiler.ReportedHolesAreReal` | pkg/compiler/validator.go:205-222 | whatever the comparators, in a reported region no tier's condition holds and the first tier is matched as a fallback |
| `Compiler.ReportedPointsAreHolesUnlessATierStartsThere` | pkg/compiler/validator.go:209-210 | at a reported single value some tier matches if and only if some tier's range starts there inclusively and its ignored bounds accept the value; otherwise the first tier is matched as a fallback |
| `Compiler.DetectorIsExact` | pkg/compiler/validator.go:170-224 | on non-contradictory ladders whose ignored bounds are implied the detector is silent if and only if every reading above a bound matches a tier and no reading is tied open |
| `Compiler.DetectorIsExactOnRanges` | pkg/compiler/validator.go:170-224 | whatever the bounds, on non-contradictory single-signal ladders the detector is silent if and only if every reading above a bound lies in some range and no reading is tied open |
| `Compiler.EveryHoleIsDiagnosed` | pkg/compiler/validator.go:194-224 | whatever the comparators, every reading above a bound that lies in no tier's range is in a diagnosed gap |
| `Compiler.DiagnosisIsExact` | pkg/compiler/validator.go:194-224 | unless a tier's range starts at a reading inclusively, the reading is in a diagnosed gap if and only if it lies in no range |
| `Compiler.SecondBoundsHideHoles` | pkg/compiler/validator.go:233-238 | an accepted policy with { gte: 0, gt: 10 }, and a reading inside its ladder that no tier matches and that falls back to the first tier |
| `Compiler.DisagreeingTiesAreRejected` | pkg/compiler/validator.go:268-270 | a ladder in which every reading matches a tier and which is reported all the same |
| `Compiler.AcceptedGraphsArePrintable` | cmd/dg/main.go:191-209 | on every accepted graph the printer returns from every node |
| `Compiler.FinishingOrderPrintsTheStar` | cmd/dg/main.go:191-209 | with a ranking such as the finishing order as its measure the printer names exactly the service and its neighbours |
| `Compiler.PrintCompiled` | cmd/dg/main.go:170-209 | compiling and printing succeeds exactly for acceptable policies and names exactly a named service and its neighbours |
| `Compiler.UnnamedServicePrintsAlone` | cmd/dg/main.go:178 | for an unnamed service the printer starts outside the graph and prints one bare line |
| `Graphs.ColourSearch.Dfs` | pkg/compiler/blast.go:53-69 | grey nodes are the current path, black nodes are ranked by finishing order, white nodes shrink; on success the named edge lies on a cycle |
| `Graphs.DetectCycle` | pkg/compiler/blast.go:71-83 | on a finite closed graph a cycle is reported if and only if there is one, the named edge lies on it, and otherwise the finishing order ranks all nodes |
| `Graphs.BackEdgeClosesCycle` | pkg/compiler/blast.go:56-60 | an edge to a grey node closes a cycle |
| `Graphs.RankedGraphIsAcyclic` | pkg/compiler/blast.go:67 | a graph ranked by finishing order has no cycle |
| `Graphs.Walker.Visit` | pkg/compiler/blast.go:94-103 | extends the order by nodes reachable from the start whose children are all visited |
| `Graphs.ReachableFrom` | pkg/compiler/blast.go:90-106 | returns every reachable node exactly once, the start first |
| `Graphs.PrinterNamesReachableNodes` | cmd/dg/main.go:191-209 | on a ranked graph the printed tree names exactly the nodes reachable from its root |
| `Graphs.CyclesDefeatThePrinter` | cmd/dg/main.go:206-208 | from a node on a cycle no recursion depth is enough |
| `Graphs.RankBoundsPrinter` | cmd/dg/main.go:206-208 | the rank bounds the recursion depth of the printer |
| `Graphs.PrinterReturnsIffAcyclic` | cmd/dg/main.go:191-209 | on any closed graph the printer returns from every node if and only if there is no cycle |
| `WriteQueue.Queue.constructor` | pkg/enforcement/writequeue/queue.go:32-38 | starts empty with nothing dropped |
| `WriteQueue.Queue.Evict` | pkg/enforcement/writequeue/queue.go:90-105 | the in-place compaction equals the pure filter, and every removed write is counted |
| `WriteQueue.Queue.Append` | pkg/enforcement/writequeue/queue.go:52 | appends in place or to a larger backing array |
| `WriteQueue.Queue.Enqueue` | pkg/enforcement/writequeue/queue.go:42-55 | evicts, then rejects at capacity or appends the stamped write |
| `WriteQueue.Queue.Drain` | pkg/enforcement/writequeue/queue.go:59-67 | returns the live writes in a fresh copy and empties the queue |
| `WriteQueue.Queue.Depth` | pkg/enforcement/writequeue/queue.go:70-75 | the number of live writes |
| `WriteQueue.KeptAreTheYoung` | pkg/enforcement/writequeue/queue.go:94-103 | a write is kept exactly while its age is below the TTL, or for ever when the TTL is zero |
| `QueueRuns.StepsAgree` | pkg/enforcement/writequeue/queue.go:42-75 | each operation answers as the eager queue does, and the drop counts agree after it if and only if it leaves no expired write unnoticed, a condition on the state before it and its clock readings |
| `QueueRuns.LazyRefinesEager` | pkg/enforcement/writequeue/queue.go:42-105 | for any operations at non-decreasing times every acceptance, depth and drained sequence equals that of a queue that expires eagerly; dropped never runs ahead, and is equal after an event if and only if that event caught up: a Drain or Depth always, an Enqueue exactly when nothing live at its first clock reading has expired by its second and an accepted write has a TTL of at least zero |
| `QueueRuns.DropCountsCanDiffer` | pkg/enforcement/writequeue/queue.go:42-55 | two Enqueues after which the drop counts differ, because a write expires between the two clock readings of the second |
| `QueueRuns.StepKeepsAccounts` | pkg/enforcement/writequeue/queue.go:42-67 | each operation keeps attempts = depth + drained + dropped, the depth bound, and the in-order subsequence of accepted writes |
| `QueueRuns.RunsKeepAccounts` | pkg/enforcement/writequeue/queue.go:42-105 | attempts = depth + drained + dropped, depth is at most the maximum, and drained followed by queued writes is an in-order subsequence of the accepted ones, each position used once |
| `QueueRuns.NewQueueIsEagerAndAccounted` | pkg/enforcement/writequeue/queue.go:32-105 | from a new queue on, at every point of every run: the answers are those of the eager queue, and the accounts hold |
| `Kubernetes.Client.PatchHPABounds` | pkg/enforcement/k8s/client.go:295-304 | takes effect or, when it fails, changes nothing |
| `Kubernetes.Client.SetNodeUnschedulable` | pkg/enforcement/k8s/client.go:317-323 | takes effect on that node or, when it fails, changes nothing |
| `Kubernetes.Reconciler.LockHPA` | pkg/enforcement/k8s/controller.go:143-162 | saves the bounds on the first lock only, then pins the HPA |
| `Kubernetes.Reconciler.RestoreHPA` | pkg/enforcement/k8s/controller.go:165-190 | re-applies saved bounds and clears the annotations; does nothing without both, or when one does not parse |
| `Kubernetes.Reconciler.CordonAll` | pkg/enforcement/k8s/controller.go:194-216 | cordons every schedulable node whose call succeeds and records exactly those |
| `Kubernetes.Reconciler.UncordonOwned` | pkg/enforcement/k8s/controller.go:219-230 | uncordons exactly the recorded nodes whose call succeeds and forgets exactly those |
| `Kubernetes.Reconciler.Reconcile` | pkg/enforcement/k8s/controller.go:87-139 | the cluster, the ledger and the verdict are those of the reconciliation function, for every pattern of failing calls |
| `Kubernetes.LedgerKeptUnlessBoundsLost` | pkg/enforcement/k8s/controller.go:109-118 | one reconciliation keeps the HPA ledger if and only if its failing calls are not one of the named patterns of annotation failures |
| `Kubernetes.LedgerMeansRecoverable` | pkg/enforcement/k8s/controller.go:143-190 | the ledger holds if and only if every run of succeeding calls that ends in a nominal reconciliation ends with the original bounds |
| `Kubernetes.LosingBoundsIsUnrecoverable` | pkg/enforcement/k8s/controller.go:109-118 | a reconciliation leaves the original bounds recoverable if and only if its failing calls are not one of those patterns |
| `Kubernetes.OnlyAnnotationFaultsLoseBounds` | pkg/enforcement/k8s/controller.go:150-159 | over any run whose annotation writes succeed, whatever other calls fail, the ledger still holds at the end |
| `Kubernetes.HPALedgerHolds` | pkg/enforcement/k8s/controller.go:109-118 | the ledger holds before and after every call of a run if and only if no call of the run loses the bounds |
| `Kubernetes.NominalRestoresBounds` | pkg/enforcement/k8s/controller.go:114-118 | every nominal reconciliation that reaches the HPA ends with the original bounds, an unset minimum counting as 1, after any calls of which none lost them |
| `Kubernetes.CordonStep` | pkg/enforcement/k8s/controller.go:129-136 | one reconciliation with any faults keeps the cordon ledger and the node set |
| `Kubernetes.CordonLedgerHolds` | pkg/enforcement/k8s/controller.go:194-230 | unschedulable nodes are always the disjoint union of those cordoned beforehand and the recorded ones; the former are never uncordoned |
| `Kubernetes.CleanReconcileSettlesNodes` | pkg/enforcement/k8s/controller.go:129-136 | when all calls of a reconciliation succeed, survival cordons every node and any other tier restores the original set |
| `Kubernetes.VerdictMeans` | pkg/enforcement/k8s/controller.go:87-139 | a reconciliation fails if and only if the Deployment read, a needed replica patch or a needed pause patch fails; then neither pause nor nodes change |
| `Kubernetes.NodesFollowTheirOwnCalls` | pkg/enforcement/k8s/controller.go:194-230 | with any failing calls each node is cordoned and recorded, or freed and forgotten, exactly when its own call succeeds, whatever happens to the others |
| `Kubernetes.HPAFollowsItsOwnCalls` | pkg/enforcement/k8s/controller.go:87-190 | with any failing calls: nothing changes when a call before the HPA fails; otherwise replicas, each saved bound, the HPA bounds and each annotation follow their own calls |
| `Kubernetes.CleanReconcileEffects` | pkg/enforcement/k8s/controller.go:26-45 | what a fully successful reconciliation leaves behind, tier by tier |
| `Kubernetes.CleanReconcileIsIdempotent` | pkg/enforcement/k8s/controller.go:87-139 | reconciling the same tier again changes nothing |
| `Sidecar.PolicyFromBundle` | pkg/enforcement/sidecar/server.go:50-76 | the nested loops build the feature table, a later tier of the same name replacing an earlier one |
| `Sidecar.FeaturesFor` | pkg/enforcement/sidecar/server.go:66-72 | a feature is on exactly when the mode is full_service and the tier does not disable it |
| `Sidecar.Server.UsePolicy` | pkg/enforcement/sidecar/server.go:112-118 | serves the flags of the policy's first tier |
| `Sidecar.Server.SetTier` | pkg/enforcement/sidecar/server.go:160-165 | serves the flags of the tier, from the policy or the demo table |
| `Sidecar.FlagsOfCompiledTier` | pkg/enforcement/sidecar/server.go:45-49 | what a compiled tier serves: its mode, and for every feature some tier disables whether the tier is full_service and does not disable it |
| `Sidecar.UndeclaredTiersHaveNoFlags` | pkg/enforcement/sidecar/server.go:178-194 | an undeclared tier has no mode and no features |
| `Sidecar.DemoFeatures` | pkg/enforcement/sidecar/server.go:275-290 | the built-in table, feature by feature |
| `Enforcer.Enforcer.constructor` | pkg/enforcement/enforcer/enforcer.go:100-114 | starts at the first tier and loads its flags |
| `Enforcer.Enforcer.HandleTransition` | pkg/enforcement/enforcer/enforcer.go:117-132 | the whole new system state for a proposed tier |
| `Enforcer.Enforcer.Force` | pkg/enforcement/enforcer/enforcer.go:136-161 | the whole new system state for a manual override, and whether it was accepted |
| `Enforcer.Enforcer.Release` | pkg/enforcement/enforcer/enforcer.go:164-167 | only drops the evaluator's lock |
| `Enforcer.Enforcer.OpenGate` | pkg/enforcement/enforcer/enforcer.go:189-212 | numbers a new gate and holds its tier |
| `Enforcer.Enforcer.ResolveGate` | pkg/enforcement/enforcer/enforcer.go:214-252 | the whole new system state for a gate's decision, nothing for a stale one |
| `Enforcer.Enforcer.TimeOut` | pkg/enforcement/enforcer/enforcer.go:241-250 | the whole new system state for each timeout policy |
| `Enforcer.Enforcer.Escalate` | pkg/enforcement/enforcer/enforcer.go:254-258 | locks and applies the most degraded tier |
| `Enforcer.Enforcer.Lock` | pkg/enforcement/enforcer/enforcer.go:260-264 | pins the evaluator, or leaves it alone when the tier is unknown |
| `Enforcer.Enforcer.CancelGate` | pkg/enforcement/enforcer/enforcer.go:266-272 | drops the held gate and its pending tier |
| `Enforcer.Enforcer.Apply` | pkg/enforcement/enforcer/enforcer.go:274-310 | switches tier, logs it, updates the flags, and drains the queue on leaving a queueing tier |
| `Enforcer.Applied` | pkg/enforcement/enforcer/enforcer.go:274-310 | applying a tier touches neither the evaluator nor any gate |
| `Enforcer.LookupsFindTheTier` | pkg/enforcement/enforcer/enforcer.go:323-350 | gate and buffering of a name are those of the tier that has it, and an undeclared name has neither |
| `Enforcer.AppliedTable` | pkg/enforcement/enforcer/enforcer.go:274-310 | moving between two tiers logs the move with its reason; the live writes stay queued when the new tier buffers, and are drained and counted in the log when only the old one does |
| `Enforcer.Resolved` | pkg/enforcement/enforcer/enforcer.go:217-221 | a decision closes the live gate and a stale decision changes nothing |
| `Protocol.TickStep` | pkg/runtime/engine.go:88-112 | evaluating and handling a confirmed tick is one step of the system |
| `Protocol.DecideStep` | pkg/enforcement/enforcer/enforcer.go:204-211 | a gate goroutine's decision is one step of the system |
| `Protocol.HandleWrite` | cmd/dg-engine/control.go:526-552 | a write is only buffered when the applied tier queues writes; an accepted one is answered with the depth, whose reading evicts again, as a write step followed by a depth step |
| `Protocol.StepKeepsJoint` | pkg/enforcement/enforcer/enforcer.go:117-272 | every step keeps the joint invariant |
| `ProtocolRuns.JointInvariant` | pkg/enforcement/enforcer/enforcer.go:117-310 | in every reachable state the evaluator's tier is the pending tier if a gate is open and the applied tier otherwise; an open gate's tier is gated and above the applied tier; a lock means that tier is applied and no gate is open; all outputs track the applied tier |
| `ProtocolRuns.OutputsTrackAppliedTier` | pkg/enforcement/enforcer/enforcer.go:274-310 | in every reachable state the mode is the applied tier's, each feature is on exactly when that tier is full_service and does not disable it, the queue is empty unless that tier buffers, and transition events form an unbroken chain without self-loops from the first tier to the applied one |
| `ProtocolRuns.StepKeepsQueueLedger` | pkg/enforcement/enforcer/enforcer.go:299-310 | no step loses a buffered write, and drains are only logged on entering a tier that does not buffer |
| `ProtocolRuns.SystemQueueConservation` | pkg/enforcement/enforcer/enforcer.go:299-310 | across all tier changes, gates and overrides, writes offered to the queue = queued + logged as drained + dropped |
| `ProtocolRuns.LiveWritesSurvive` | pkg/enforcement/enforcer/enforcer.go:299-310 | no step but a write changes which live writes are queued, except by draining and counting them on leaving the buffering tiers |
| `ProtocolRuns.WriteTable` | pkg/enforcement/writequeue/queue.go:42-55 | a write is stamped and appended if and only if the applied tier declares a queue and fewer writes than the maximum are live; otherwise it is dropped and counted, or nothing changes |
| `ProtocolRuns.DecisionTable` | pkg/enforcement/enforcer/enforcer.go:9-15 | the documented effect of every answer and every timeout policy, with lock durations and logged reasons |
| `ProtocolRuns.TransitionTable` | pkg/enforcement/enforcer/enforcer.go:124-131 | a confirmed move up into a tier that declares a gate is held behind a new gate of that tier's spec with nothing else changed; any other is applied at once and opens no gate |
| `ProtocolRuns.HandlingTable` | pkg/enforcement/enforcer/enforcer.go:117-132 | the same for a move handled on its own: held behind the tier's own gate, or applied |
| `ProtocolRuns.OverrideTable` | pkg/enforcement/enforcer/enforcer.go:136-167 | an override applies and locks a declared tier, drops the gate and logs both, or changes nothing; a release only drops the lock |
| `ProtocolRuns.StaleTransitionsBreakAgreement` | pkg/runtime/dispatcher.go:33-39 | a transition handled at another time keeps the agreement if and only if it still names the evaluator's current tier |
| `ProtocolRuns.DroppedTransitionsBreakAgreement` | pkg/runtime/dispatcher.go:33-39 | a confirmed tick whose event is dropped always breaks the agreement |
| `ProtocolRuns.LateWritesStayBehind` | cmd/dg-engine/control.go:535-548 | a write enqueued after the buffering tier was left keeps the outputs in step if and only if the queue does not accept it |
| `ProtocolRuns.RisesIntoGatedTiersAreSanctioned` | pkg/enforcement/enforcer/enforcer.go:127-131 | the applied tier only rises into a tier that declares a gate by an override of that tier or by a decision of the gate open right then |
| `ProtocolRuns.OpenGateIsItsTiers` | pkg/enforcement/enforcer/enforcer.go:189-195 | in every reachable state an open gate is that of a tier above the applied one, with that tier's own spec |
| `ProtocolRuns.GatesActAtMostOnce` | pkg/enforcement/enforcer/enforcer.go:217-221 | after the decision of an open gate no further decision of that gate changes anything, however late |
| `ProtocolRuns.ReplacedGatesChangeNothing` | pkg/enforcement/enforcer/enforcer.go:266-272 | after a confirmed tick or an override no gate opened before it can take effect |
| `ProtocolRuns.PendingWasProposed` | pkg/enforcement/enforcer/enforcer.go:189-195 | an open gate was opened by a tick that confirmed its tier, with nothing confirmed or forced since |
| `ProtocolRuns.EvaluatorRunIsValid` | pkg/enforcement/enforcer/enforcer.go:48-51 | seen by the evaluator, every run of the system is a run of ticks, locks and unlocks |
| `ProtocolRuns.SystemTransitionBudget` | pkg/runtime/evaluator.go:117-151 | the transition budget holds for the whole system, gates and overrides included |
| `ProtocolRuns.ConfirmedTicksAreEarned` | pkg/runtime/evaluator.go:137-149 | in the whole system every confirmed tick has its hysteresis window of unlocked ticks matching its tier |
| `ProtocolRuns.EveryMoveIsJustified` | pkg/enforcement/enforcer/enforcer.go:117-272 | every change of the applied tier was chosen outright, or its tier was confirmed after a whole hysteresis window of matching ticks with nothing confirmed or forced in between |
| `ProtocolRuns.SystemConvergence` | pkg/enforcement/enforcer/enforcer.go:117-272 | in the whole system, with writes, depth reads, approvals, stale decisions and refused overrides allowed: when from some tick on every tick matches T and nothing pins the evaluator, then from the first tick that comes the hysteresis of its own direction later on nothing is confirmed and T is applied or held behind its gate, and applied for good once that gate closes or when T declares none |
| `ProtocolRuns.OverridesHold` | pkg/enforcement/enforcer/enforcer.go:136-161 | until an override expires, or a release or another lock replaces it, its tier stays applied and nothing is pending |
| `ProtocolRuns.OverridesEnd` | pkg/runtime/evaluator.go:100-106 | the first tick at or after an override's expiry is evaluated as unlocked and, without hysteresis, confirms any other matched tier at once |
| `HumanGates.HumanGate.OpenGate` | pkg/gate/gate.go:115-128 | the new gate replaces the pending one |
| `HumanGates.HumanGate.SendTo` | pkg/gate/gate.go:213-229 | the one-slot channel takes the first answer and refuses a second unread one |
| `HumanGates.HumanGate.SettleGate` | pkg/gate/gate.go:156-174 | "override" gives the target and its minutes, "escalate" escalates, any other answer approves; otherwise timed out, or superseded |
| `HumanGates.HumanGate.CloseGate` | pkg/gate/gate.go:176-183 | clears the pending gate only if it is this one, and records the outcome |
| `HumanGates.PendingIsAlwaysLatest` | pkg/gate/gate.go:125-128 | pending is nil or the most recently fired gate, and nil only after that gate closed itself |
| `HumanGates.OnlyItsOwnCloseClearsPending` | pkg/gate/gate.go:176-179 | a pending gate is only cleared by its own closing or replaced by a newer one |
| `HumanGates.DecisionsHaveACause` | pkg/gate/gate.go:156-174 | an operator's decision is what the first response sent to that very gate says, word by word; a gate is superseded only after its context was cancelled |
| `HumanGates.ClosingReportsTheGate` | pkg/gate/gate.go:176-183 | closing a gate reports the tier it was fired for and its decision |
| `GatedRuns.CancelledRunsAreValid` | pkg/enforcement/enforcer/enforcer.go:266-272 | a decision reported superseded after the enforcer cancelled its gate never meets a live gate, so all lemmas about the system apply |
| `GatedRuns.JoinedRunsAreValid` | pkg/gate/gate.go:173-174 | when contexts are only cancelled by the enforcer and decisions are those the gates made, every step of the system is a possible one |
| `GatedRuns.RisesIntoGatedTiersHaveACause` | pkg/enforcement/enforcer/enforcer.go:204-211 | joined with its gates, the system only raises the applied tier into a gated tier by an override of it, an operator's earlier answer to the very gate that is open, or that gate's timer |
| `GatedRuns.AnswersTakeEffect` | pkg/gate/gate.go:156-174 | what an operator's word does when it is reported on the open gate: approve applies the pending tier, escalate applies and locks the top tier, override applies and locks its target for the asked minutes |
| `GatedRuns.OneOutcomePerGate` | pkg/gate/gate.go:151-174 | however often a gate is reported on in the system, it is with the same outcome |
| `Scenario.PickValueIsExact` | cmd/dg-engine/control.go:364-396 | for every comparator the picked value satisfies it if and only if the bounds the pick reads are satisfiable and no lone gt on a negative threshold, and the bounds it does not read leave room |
| `Scenario.UnusedBoundsMislead` | cmd/dg-engine/control.go:364-396 | two satisfiable comparators with a second bound whose pick fails |
| `Scenario.Assignment.Witness` | cmd/dg-engine/control.go:352-362 | the recursion over the shared map computes the witness function whatever the map order |
| `Scenario.WitnessFrame` | cmd/dg-engine/control.go:352-362 | the witness changes no signal it does not visit |
| `Scenario.LastWriterWins` | cmd/dg-engine/control.go:351-362 | for any tree, a signal keeps what the any_of branch writes, else what the last all_of branch that visits it writes, else the pick of the node's own comparison |
| `Scenario.WitnessIgnoresTheMap` | cmd/dg-engine/control.go:351-362 | for any tree at all, whether the first branches hold on the map left behind does not depend on what was in it |
| `Scenario.WitnessHolds` | cmd/dg-engine/control.go:351-362 | for a tree in which no later branch overwrites what an earlier one needs, the first branches hold on the map left behind if and only if every comparator on them accepts its pick, whatever was in the map |
| `Scenario.WitnessSatisfies` | cmd/dg-engine/control.go:351-362 | on the map the witness of such a tree leaves behind the condition holds if every comparator on the first branches accepts its pick, and only then when no any_of has a second branch |
| `Scenario.ScenarioFor` | cmd/dg-engine/control.go:332-349 | returns the witness, on zeros, of the first any_of branch that lands on the tier, or of the whole condition when there is no any_of, and nothing if and only if none lands |
| `Scenario.ScenarioExists` | cmd/dg-engine/control.go:332-349 | the witness of a candidate in which no later branch overwrites what an earlier one needs lands on the tier if every deciding comparator accepts its pick and no more degraded tier matches; above the first tier, and with one branch per any_of, only then; the tier must not mix all_of with any_of |

## Left out

- The asynchronous dispatcher: the joint invariant is proved for the composition in which a confirmed tick and its handling are one step; what goes wrong otherwise is stated exactly by two lemmas about late and dropped transitions.
- Kubernetes reconciliation inside the enforcer: it is started in a goroutine after each applied tier, possibly out of order, so the reconciler is modelled on its own with calls in sequence.
- IEEE rounding and NaN: reals replace float64, so midpoints and the factor 1.1 are exact.
- Integer widths: replica counts, the gate sequence number, the drop counter and durations are unbounded integers.
- Signals carried along for logging: `lastSignals`, the signals in audit events, operator-facing log lines and metrics.
- Audit events of the gate, and every sink of the audit log.
- Notifications: Slack and PagerDuty messages sent while a gate opens and closes.
- Authentication tokens of the gate and sidecar endpoints, and the sidecar's own override endpoint.
- Parsing and emitting: YAML, gob encoding, checksums, timestamps; compilation starts from parsed policies.
- The signal bus, collectors, fetchers and injected values: a tick receives an arbitrary snapshot.
- Protocol.HandleWrite: the check for a buffering tier and the enqueue are one step, although a tier change can come between them; `LateWritesStayBehind` says exactly what then goes wrong.
- HTTP handlers other than the queue part of the write endpoint, the console, slider ranges and descriptions.
- Annotation text: a saved bound is a number or text that does not parse; decimal rendering is not modelled.
- The growth policy of a Go slice: `Append` moves to some larger array when the current one is full.
- Kubernetes.NominalRestoresBounds: asks that no earlier call lost the bounds, because otherwise they are gone; `LosingBoundsIsUnrecoverable` says exactly when that is.
- QueueRuns.LazyRefinesEager: the drop counts are not equal after every operation, because a write may expire between the two clock readings of an `Enqueue`; the exact condition is part of the lemma.
- Compiler.AcceptedLadderHasNoHoles: implied ignored bounds are enough but not needed, because another tier may accept the reading; `HolesAreWhereIgnoredBoundsFail` is exact. Neither speaks of compound ladders or ladders over several signals, which the detector does not analyse.
- Scenario.ScenarioExists: says nothing about candidates in which a later branch overwrites a signal an earlier one needs, or tiers that mix all_of with any_of; `ScenarioFor` says exactly when a candidate fails.
