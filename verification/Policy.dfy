/** The policy values the compiler starts from and the compiled bundle the runtime reads.
    A Go pointer that may be nil is an `Option`; a float64 threshold is a `real`;
    a duration or an instant is an `int` number of nanoseconds. */
module Policy {

  datatype Option<+T> = None | Some(value: T)

  /** Bounds on one signal; several may be present at once. */
  datatype Comparator = Comparator(
    lt: Option<real>, lte: Option<real>, gt: Option<real>, gte: Option<real>, eq: Option<real>)

  datatype Condition = Condition(
    comparisons: map<string, Comparator>, allOf: seq<Condition>, anyOf: seq<Condition>)

  datatype QueueSpec = QueueSpec(maxDepth: int, ttl: int)

  datatype Behavior = Behavior(mode: string, disable: seq<string>, queueWrites: Option<QueueSpec>)

  datatype GateSpec = GateSpec(wait: int, onTimeout: string)

  datatype Tier = Tier(name: string, when: Condition, behavior: Behavior, humanGate: Option<GateSpec>)

  datatype BlastRadius = BlastRadius(
    dependsOn: seq<string>, cascadeTo: seq<string>, isolationBoundary: string, recoverySLASeconds: int)

  datatype DegradationPolicy = DegradationPolicy(
    service: string, signals: seq<string>, tiers: seq<Tier>, blastRadius: BlastRadius)

  datatype CompiledTier = CompiledTier(
    name: string, condition: Condition, behavior: Behavior, gateSpec: Option<GateSpec>)

  type Graph = map<string, seq<string>>

  datatype Bundle = Bundle(
    service: string, tiers: seq<CompiledTier>, blastGraph: Graph, isolationSet: set<string>,
    signalSources: seq<string>)

  type Snapshot = map<string, real>
}
