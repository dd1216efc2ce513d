/** The feature flags the sidecar serves. */
module Sidecar {
  import opened Policy
  import opened Ladder

  datatype TierBehavior = TierBehavior(mode: string, features: map<string, bool>)

  datatype FeatureTable = FeatureTable(initialTier: string, tiers: map<string, TierBehavior>)

  /** What applications see. */
  datatype Flags = Flags(tier: string, mode: string, features: map<string, bool>)

  function ModeOf(b: Behavior): string {
    if b.mode == "" then "full_service" else b.mode
  }

  /** Every feature some tier disables. */
  function Universe(tiers: Tiers): set<string> {
    set t, f | t in tiers && f in t.behavior.disable :: f
  }

  /** On exactly when the tier is full_service and does not disable the feature. */
  predicate Enabled(b: Behavior, f: string) {
    ModeOf(b) == "full_service" && f !in b.disable
  }

  function BehaviorOf(tiers: Tiers, b: Behavior): TierBehavior {
    TierBehavior(ModeOf(b), map f | f in Universe(tiers) :: Enabled(b, f))
  }

  /** The table after the first n tiers; a later tier of the same name replaces an earlier one. */
  function TableUpTo(tiers: Tiers, n: nat): map<string, TierBehavior>
    requires n <= |tiers|
  {
    if n == 0 then map[]
    else TableUpTo(tiers, n - 1)[tiers[n - 1].name := BehaviorOf(tiers, tiers[n - 1].behavior)]
  }

  function TableOf(tiers: Tiers): FeatureTable {
    FeatureTable(if |tiers| > 0 then tiers[0].name else "", TableUpTo(tiers, |tiers|))
  }

  lemma {:induction false} TableFindsTier(tiers: Tiers, n: nat, i: nat)
    requires WellFormed(tiers) && i < n <= |tiers|
    ensures tiers[i].name in TableUpTo(tiers, n)
    ensures TableUpTo(tiers, n)[tiers[i].name] == BehaviorOf(tiers, tiers[i].behavior)
  {
    if i < n - 1 { TableFindsTier(tiers, n - 1, i); }
  }

  method CollectUniverse(tiers: Tiers) returns (universe: set<string>)
    ensures universe == Universe(tiers)
  {
    universe := {};
    for i := 0 to |tiers|
      invariant universe == Universe(tiers[..i])
    {
      var disable := tiers[i].behavior.disable;
      for j := 0 to |disable|
        invariant universe == Universe(tiers[..i]) + set f | f in disable[..j]
      {
        universe := universe + {disable[j]};
        assert disable[..j + 1] == disable[..j] + [disable[j]];
      }
      assert disable[..|disable|] == disable;
      assert tiers[..i + 1] == tiers[..i] + [tiers[i]];
    }
    assert tiers[..|tiers|] == tiers;
  }

  method FeaturesFor(universe: set<string>, b: Behavior) returns (features: map<string, bool>)
    requires forall f | f in b.disable :: f in universe
    ensures features.Keys == universe
    ensures forall f | f in universe :: features[f] <==> b.mode in {"", "full_service"} && f !in b.disable
  {
    var mode := b.mode;
    if mode == "" { mode := "full_service"; }
    features := map[];
    var todo := universe;
    while todo != {}
      invariant todo <= universe
      invariant features == map f | f in universe - todo :: mode == "full_service"
    {
      var f :| f in todo;
      todo := todo - {f};
      features := features[f := mode == "full_service"];
    }
    for j := 0 to |b.disable|
      invariant features == map f | f in universe :: mode == "full_service" && f !in b.disable[..j]
    {
      assert b.disable[..j + 1] == b.disable[..j] + [b.disable[j]];
      features := features[b.disable[j] := false];
    }
    assert b.disable[..|b.disable|] == b.disable;
  }

  method PolicyFromBundle(tiers: Tiers) returns (table: FeatureTable)
    ensures table == TableOf(tiers)
  {
    var universe := CollectUniverse(tiers);
    var rows: map<string, TierBehavior> := map[];
    for i := 0 to |tiers|
      invariant rows == TableUpTo(tiers, i)
    {
      var b := tiers[i].behavior;
      assert tiers[i] in tiers;
      var features := FeaturesFor(universe, b);
      assert features == BehaviorOf(tiers, b).features;
      rows := rows[tiers[i].name := TierBehavior(ModeOf(b), features)];
    }
    table := FeatureTable(if |tiers| > 0 then tiers[0].name else "", rows);
  }

  /** The flags for a tier; a tier the table does not know has no mode and no features. */
  function FlagsFor(table: FeatureTable, tier: string): Flags {
    if tier in table.tiers then Flags(tier, table.tiers[tier].mode, table.tiers[tier].features)
    else Flags(tier, "", map[])
  }

  /** The built-in demo table, used until a policy is loaded. */
  function DemoFlags(tier: string): Flags {
    var on := tier !in {"hot", "critical", "survival"};
    var extras := on && tier != "warm";
    Flags(tier, "", map["recommendations" := extras, "analytics" := extras, "uploads" := on])
  }

  class Server {
    var policy: Option<FeatureTable>
    var current: string
    var mode: string
    var features: map<string, bool>

    function Served(): Flags reads this {
      Flags(current, mode, features)
    }

    constructor ()
      ensures policy == None && Served() == DemoFlags("nominal")
    {
      policy, current, mode := None, "nominal", "";
      features := map["recommendations" := true, "analytics" := true, "uploads" := true];
    }

    method UsePolicy(p: FeatureTable)
      modifies this
      ensures policy == Some(p) && Served() == FlagsFor(p, p.initialTier)
    {
      policy := Some(p);
      SetTier(p.initialTier);
    }

    method SetTier(tier: string)
      modifies this`current, this`mode, this`features
      ensures Served() == if policy.Some? then FlagsFor(policy.value, tier) else DemoFlags(tier)
    {
      var flags := if policy.Some? then FlagsFor(policy.value, tier) else DemoFlags(tier);
      current, mode, features := tier, flags.mode, flags.features;
    }
  }

  /** The served flags of a compiled tier, feature by feature. */
  lemma FlagsOfCompiledTier(tiers: Tiers, i: nat)
    requires WellFormed(tiers) && i < |tiers|
    ensures var flags, b := FlagsFor(TableOf(tiers), tiers[i].name), tiers[i].behavior;
      && flags.tier == tiers[i].name && flags.mode == (if b.mode == "" then "full_service" else b.mode)
      && (forall f :: f in flags.features <==> exists t :: t in tiers && f in t.behavior.disable)
      && (forall f | f in flags.features ::
            flags.features[f] <==> b.mode in {"", "full_service"} && f !in b.disable)
  {
    TableFindsTier(tiers, |tiers|, i);
  }

  lemma {:induction false} TableHasOnlyTiers(tiers: Tiers, n: nat, name: string)
    requires n <= |tiers|
    ensures name in TableUpTo(tiers, n) <==> exists i :: 0 <= i < n && tiers[i].name == name
  {
    if n > 0 { TableHasOnlyTiers(tiers, n - 1, name); }
  }

  /** A tier the policy does not declare has no mode and no features. */
  lemma UndeclaredTiersHaveNoFlags(tiers: Tiers, name: string)
    requires forall i | 0 <= i < |tiers| :: tiers[i].name != name
    ensures FlagsFor(TableOf(tiers), name) == Flags(name, "", map[])
  {
    TableHasOnlyTiers(tiers, |tiers|, name);
  }

  /** The demo table: everything is on in nominal and in unknown tiers, only uploads in warm, nothing in the
      three tiers above it. */
  lemma DemoFeatures(tier: string)
    ensures var flags := DemoFlags(tier);
      && flags.tier == tier && flags.features.Keys == {"recommendations", "analytics", "uploads"}
      && (flags.features["uploads"] <==> tier != "hot" && tier != "critical" && tier != "survival")
      && (flags.features["recommendations"] <==> tier != "warm" && flags.features["uploads"])
      && (flags.features["analytics"] <==> tier != "warm" && flags.features["uploads"])
  {}
}
