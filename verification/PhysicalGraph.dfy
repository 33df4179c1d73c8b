/** Acceptance of a receive plan's physical graph: which pack entries to fetch,
    how they decode from one another and which required object each one serves. */
module PhysicalGraph {
  import opened Ordering
  import opened PhysicalNode
  import opened BaseForest
  import opened Topology
  import opened PlanEntries
  import opened PlanDependencies
  import opened PlanAttribution

  datatype Range = Range(
    entryId: string,
    packChecksum: string,
    start: int,
    end: int,
    reason: string,
    requiredOid: string,
    semanticRootOids: seq<string>)

  datatype Plan = Plan(
    physicalNodes: seq<Node>,
    dependencies: seq<Dependency>,
    topologicalEntryIds: seq<string>,
    ranges: seq<Range>,
    selectedPackChecksums: seq<string>)

  const EMPTY_PLAN := Plan([], [], [], [], [])

  // ---------- Ranges ----------

  predicate RangeOk(nodes: map<string, Node>, id: string, r: Range) {
    && r.entryId == id && id in nodes
    && r.packChecksum == nodes[id].packChecksum && r.start == nodes[id].offset && r.end == nodes[id].end
    && r.requiredOid == nodes[id].oid && r.reason == "required-object"
    && r.semanticRootOids == nodes[id].semanticRootOids
  }

  /** One range per entry, in topological order, describing that very entry. */
  ghost predicate RangesOk(nodes: map<string, Node>, order: seq<string>, ranges: seq<Range>) {
    |ranges| == |order| && forall i :: 0 <= i < |ranges| ==> RangeOk(nodes, order[i], ranges[i])
  }

  ghost predicate DistinctRanges(ranges: seq<Range>) {
    forall i, j :: 0 <= i < j < |ranges| ==> ranges[i].entryId != ranges[j].entryId
  }

  method CheckRanges(nodes: map<string, Node>, order: seq<string>, ranges: seq<Range>) returns (ok: bool)
    requires |ranges| == |order|
    ensures ok <==> RangesOk(nodes, order, ranges) && DistinctRanges(ranges)
  {
    var seen: set<string> := {};
    for i := 0 to |ranges|
      invariant forall k :: 0 <= k < i ==> RangeOk(nodes, order[k], ranges[k])
      invariant seen == set k | 0 <= k < i :: ranges[k].entryId
      invariant DistinctRanges(ranges[..i])
    {
      if !RangeOk(nodes, order[i], ranges[i]) || ranges[i].entryId in seen {
        return false;
      }
      seen := seen + {ranges[i].entryId};
      assert ranges[..i + 1] == ranges[..i] + [ranges[i]];
    }
    assert ranges[..|ranges|] == ranges;
    ok := true;
  }

  // ---------- The whole graph ----------

  /** What acceptance means, stated over the whole forest rather than check by check. */
  ghost predicate AcceptedPlan(entryIdOf: Node -> string, plan: Plan, required: set<string>) {
    if required == {} then plan == EMPTY_PLAN
    else
      var g := GraphOf(plan.physicalNodes, plan.dependencies);
      && 0 < |plan.physicalNodes| <= MAX_PHYSICAL_NODES
      && NodesOk(entryIdOf, required, plan.physicalNodes)
      && CanonicalOids(plan.selectedPackChecksums, false)
      && Elements(plan.selectedPackChecksums) == PacksOf(plan.physicalNodes)
      && DependenciesOk(g.nodes, plan.dependencies)
      && BasesMatchEncodings(g)
      && CanonicalOrder(g, plan.topologicalEntryIds)
      && GloballyAttributed(g, required, ListedRoots(g))
      && RootsHeld(g, required)
      && RangesOk(g.nodes, plan.topologicalEntryIds, plan.ranges)
  }

  /** The checks on the forest itself, once entries and dependencies are collected. */
  ghost predicate ForestOk(g: Graph, plan: Plan, required: set<string>) {
    && BasesMatchEncodings(g)
    && CanonicalOrder(g, plan.topologicalEntryIds)
    && GloballyAttributed(g, required, ListedRoots(g))
    && RootsHeld(g, required)
    && RangesOk(g.nodes, plan.topologicalEntryIds, plan.ranges)
  }

  /** Encodings, order and depth. The depth check cannot fail any more. */
  method CheckShape(g: Graph, plan: Plan) returns (ok: bool)
    requires WellFormed(g) && Lists(g, plan.dependencies)
    requires DistinctIds(plan.physicalNodes) && g.nodes == NodeMap(plan.physicalNodes)
    requires |plan.topologicalEntryIds| == |g.nodes| <= MAX_PHYSICAL_NODES
    ensures ok <==> BasesMatchEncodings(g) && CanonicalOrder(g, plan.topologicalEntryIds)
  {
    var encodings := CheckCardinality(g, plan.physicalNodes);
    if !encodings {
      return false;
    }
    var canonical := CheckTopology(g, plan.dependencies, plan.topologicalEntryIds);
    if !canonical {
      return false;
    }
    BaseFirstIsShallow(g, plan.topologicalEntryIds);
    ok := CheckDepth(g);
  }

  /** The local attribution equations, then every required object's own entry. */
  method CheckService(entryIdOf: Node -> string, g: Graph, plan: Plan, required: set<string>) returns (ok: bool)
    requires WellFormed(g) && Lists(g, plan.dependencies) && BaseFirst(g, plan.topologicalEntryIds)
    requires NodesOk(entryIdOf, required, plan.physicalNodes) && g.nodes == NodeMap(plan.physicalNodes)
    ensures ok <==> GloballyAttributed(g, required, ListedRoots(g)) && RootsHeld(g, required)
  {
    var ns := plan.physicalNodes;
    forall i | 0 <= i < |ns| ensures Distinct(ns[i].semanticRootOids) {
      assert NodeOk(entryIdOf, required, ns[i]);
      StrictlySortedDistinct(ns[i].semanticRootOids);
    }
    var attributed := CheckAttribution(g, required, ns, plan.dependencies);
    LocalIffGlobalAttribution(g, required, ListedRoots(g), plan.topologicalEntryIds);
    if !attributed {
      return false;
    }
    ok := CheckRootsHeld(required, ns);
    HeldIffListed(g, required, ns);
  }

  method CheckForest(entryIdOf: Node -> string, g: Graph, plan: Plan, required: set<string>) returns (ok: bool)
    requires NodesOk(entryIdOf, required, plan.physicalNodes) && DependenciesOk(g.nodes, plan.dependencies)
    requires g == GraphOf(plan.physicalNodes, plan.dependencies) && |plan.physicalNodes| <= MAX_PHYSICAL_NODES
    requires |plan.physicalNodes| == |plan.topologicalEntryIds| == |plan.ranges|
    ensures ok <==> ForestOk(g, plan, required)
  {
    GraphWellFormed(entryIdOf, required, plan.physicalNodes, plan.dependencies);
    NodeMapLookup(plan.physicalNodes);
    var shape := CheckShape(g, plan);
    if !shape {
      return false;
    }
    var service := CheckService(entryIdOf, g, plan, required);
    if !service {
      return false;
    }
    ok := CheckRanges(g.nodes, plan.topologicalEntryIds, plan.ranges);
    if RangesOk(g.nodes, plan.topologicalEntryIds, plan.ranges) {
      RangesDistinct(g.nodes, plan.topologicalEntryIds, plan.ranges);
    }
  }

  lemma RangesDistinct(nodes: map<string, Node>, order: seq<string>, ranges: seq<Range>)
    requires Distinct(order) && RangesOk(nodes, order, ranges)
    ensures DistinctRanges(ranges)
  {
    forall i, j | 0 <= i < j < |ranges| ensures ranges[i].entryId != ranges[j].entryId {
      assert RangeOk(nodes, order[i], ranges[i]) && RangeOk(nodes, order[j], ranges[j]);
    }
  }

  /** The order has as many entries as there are nodes, whatever the plan says. */
  lemma CanonicalOrderLength(entryIdOf: Node -> string, plan: Plan, required: set<string>)
    requires AcceptedPlan(entryIdOf, plan, required)
    ensures |plan.physicalNodes| == |plan.topologicalEntryIds| == |plan.ranges|
  {
    if required != {} {
      NodeMapLookup(plan.physicalNodes);
      DistinctCardinality(plan.topologicalEntryIds);
    }
  }

  /** Each check is local; together they accept exactly the plans that are
      globally right. */
  method ValidatePhysicalGraph(entryIdOf: Node -> string, plan: Plan, required: set<string>) returns (ok: bool)
    ensures ok <==> AcceptedPlan(entryIdOf, plan, required)
  {
    if required == {} {
      return plan == EMPTY_PLAN;
    }
    if AcceptedPlan(entryIdOf, plan, required) { CanonicalOrderLength(entryIdOf, plan, required); }
    var ns, ds := plan.physicalNodes, plan.dependencies;
    if |ns| == 0 || |ns| > MAX_PHYSICAL_NODES || |plan.ranges| != |ns| || |plan.topologicalEntryIds| != |ns| {
      return false;
    }
    var nodes := CollectNodes(entryIdOf, required, ns);
    if nodes.None? {
      return false;
    }
    var packs := CheckSelectedPacks(ns, plan.selectedPackChecksums);
    if !packs {
      return false;
    }
    GraphWellFormed(entryIdOf, required, ns, ds);
    var base := CollectDependencies(nodes.value, ds);
    if base.None? {
      return false;
    }
    ok := CheckForest(entryIdOf, Graph(nodes.value, base.value), plan, required);
  }

  // ---------- What an accepted plan gives its consumer ----------

  /** Every fetched entry is needed to decode an entry holding a required object. */
  lemma NoUselessEntry(entryIdOf: Node -> string, plan: Plan, required: set<string>, id: string)
    requires required != {} && AcceptedPlan(entryIdOf, plan, required) && id in NodeMap(plan.physicalNodes)
    ensures var g := GraphOf(plan.physicalNodes, plan.dependencies);
            exists u :: u in g.nodes && g.nodes[u].oid in required && Supports(g, id, u)
  {
    var g := GraphOf(plan.physicalNodes, plan.dependencies);
    var i := NodeMapSource(plan.physicalNodes, id);
    assert NodeOk(entryIdOf, required, plan.physicalNodes[i]);
    assert plan.physicalNodes[i].semanticRootOids[0] in ListedRoots(g)[id];
    NothingUseless(g, required, ListedRoots(g), id);
  }

  /** Every entry's chain of bases is fetched too, comes earlier, and ends at a
      full entry within the depth limit. */
  lemma DecodesFromEarlierEntries(entryIdOf: Node -> string, plan: Plan, required: set<string>, i: nat)
    requires required != {} && AcceptedPlan(entryIdOf, plan, required) && i < |plan.topologicalEntryIds|
    ensures var g := GraphOf(plan.physicalNodes, plan.dependencies);
            var order := plan.topologicalEntryIds;
            exists hops: nat ::
              && hops <= MAX_DEPENDENCY_DEPTH
              && BaseAfter(g, order[i], hops).Some?
              && var last := BaseAfter(g, order[i], hops).value;
              && last in order[..i + 1] && last in g.nodes && g.nodes[last].encoding == "full"
  {
    var g := GraphOf(plan.physicalNodes, plan.dependencies);
    var order := plan.topologicalEntryIds;
    GraphWellFormed(entryIdOf, required, plan.physicalNodes, plan.dependencies);
    CanonicalOrderLength(entryIdOf, plan, required);
    ChainEnds(g, order, i);
    var hops: nat :| hops <= i && EndsAfter(g, order[i], hops);
    ChainIsShort(g, order, i, hops);
    assert order[i] in Elements(order);
    NothingMissing(g, order[i], BaseAfter(g, order[i], hops).value, hops);
  }
}
