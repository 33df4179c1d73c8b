/** The closure manifest and the closure proof: two independent accounts of one
    push, and what their agreement guarantees. */
module Manifest {
  import opened Commands
  import opened Ordering
  import opened PhysicalNode
  import opened BaseForest
  import opened Topology
  import opened PlanDependencies
  import opened PhysicalGraph
  import opened Closure

  type int64 = x: int | -0x8000_0000_0000_0000 <= x < 0x8000_0000_0000_0000

  /** 64-bit addition wraps around. */
  function Wrap(x: int): int64 {
    (x + 0x8000_0000_0000_0000) % 0x1_0000_0000_0000_0000 - 0x8000_0000_0000_0000
  }

  datatype AdvertisedRef = AdvertisedRef(name: string, oid: string)

  datatype BoundBytes = BoundBytes(key: string, bytes: int64, sha256: string)

  datatype Request = Request(
    operationId: string,
    input: BoundBytes,
    packOffset: int64,
    prerequisite: BoundBytes,
    advertisedRefs: seq<AdvertisedRef>,
    commands: seq<ReceiveCommand>)

  datatype ClosureCounts = ClosureCounts(
    incoming: int64,
    visitedIncoming: int64,
    logicalEdges: int64,
    internalEdges: int64,
    externalEdges: int64,
    missing: int64,
    commits: int64,
    trees: int64,
    blobs: int64,
    tags: int64)

  datatype ClosureManifest = ClosureManifest(
    schemaVersion: int64,
    operationId: string,
    input: BoundBytes,
    packOffset: int64,
    packBytes: int64,
    commands: seq<ReceiveCommand>,
    advertisedRefs: seq<AdvertisedRef>,
    advertisedReachableOids: seq<string>,
    semanticExternalOids: seq<string>,
    thinDeltaBaseOids: seq<string>,
    requiredRootOids: seq<string>,
    plan: Plan,
    closure: ClosureCounts,
    prerequisite: BoundBytes,
    prerequisiteOids: seq<string>)

  // ---------- Sets named by the manifest ----------

  method ToSet(values: seq<string>) returns (s: set<string>)
    ensures s == Elements(values)
  {
    s := {};
    for i := 0 to |values|
      invariant s == Elements(values[..i])
    {
      ElementsOfPrefix(values, i);
      s := s + {values[i]};
    }
    assert values[..|values|] == values;
  }

  ghost function OldTips(commands: seq<ReceiveCommand>): set<string> {
    set i | 0 <= i < |commands| && !IsZeroOid(commands[i].oldOid) :: commands[i].oldOid
  }

  method CollectOldTips(commands: seq<ReceiveCommand>) returns (s: set<string>)
    ensures s == OldTips(commands)
  {
    s := {};
    for i := 0 to |commands|
      invariant forall oid :: oid in s <==> exists k :: 0 <= k < i && commands[k].oldOid == oid && !IsZeroOid(oid)
    {
      if !IsZeroOid(commands[i].oldOid) {
        s := s + {commands[i].oldOid};
      }
    }
  }

  method OldTipsWithin(commands: seq<ReceiveCommand>, required: set<string>) returns (ok: bool)
    ensures ok <==> OldTips(commands) <= required
  {
    for i := 0 to |commands|
      invariant forall k :: 0 <= k < i && !IsZeroOid(commands[k].oldOid) ==> commands[k].oldOid in required
    {
      if !IsZeroOid(commands[i].oldOid) && commands[i].oldOid !in required {
        assert commands[i].oldOid in OldTips(commands);
        return false;
      }
    }
    ok := true;
  }

  ghost predicate RefsWithin(refs: seq<AdvertisedRef>, boundary: set<string>) {
    forall i :: 0 <= i < |refs| ==> refs[i].oid in boundary
  }

  method CheckRefs(refs: seq<AdvertisedRef>, boundary: set<string>) returns (ok: bool)
    ensures ok <==> RefsWithin(refs, boundary)
  {
    for i := 0 to |refs|
      invariant forall k :: 0 <= k < i ==> refs[k].oid in boundary
    {
      if refs[i].oid !in boundary {
        return false;
      }
    }
    ok := true;
  }

  method Disjoint(values: seq<string>, s: set<string>) returns (ok: bool)
    ensures ok <==> Elements(values) !! s
  {
    for i := 0 to |values|
      invariant Elements(values[..i]) !! s
    {
      ElementsOfPrefix(values, i);
      if values[i] in s {
        assert values[i] in Elements(values);
        return false;
      }
    }
    assert values[..|values|] == values;
    ok := true;
  }

  /** Sets of one size, one inside the other, are equal: that is all the union check needs. */
  method SameSet(union: set<string>, required: set<string>) returns (ok: bool)
    ensures ok <==> union == required
  {
    if |union| != |required| {
      return false;
    }
    var todo := union;
    while todo != {}
      invariant todo <= union && union - todo <= required
    {
      var oid :| oid in todo;
      if oid !in required {
        return false;
      }
      todo := todo - {oid};
    }
    SubsetCardinality(union, required);
    ok := true;
  }

  // ---------- Manifest acceptance ----------

  predicate BindingsOk(m: ClosureManifest, r: Request) {
    && m.schemaVersion == 2 && m.operationId == r.operationId
    && m.input == r.input && m.packOffset == r.packOffset && m.packBytes == Wrap(r.input.bytes - r.packOffset)
    && m.commands == r.commands && m.advertisedRefs == r.advertisedRefs
  }

  predicate CountsOk(c: ClosureCounts) {
    && 0 <= c.visitedIncoming <= c.incoming <= MAX_CLOSURE_OBJECTS
    && 0 <= c.logicalEdges <= MAX_CLOSURE_EDGES
    && 0 <= c.internalEdges && 0 <= c.externalEdges
    && Wrap(c.internalEdges + c.externalEdges) == c.logicalEdges && c.missing == 0
    && 0 <= c.commits && 0 <= c.trees && 0 <= c.blobs && 0 <= c.tags
    && Wrap(c.commits + c.trees + c.blobs + c.tags) == c.visitedIncoming
  }

  ghost predicate OidListsOk(m: ClosureManifest) {
    && CanonicalOids(m.advertisedReachableOids, true)
    && CanonicalOids(m.semanticExternalOids, true)
    && CanonicalOids(m.thinDeltaBaseOids, true)
    && CanonicalOids(m.requiredRootOids, true)
  }

  /** The required roots are the semantic frontier, the thin bases and the old
      tips, and nothing else. */
  ghost predicate RootsOk(m: ClosureManifest, r: Request) {
    && RefsWithin(m.advertisedRefs, Elements(m.advertisedReachableOids))
    && Elements(m.thinDeltaBaseOids) !! Elements(m.semanticExternalOids)
    && Elements(m.requiredRootOids) ==
       Elements(m.semanticExternalOids) + Elements(m.thinDeltaBaseOids) + OldTips(r.commands)
  }

  ghost predicate AcceptedManifest(entryIdOf: Node -> string, m: ClosureManifest, r: Request) {
    && BindingsOk(m, r)
    && OidListsOk(m)
    && RootsOk(m, r)
    && AcceptedPlan(entryIdOf, m.plan, Elements(m.requiredRootOids))
    && CountsOk(m.closure)
    && m.prerequisite == r.prerequisite && m.prerequisiteOids == m.requiredRootOids
  }

  method CheckOidLists(m: ClosureManifest) returns (ok: bool)
    ensures ok <==> OidListsOk(m)
  {
    ok := ValidateSortedUniqueOids(m.advertisedReachableOids, true);
    if ok { ok := ValidateSortedUniqueOids(m.semanticExternalOids, true); }
    if ok { ok := ValidateSortedUniqueOids(m.thinDeltaBaseOids, true); }
    if ok { ok := ValidateSortedUniqueOids(m.requiredRootOids, true); }
  }

  method CheckRoots(m: ClosureManifest, r: Request, required: set<string>) returns (ok: bool)
    requires required == Elements(m.requiredRootOids)
    ensures ok <==> RootsOk(m, r)
  {
    var boundary := ToSet(m.advertisedReachableOids);
    ok := CheckRefs(m.advertisedRefs, boundary);
    if !ok {
      return;
    }
    var semantic := ToSet(m.semanticExternalOids);
    ok := Disjoint(m.thinDeltaBaseOids, semantic);
    if !ok {
      return;
    }
    var thin := ToSet(m.thinDeltaBaseOids);
    var old_ := CollectOldTips(r.commands);
    ok := SameSet(semantic + thin + old_, required);
    if !ok {
      return;
    }
    ok := OldTipsWithin(r.commands, required);
  }

  method ValidateClosureManifest(entryIdOf: Node -> string, m: ClosureManifest, r: Request) returns (ok: bool)
    ensures ok <==> AcceptedManifest(entryIdOf, m, r)
  {
    if !BindingsOk(m, r) {
      return false;
    }
    var lists := CheckOidLists(m);
    if !lists {
      return false;
    }
    var required := ToSet(m.requiredRootOids);
    var roots := CheckRoots(m, r, required);
    if !roots {
      return false;
    }
    var graph := ValidatePhysicalGraph(entryIdOf, m.plan, required);
    if !graph {
      return false;
    }
    ok := CountsOk(m.closure) && m.prerequisite == r.prerequisite && m.prerequisiteOids == m.requiredRootOids;
  }

  // ---------- Proof acceptance ----------

  ghost predicate AcceptedProof(proof: ClosureProof, m: ClosureManifest, planSha256: string) {
    && proof.planSha256 == planSha256 && proof.missingObjectCount == 0
    && proof.visitedIncomingObjectCount == m.closure.visitedIncoming
    && proof.logicalEdgeCount == m.closure.logicalEdges
    && proof.internalEdgeCount == m.closure.internalEdges
    && proof.externalEdgeCount == m.closure.externalEdges
    && proof.objectTypeCounts == TypeCounts(m.closure.commits, m.closure.trees, m.closure.blobs, m.closure.tags)
    && proof.semanticExternalOids == m.semanticExternalOids
    && |proof.incomingOids| == m.closure.visitedIncoming
    && CanonicalOids(proof.incomingOids, true)
    && CanonicalOids(proof.semanticExternalOids, true)
  }

  method ValidateClosureProof(proof: ClosureProof, m: ClosureManifest, planSha256: string) returns (ok: bool)
    ensures ok <==> AcceptedProof(proof, m, planSha256)
  {
    if !(&& proof.planSha256 == planSha256 && proof.missingObjectCount == 0
         && proof.visitedIncomingObjectCount == m.closure.visitedIncoming
         && proof.logicalEdgeCount == m.closure.logicalEdges
         && proof.internalEdgeCount == m.closure.internalEdges
         && proof.externalEdgeCount == m.closure.externalEdges
         && proof.objectTypeCounts == TypeCounts(m.closure.commits, m.closure.trees, m.closure.blobs, m.closure.tags)
         && proof.semanticExternalOids == m.semanticExternalOids
         && |proof.incomingOids| == m.closure.visitedIncoming)
    {
      return false;
    }
    ok := ValidateSortedUniqueOids(proof.incomingOids, true);
    if ok { ok := ValidateSortedUniqueOids(proof.semanticExternalOids, true); }
  }

  // ---------- What the two together guarantee ----------

  /** The proof was produced by the closure walk on the pushed commands, cut at
      the manifest's boundary, and both accounts were accepted. */
  ghost predicate Agreed(entryIdOf: Node -> string, m: ClosureManifest, r: Request, p: Problem, proof: ClosureProof,
                         planSha256: string) {
    && AcceptedManifest(entryIdOf, m, r)
    && p == ProblemOf(p.store, r.commands, m.advertisedReachableOids)
    && Complete(p) && Describes(proof, p, planSha256)
    && AcceptedProof(proof, m, planSha256)
  }

  /** Everything the pushed tips reach is a readable incoming object or is cut at
      a boundary object whose pack entry the plan fetches and can decode. */
  lemma EndToEndCompleteness(entryIdOf: Node -> string, m: ClosureManifest, r: Request, p: Problem,
                             proof: ClosureProof, planSha256: string, oid: string)
    requires Agreed(entryIdOf, m, r, p, proof, planSha256) && Reached(p, oid)
    ensures oid in p.store
    ensures oid !in p.boundary ==> oid in proof.incomingOids && WellTyped(p.store, oid)
    ensures oid in p.boundary ==>
              && oid in m.requiredRootOids && oid in m.prerequisiteOids
              && exists i :: 0 <= i < |m.plan.topologicalEntryIds| && HoldsDecodable(m.plan, i, oid)
  {
    assert Fine(p, oid);
    InReachedSet(p, oid);
    if oid !in p.boundary {
      assert oid in Elements(proof.incomingOids);
    } else {
      assert oid in Elements(proof.semanticExternalOids);
      assert oid in Elements(m.requiredRootOids);
      RequiredIsDecodable(entryIdOf, m.plan, Elements(m.requiredRootOids), oid);
    }
  }

  /** The i-th fetched entry is `oid`, and its base chain ends at a full entry
      fetched no later than itself. */
  ghost predicate HoldsDecodable(plan: Plan, i: nat, oid: string)
    requires i < |plan.topologicalEntryIds|
  {
    var g := GraphOf(plan.physicalNodes, plan.dependencies);
    var id := plan.topologicalEntryIds[i];
    && id in g.nodes && g.nodes[id].oid == oid
    && exists hops: nat ::
         && hops <= MAX_DEPENDENCY_DEPTH
         && BaseAfter(g, id, hops).Some?
         && var last := BaseAfter(g, id, hops).value;
         && last in plan.topologicalEntryIds[..i + 1] && last in g.nodes && g.nodes[last].encoding == "full"
  }

  lemma RequiredIsDecodable(entryIdOf: Node -> string, plan: Plan, required: set<string>, oid: string)
    requires AcceptedPlan(entryIdOf, plan, required) && oid in required
    ensures exists i :: 0 <= i < |plan.topologicalEntryIds| && HoldsDecodable(plan, i, oid)
  {
    var g := GraphOf(plan.physicalNodes, plan.dependencies);
    var id :| id in g.nodes && g.nodes[id].oid == oid;
    assert id in Elements(plan.topologicalEntryIds);
    var i := IndexIn(plan.topologicalEntryIds, id);
    DecodesFromEarlierEntries(entryIdOf, plan, required, i);
    assert HoldsDecodable(plan, i, oid);
  }

  /** The frontier is among the roots the prerequisite pack was built for, and so
      is every old tip. */
  lemma PrerequisitesCoverTheFrontier(entryIdOf: Node -> string, m: ClosureManifest, r: Request, p: Problem,
                                      proof: ClosureProof, planSha256: string)
    requires Agreed(entryIdOf, m, r, p, proof, planSha256)
    ensures Frontier(p) + OldTips(r.commands) <= Elements(m.prerequisiteOids)
    ensures Elements(m.prerequisiteOids) - Frontier(p) - OldTips(r.commands) ==
            Elements(m.thinDeltaBaseOids) - OldTips(r.commands)
  {
    RootsAreTheUnion(m, r, Frontier(p));
  }

  lemma RootsAreTheUnion(m: ClosureManifest, r: Request, frontier: set<string>)
    requires RootsOk(m, r) && Elements(m.semanticExternalOids) == frontier
    ensures frontier + OldTips(r.commands) <= Elements(m.requiredRootOids)
    ensures Elements(m.requiredRootOids) - frontier - OldTips(r.commands) ==
            Elements(m.thinDeltaBaseOids) - OldTips(r.commands)
  {}

  /** The result is ref-only exactly when every commanded new id was already
      reachable from the advertisement (deletions have none). */
  lemma RefOnlyIff(entryIdOf: Node -> string, m: ClosureManifest, r: Request, p: Problem, proof: ClosureProof,
                   planSha256: string)
    requires Agreed(entryIdOf, m, r, p, proof, planSha256)
    ensures m.closure.visitedIncoming == 0 <==>
            forall i :: 0 <= i < |r.commands| && !IsZeroOid(r.commands[i].newOid) ==>
                r.commands[i].newOid in m.advertisedReachableOids
  {
    TipsWithin(r.commands, p.boundary);
    NothingIncomingIff(p);
  }

  lemma TipsWithin(commands: seq<ReceiveCommand>, boundary: set<string>)
    ensures Elements(Tips(commands)) <= boundary <==>
            forall i :: 0 <= i < |commands| && !IsZeroOid(commands[i].newOid) ==> commands[i].newOid in boundary
  {
    forall i | 0 <= i < |commands| && !IsZeroOid(commands[i].newOid)
      ensures commands[i].newOid in Elements(Tips(commands))
    {
      TipsAreNewOids(commands, commands[i].newOid);
    }
    forall oid | oid in Elements(Tips(commands))
      ensures exists i :: 0 <= i < |commands| && !IsZeroOid(commands[i].newOid) && commands[i].newOid == oid
    {
      TipsAreNewOids(commands, oid);
    }
  }

  /** Nothing new arrives exactly when every tip is a boundary object. */
  lemma NothingIncomingIff(p: Problem)
    ensures Incoming(p) == {} <==> Elements(p.roots) <= p.boundary
  {
    forall oid | oid in p.roots ensures oid in ReachedSet(p) {
      RootsReached(p, oid);
      InReachedSet(p, oid);
    }
    if Elements(p.roots) <= p.boundary {
      assert Closed(p, Elements(p.roots));
      forall oid | oid in ReachedSet(p) ensures oid in p.boundary {
        var path :| IsPath(p, path) && path[|path| - 1] == oid;
        PathsStayWithin(p, Elements(p.roots), path);
      }
    } else {
      var oid :| oid in Elements(p.roots) && oid !in p.boundary;
      assert oid in Incoming(p);
    }
  }

  /** The manifest's own type counts add up as integers exactly when their sum
      does not leave 64 bits; the edge counts always do. */
  lemma CountsAddUpIff(c: ClosureCounts)
    requires CountsOk(c)
    ensures c.commits + c.trees + c.blobs + c.tags == c.visitedIncoming <==>
            c.commits + c.trees + c.blobs + c.tags < 0x8000_0000_0000_0000
    ensures c.commits + c.trees + c.blobs + c.tags != c.visitedIncoming ==>
              c.commits + c.trees + c.blobs + c.tags == c.visitedIncoming + 0x1_0000_0000_0000_0000
    ensures c.internalEdges + c.externalEdges == c.logicalEdges
  {}

  /** Counts whose sum does leave 64 bits can pass the manifest's check. */
  lemma WrappedTypeCountsPass()
    ensures CountsOk(ClosureCounts(0, 0, 0, 0, 0, 0,
              0x4000_0000_0000_0000, 0x4000_0000_0000_0000, 0x4000_0000_0000_0000, 0x4000_0000_0000_0000))
  {
    assert Wrap(0x1_0000_0000_0000_0000) == 0;
  }

  /** Once manifest and proof are both accepted, every count is the true one, so
      none has wrapped. */
  lemma AgreedCountsAreTrue(entryIdOf: Node -> string, m: ClosureManifest, r: Request, p: Problem,
                            proof: ClosureProof, planSha256: string)
    requires Agreed(entryIdOf, m, r, p, proof, planSha256)
    ensures m.closure.visitedIncoming == |Incoming(p)|
    ensures m.closure.commits == |OfType(p, Incoming(p), "commit")|
            && m.closure.trees == |OfType(p, Incoming(p), "tree")|
    ensures m.closure.blobs == |OfType(p, Incoming(p), "blob")| && m.closure.tags == |OfType(p, Incoming(p), "tag")|
    ensures m.closure.logicalEdges == Sum(Incoming(p), EdgeWeights(p))
    ensures m.closure.externalEdges == Sum(Incoming(p), ExternalWeights(p))
    ensures m.closure.commits + m.closure.trees + m.closure.blobs + m.closure.tags == m.closure.visitedIncoming
    ensures m.closure.internalEdges + m.closure.externalEdges == m.closure.logicalEdges
  {
    forall oid | oid in Incoming(p) ensures WellTyped(p.store, oid) {
      InReachedSet(p, oid);
      assert Fine(p, oid);
    }
    TypesPartition(p, Incoming(p));
  }

  lemma TypesPartition(p: Problem, s: set<string>)
    requires forall oid :: oid in s ==> WellTyped(p.store, oid)
    ensures |s| == |OfType(p, s, "commit")| + |OfType(p, s, "tree")| + |OfType(p, s, "blob")| + |OfType(p, s, "tag")|
  {
    var c, t, b, g := OfType(p, s, "commit"), OfType(p, s, "tree"), OfType(p, s, "blob"), OfType(p, s, "tag");
    assert "tree"[0] != "blob"[0];
    assert c !! t && c !! b && c !! g && t !! b && t !! g && b !! g;
    forall oid | oid in s ensures oid in c + t + b + g {
      assert WellTyped(p.store, oid);
    }
    assert s == c + t + b + g;
  }
}
