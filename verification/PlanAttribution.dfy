/** Which required objects each entry of a receive plan serves. */
module PlanAttribution {
  import opened Ordering
  import opened PhysicalNode
  import opened BaseForest
  import opened Topology
  import opened PlanEntries

  ghost function ListedRoots(g: Graph): map<string, set<string>> {
    map id | id in g.nodes :: Elements(g.nodes[id].semanticRootOids)
  }

  /** Roots passed on to `id` by the first `k` dependencies. */
  ghost predicate Inherits(g: Graph, ds: seq<Dependency>, id: string, k: nat, oid: string)
    requires k <= |ds|
  {
    exists i :: 0 <= i < k && ds[i].base == id && ds[i].dependent in g.nodes
        && oid in g.nodes[ds[i].dependent].semanticRootOids
  }

  method InheritedRoots(g: Graph, ds: seq<Dependency>, id: string) returns (inherited: set<string>)
    requires forall i :: 0 <= i < |ds| ==> ds[i].dependent in g.nodes
    ensures forall oid :: oid in inherited <==> Inherits(g, ds, id, |ds|, oid)
  {
    inherited := {};
    for i := 0 to |ds|
      invariant forall oid :: oid in inherited <==> Inherits(g, ds, id, i, oid)
    {
      if ds[i].base == id {
        inherited := inherited + set oid | oid in g.nodes[ds[i].dependent].semanticRootOids;
      }
    }
  }

  method ExpectedRoots(g: Graph, required: set<string>, ds: seq<Dependency>, n: Node) returns (expected: set<string>)
    requires WellFormed(g) && Lists(g, ds) && n.entryId in g.nodes && g.nodes[n.entryId] == n
    ensures expected == LocalRoots(g, required, ListedRoots(g), n.entryId)
  {
    var own := if n.oid in required then {n.oid} else {};
    var inherited := InheritedRoots(g, ds, n.entryId);
    expected := own + inherited;
    forall oid ensures oid in expected <==> oid in LocalRoots(g, required, ListedRoots(g), n.entryId) {
      InLocalRoots(g, required, ListedRoots(g), n.entryId, oid);
      InheritsFromDependents(g, ds, n.entryId, oid);
    }
  }

  lemma InheritsFromDependents(g: Graph, ds: seq<Dependency>, id: string, oid: string)
    requires WellFormed(g) && Lists(g, ds)
    ensures Inherits(g, ds, id, |ds|, oid) <==> exists d :: d in g.base && g.base[d] == id && oid in ListedRoots(g)[d]
  {
    if d :| d in g.base && g.base[d] == id && oid in ListedRoots(g)[d] {
      var i :| 0 <= i < |ds| && ds[i].dependent == d;
      assert ds[i].base == id;
    }
  }

  method CheckAttribution(g: Graph, required: set<string>, ns: seq<Node>, ds: seq<Dependency>) returns (ok: bool)
    requires WellFormed(g) && Lists(g, ds) && DistinctIds(ns) && g.nodes == NodeMap(ns)
    requires forall i :: 0 <= i < |ns| ==> Distinct(ns[i].semanticRootOids)
    ensures ok <==> LocallyAttributed(g, required, ListedRoots(g))
  {
    NodeMapLookup(ns);
    for i := 0 to |ns|
      invariant forall k :: 0 <= k < i ==>
        Elements(ns[k].semanticRootOids) == LocalRoots(g, required, ListedRoots(g), ns[k].entryId)
    {
      var expected := ExpectedRoots(g, required, ds, ns[i]);
      var same := StringSetEqual(ns[i].semanticRootOids, expected);
      if !same {
        assert ListedRoots(g)[ns[i].entryId] == Elements(ns[i].semanticRootOids);
        return false;
      }
    }
    ok := true;
  }

  /** Every required object is held by some entry that lists it. */
  ghost predicate RootsHeld(g: Graph, required: set<string>) {
    forall oid :: oid in required ==> exists id :: id in g.nodes && g.nodes[id].oid == oid
  }

  ghost predicate HeldAndListed(ns: seq<Node>, oid: string) {
    exists i :: 0 <= i < |ns| && ns[i].oid == oid && oid in ns[i].semanticRootOids
  }

  method CheckRootsHeld(required: set<string>, ns: seq<Node>) returns (ok: bool)
    ensures ok <==> forall oid :: oid in required ==> HeldAndListed(ns, oid)
  {
    var todo := required;
    while todo != {}
      invariant todo <= required
      invariant forall oid :: oid in required && oid !in todo ==> HeldAndListed(ns, oid)
    {
      var oid :| oid in todo;
      var found := false;
      for i := 0 to |ns|
        invariant found <==> HeldAndListed(ns[..i], oid)
      {
        if ns[i].oid == oid && oid in ns[i].semanticRootOids {
          found := true;
          assert ns[..i + 1][i] == ns[i];
        }
        assert HeldAndListed(ns[..i], oid) ==> HeldAndListed(ns[..i + 1], oid) by {
          if k :| 0 <= k < i && ns[..i][k].oid == oid && oid in ns[..i][k].semanticRootOids {
            assert ns[..i + 1][k].oid == oid;
          }
        }
      }
      assert ns[..|ns|] == ns;
      if !found {
        return false;
      }
      todo := todo - {oid};
    }
    ok := true;
  }

  lemma HeldIffListed(g: Graph, required: set<string>, ns: seq<Node>)
    requires WellFormed(g) && DistinctIds(ns) && g.nodes == NodeMap(ns)
    requires LocallyAttributed(g, required, ListedRoots(g))
    ensures RootsHeld(g, required) <==> forall oid :: oid in required ==> HeldAndListed(ns, oid)
  {
    NodeMapLookup(ns);
    if RootsHeld(g, required) {
      forall oid | oid in required ensures HeldAndListed(ns, oid) {
        var id :| id in g.nodes && g.nodes[id].oid == oid;
        InLocalRoots(g, required, ListedRoots(g), id, oid);
        assert oid in ListedRoots(g)[id];
        var i :| 0 <= i < |ns| && ns[i].entryId == id && g.nodes[id] == ns[i];
      }
    }
    if forall oid :: oid in required ==> HeldAndListed(ns, oid) {
      forall oid | oid in required ensures exists id :: id in g.nodes && g.nodes[id].oid == oid {
        assert HeldAndListed(ns, oid);
        var i :| 0 <= i < |ns| && ns[i].oid == oid && oid in ns[i].semanticRootOids;
        assert g.nodes[ns[i].entryId].oid == oid;
      }
    }
  }
}
