/** The dependencies of a receive plan: each delta bound to one base of the right
    kind, in canonical order, and the base graph they make. */
module PlanDependencies {
  import opened Options
  import opened Ordering
  import opened PhysicalNode
  import opened BaseForest
  import opened Topology
  import opened PlanEntries

  predicate DependencyOk(nodes: map<string, Node>, d: Dependency) {
    && d.dependent in nodes && d.base in nodes && d.dependent != d.base
    && var dependent, base := nodes[d.dependent], nodes[d.base];
    && dependent.baseEntryId == base.entryId && dependent.baseOid == base.oid
    && match d.kind {
         case "ofs" =>
           && dependent.encoding == "ofs-delta" && d.baseOffset == Some(base.offset)
           && base.offset < dependent.offset && d.baseOid == ""
         case "ref" =>
           && dependent.encoding == "ref-delta" && d.baseOffset.None? && d.baseOid == base.oid
         case _ => false
       }
  }

  ghost predicate DistinctDependents(ds: seq<Dependency>) {
    forall i, j :: 0 <= i < j < |ds| ==> ds[i].dependent != ds[j].dependent
  }

  ghost predicate DependenciesOk(nodes: map<string, Node>, ds: seq<Dependency>) {
    && (forall i :: 0 <= i < |ds| ==> DependencyOk(nodes, ds[i]))
    && DistinctDependents(ds)
    && StrictlySorted((a: Dependency, b: Dependency) => DependencyLess(nodes, a, b), ds)
  }

  function BaseMap(ds: seq<Dependency>): map<string, string> {
    if ds == [] then map[]
    else BaseMap(ds[..|ds| - 1])[ds[|ds| - 1].dependent := ds[|ds| - 1].base]
  }

  lemma {:induction false} BaseMapLookup(ds: seq<Dependency>)
    requires DistinctDependents(ds)
    ensures forall i :: 0 <= i < |ds| ==> ds[i].dependent in BaseMap(ds) && BaseMap(ds)[ds[i].dependent] == ds[i].base
    ensures forall d :: d in BaseMap(ds) ==> exists i :: 0 <= i < |ds| && ds[i].dependent == d
  {
    if ds != [] {
      var front := ds[..|ds| - 1];
      BaseMapLookup(front);
      forall d | d in BaseMap(ds) ensures exists i :: 0 <= i < |ds| && ds[i].dependent == d {
        if d in BaseMap(front) {
          var i :| 0 <= i < |front| && front[i].dependent == d;
          assert ds[i].dependent == d;
        } else {
          assert ds[|ds| - 1].dependent == d;
        }
      }
    }
  }

  lemma NoTie(nodes: map<string, Node>, a: Dependency, b: Dependency)
    requires IdLess(nodes, a.dependent, b.dependent) || IdLess(nodes, b.dependent, a.dependent)
    ensures DependencyLess(nodes, a, b) || DependencyLess(nodes, b, a)
  {
    CompareDependenciesSigns(nodes, a, b);
    CompareNodesSigns(Lookup(nodes, a.dependent), Lookup(nodes, b.dependent));
  }

  /** Distinct dependents have distinct keys, so a sorted listing has no ties. */
  lemma NoTies(nodes: map<string, Node>, ds: seq<Dependency>)
    requires forall a, b :: a in nodes && b in nodes && a != b ==> IdLess(nodes, a, b) || IdLess(nodes, b, a)
    requires forall i :: 0 <= i < |ds| ==> ds[i].dependent in nodes
    requires DistinctDependents(ds)
    requires SortedBy((a: Dependency, b: Dependency) => DependencyLess(nodes, a, b), ds)
    ensures StrictlySorted((a: Dependency, b: Dependency) => DependencyLess(nodes, a, b), ds)
  {
    var less := (a: Dependency, b: Dependency) => DependencyLess(nodes, a, b);
    forall i, j | 0 <= i < j < |ds| ensures less(ds[i], ds[j]) {
      assert !less(ds[j], ds[i]);
      NoTie(nodes, ds[i], ds[j]);
    }
  }

  lemma FreshDependent(ds: seq<Dependency>, i: nat)
    requires i < |ds| && DistinctDependents(ds[..i])
    ensures ds[i].dependent !in BaseMap(ds[..i]) ==>
              DistinctDependents(ds[..i + 1]) && BaseMap(ds[..i + 1]) == BaseMap(ds[..i])[ds[i].dependent := ds[i].base]
    ensures ds[i].dependent in BaseMap(ds[..i]) ==> !DistinctDependents(ds)
  {
    var front := ds[..i];
    BaseMapLookup(front);
    if ds[i].dependent in BaseMap(front) {
      var k :| 0 <= k < i && front[k].dependent == ds[i].dependent;
      assert ds[k].dependent == ds[i].dependent;
    } else {
      assert ds[..i + 1] == front + [ds[i]];
      assert (front + [ds[i]])[..i] == front;
      forall a, b | 0 <= a < b < i + 1 ensures ds[a].dependent != ds[b].dependent {
        assert front[a] == ds[a];
        if b < i { assert front[b] == ds[b]; }
      }
    }
  }

  /** Records each dependent's base; refuses a bad binding or a second base. */
  method CollectBases(nodes: map<string, Node>, ds: seq<Dependency>) returns (base: Option<map<string, string>>)
    ensures base.Some? <==> (forall i :: 0 <= i < |ds| ==> DependencyOk(nodes, ds[i])) && DistinctDependents(ds)
    ensures base.Some? ==> base.value == BaseMap(ds)
  {
    var found: map<string, string> := map[];
    for i := 0 to |ds|
      invariant forall k :: 0 <= k < i ==> DependencyOk(nodes, ds[k])
      invariant DistinctDependents(ds[..i])
      invariant found == BaseMap(ds[..i])
    {
      var d := ds[i];
      FreshDependent(ds, i);
      if !DependencyOk(nodes, d) || d.dependent in found {
        return None;
      }
      found := found[d.dependent := d.base];
    }
    assert ds[..|ds|] == ds;
    base := Some(found);
  }

  method CollectDependencies(nodes: map<string, Node>, ds: seq<Dependency>) returns (base: Option<map<string, string>>)
    requires forall a, b :: a in nodes && b in nodes && a != b ==> IdLess(nodes, a, b) || IdLess(nodes, b, a)
    ensures base.Some? <==> DependenciesOk(nodes, ds)
    ensures base.Some? ==> base.value == BaseMap(ds)
  {
    var less := (a: Dependency, b: Dependency) => DependencyLess(nodes, a, b);
    DependencyOrder(nodes);
    var canonical := SortSlice(less, ds);
    if canonical != ds {
      if DependenciesOk(nodes, ds) { SortedUnique(less, ds, canonical); }
      return None;
    }
    base := CollectBases(nodes, ds);
    if base.Some? { NoTies(nodes, ds); }
  }

  /** Full entries have no base at all; every delta has one. */
  ghost predicate BasesMatchEncodings(g: Graph) {
    forall id :: id in g.nodes ==>
      && (g.nodes[id].encoding == "full" <==> id !in g.base)
      && (g.nodes[id].encoding == "full" ==> g.nodes[id].baseEntryId == "" && g.nodes[id].baseOid == "")
  }

  method CheckCardinality(g: Graph, ns: seq<Node>) returns (ok: bool)
    requires DistinctIds(ns) && g.nodes == NodeMap(ns)
    ensures ok <==> BasesMatchEncodings(g)
  {
    NodeMapLookup(ns);
    for i := 0 to |ns|
      invariant forall k :: 0 <= k < i ==>
        && (ns[k].encoding == "full" <==> ns[k].entryId !in g.base)
        && (ns[k].encoding == "full" ==> ns[k].baseEntryId == "" && ns[k].baseOid == "")
    {
      var n := ns[i];
      var hasDependency := n.entryId in g.base;
      if (n.encoding == "full") != !hasDependency
          || (n.encoding == "full" && (n.baseEntryId != "" || n.baseOid != ""))
      {
        assert g.nodes[n.entryId] == n;
        return false;
      }
    }
    ok := true;
  }

  /** Keys of sorted entries are distinct, so the canonical order is total on ids. */
  lemma IdsComparable(ns: seq<Node>, a: string, b: string)
    requires StrictlySorted(NodeLess, ns) && DistinctIds(ns)
    requires a in NodeMap(ns) && b in NodeMap(ns) && a != b
    ensures IdLess(NodeMap(ns), a, b) || IdLess(NodeMap(ns), b, a)
  {
    var i := NodeMapSource(ns, a);
    var j := NodeMapSource(ns, b);
    assert if i < j then NodeLess(ns[i], ns[j]) else NodeLess(ns[j], ns[i]);
  }

  lemma BasesWellFormed(nodes: map<string, Node>, ds: seq<Dependency>)
    requires forall i :: 0 <= i < |ds| ==>
             ds[i].dependent in nodes && ds[i].base in nodes && ds[i].base != ds[i].dependent
    requires DistinctDependents(ds)
    ensures forall d :: d in BaseMap(ds) ==> d in nodes && BaseMap(ds)[d] in nodes && BaseMap(ds)[d] != d
    ensures Lists(Graph(nodes, BaseMap(ds)), ds)
  {
    BaseMapLookup(ds);
  }

  lemma GraphWellFormed(entryIdOf: Node -> string, required: set<string>, ns: seq<Node>, ds: seq<Dependency>)
    requires NodesOk(entryIdOf, required, ns)
    ensures forall a, b :: a in NodeMap(ns) && b in NodeMap(ns) && a != b ==>
            IdLess(NodeMap(ns), a, b) || IdLess(NodeMap(ns), b, a)
    ensures DependenciesOk(NodeMap(ns), ds) ==> WellFormed(GraphOf(ns, ds)) && Lists(GraphOf(ns, ds), ds)
  {
    forall a, b | a in NodeMap(ns) && b in NodeMap(ns) && a != b
      ensures IdLess(NodeMap(ns), a, b) || IdLess(NodeMap(ns), b, a)
    {
      IdsComparable(ns, a, b);
    }
    if DependenciesOk(NodeMap(ns), ds) {
      assert forall i :: 0 <= i < |ds| ==> DependencyOk(NodeMap(ns), ds[i]);
      BasesWellFormed(NodeMap(ns), ds);
    }
  }

  function GraphOf(ns: seq<Node>, ds: seq<Dependency>): Graph {
    Graph(NodeMap(ns), BaseMap(ds))
  }
}
