/** The planner's topological sort: a list of ready entries, re-sorted after
    each step, from which the first is taken. */
module Topology {
  import opened Options
  import opened Ordering
  import opened PhysicalNode
  import opened BaseForest

  ghost function Dependents(g: Graph, id: string): set<string> {
    set d | d in g.base && g.base[d] == id
  }

  /** The listing the loops read: one dependency per dependent. */
  ghost predicate Lists(g: Graph, dependencies: seq<Dependency>) {
    && (forall i, j :: 0 <= i < j < |dependencies| ==> dependencies[i].dependent != dependencies[j].dependent)
    && (forall i :: 0 <= i < |dependencies| ==>
          dependencies[i].dependent in g.base && g.base[dependencies[i].dependent] == dependencies[i].base)
    && (forall d :: d in g.base ==> exists i :: 0 <= i < |dependencies| && dependencies[i].dependent == d)
  }

  ghost predicate ChildrenUpTo(dependencies: seq<Dependency>, n: nat, children: map<string, seq<string>>)
    requires n <= |dependencies|
  {
    && (forall b :: b in children ==> Distinct(children[b]))
    && (forall b, d :: b in children && d in children[b] ==>
          exists i :: 0 <= i < n && dependencies[i].dependent == d && dependencies[i].base == b)
    && (forall i :: 0 <= i < n ==>
          dependencies[i].base in children && dependencies[i].dependent in children[dependencies[i].base])
  }

  method CollectChildren(ghost g: Graph, dependencies: seq<Dependency>) returns (children: map<string, seq<string>>)
    requires Lists(g, dependencies)
    ensures forall b :: b in children ==> Distinct(children[b]) && Elements(children[b]) == Dependents(g, b)
    ensures forall d :: d in g.base ==> g.base[d] in children
  {
    children := map[];
    for i := 0 to |dependencies|
      invariant ChildrenUpTo(dependencies, i, children)
    {
      var d := dependencies[i];
      var prior := if d.base in children then children[d.base] else [];
      NextChild(g, dependencies, i, children);
      children := children[d.base := prior + [d.dependent]];
    }
    ChildrenAreDependents(g, dependencies, children);
  }

  lemma NextChild(g: Graph, dependencies: seq<Dependency>, i: nat, children: map<string, seq<string>>)
    requires Lists(g, dependencies) && i < |dependencies| && ChildrenUpTo(dependencies, i, children)
    ensures var d := dependencies[i];
            var prior := if d.base in children then children[d.base] else [];
            ChildrenUpTo(dependencies, i + 1, children[d.base := prior + [d.dependent]])
  {
    var d := dependencies[i];
    var prior := if d.base in children then children[d.base] else [];
    assert d.dependent !in prior;
    assert forall k :: 0 <= k < |prior| ==> prior[k] in prior;
  }

  lemma ChildrenAreDependents(g: Graph, dependencies: seq<Dependency>, children: map<string, seq<string>>)
    requires Lists(g, dependencies) && ChildrenUpTo(dependencies, |dependencies|, children)
    ensures forall b :: b in children ==> Elements(children[b]) == Dependents(g, b)
    ensures forall d :: d in g.base ==> g.base[d] in children
  {
    forall b | b in children ensures Elements(children[b]) == Dependents(g, b) {
      forall d ensures d in children[b] <==> d in Dependents(g, b) {
        if d in g.base {
          var i :| 0 <= i < |dependencies| && dependencies[i].dependent == d;
          assert dependencies[i].base == g.base[d];
        }
      }
    }
    forall d | d in g.base ensures g.base[d] in children {
      var i :| 0 <= i < |dependencies| && dependencies[i].dependent == d;
      assert dependencies[i].base == g.base[d];
    }
  }

  /** Sorting each child list leaves the same children. */
  method SortChildren(nodes: map<string, Node>, children: map<string, seq<string>>)
    returns (r: map<string, seq<string>>)
    ensures r.Keys == children.Keys
    ensures forall b :: b in children ==> multiset(r[b]) == multiset(children[b])
  {
    var less := (a: string, b: string) => IdLess(nodes, a, b);
    IdOrder(nodes);
    r := children;
    var todo := children.Keys;
    while todo != {}
      invariant r.Keys == children.Keys && todo <= children.Keys
      invariant forall b :: b in children ==> multiset(r[b]) == multiset(children[b])
    {
      var b :| b in todo;
      var sorted := SortSlice(less, r[b]);
      r := r[b := sorted];
      todo := todo - {b};
    }
  }

  /** The entries without a base, collected in whatever order the map yields them. */
  method CollectReady(g: Graph) returns (ready: seq<string>)
    requires WellFormed(g)
    ensures Distinct(ready) && Elements(ready) == Available(g, {})
  {
    ready := [];
    var todo := g.nodes.Keys;
    while todo != {}
      invariant todo <= g.nodes.Keys
      invariant Distinct(ready)
      invariant Elements(ready) == (set v | v in g.nodes && v !in todo && v !in g.base)
    {
      var id :| id in todo;
      assert id !in Elements(ready);
      if id !in g.base {
        ElementsOfAppend(ready, id);
        ready := ready + [id];
      }
      todo := todo - {id};
    }
  }

  /** Emitting `x` frees exactly its dependents. */
  lemma AvailableAfter(g: Graph, done: set<string>, x: string)
    requires WellFormed(g) && x in Available(g, done)
    ensures Available(g, done + {x}) == (Available(g, done) - {x}) + (Dependents(g, x) - done)
    ensures Dependents(g, x) !! Available(g, done)
  {}

  /** A node that is not emitted frees no one, so its dependents are not emitted either. */
  lemma DependentsNotEmitted(g: Graph, order: seq<string>, x: string)
    requires GreedyPrefix(g, order) && x !in order
    ensures Dependents(g, x) !! Elements(order)
  {
    forall d | d in order ensures d !in Dependents(g, x) {
      var i := IndexIn(order, d);
      assert LeastOf(g, order[i], Available(g, Elements(order[..i])));
      assert x !in order[..i];
    }
  }

  lemma HeadIsLeast(g: Graph, ready: seq<string>, done: set<string>)
    requires WellFormed(g) && ready != [] && Distinct(ready) && Elements(ready) == Available(g, done)
    requires SortedBy((a: string, b: string) => IdLess(g.nodes, a, b), ready)
    ensures LeastOf(g, ready[0], Available(g, done))
  {
    assert ready[0] in Elements(ready);
    forall u | u in Available(g, done) && u != ready[0] ensures IdLess(g.nodes, ready[0], u) {
      assert u in Elements(ready);
      var j := IndexIn(ready, u);
      assert !IdLess(g.nodes, ready[j], ready[0]);
    }
  }

  lemma GreedyExtend(g: Graph, order: seq<string>, x: string)
    requires GreedyPrefix(g, order) && LeastOf(g, x, Available(g, Elements(order)))
    ensures GreedyPrefix(g, order + [x])
  {
    var longer := order + [x];
    forall i | 0 <= i < |longer| ensures LeastOf(g, longer[i], Available(g, Elements(longer[..i]))) {
      if i < |order| {
        assert longer[..i] == order[..i];
        assert LeastOf(g, order[i], Available(g, Elements(order[..i])));
      } else {
        assert longer[..i] == order;
      }
    }
  }

  lemma NextReady(g: Graph, order: seq<string>, ready: seq<string>, freed: seq<string>)
    requires WellFormed(g) && GreedyPrefix(g, order) && ready != []
    requires Distinct(ready) && Elements(ready) == Available(g, Elements(order))
    requires Distinct(freed) && Elements(freed) == Dependents(g, ready[0])
    ensures Distinct(ready[1..] + freed)
    ensures Elements(ready[1..] + freed) == Available(g, Elements(order + [ready[0]]))
  {
    var x := ready[0];
    assert x in Elements(ready);
    AvailableAfter(g, Elements(order), x);
    DependentsNotEmitted(g, order, x);
    ElementsOfAppend(order, x);
    assert Elements(ready[1..]) == Elements(ready) - {x} by {
      assert ready == [x] + ready[1..];
      assert x !in ready[1..];
    }
    assert Elements(ready[1..] + freed) == Elements(ready[1..]) + Elements(freed);
    forall i, j | 0 <= i < j < |ready[1..] + freed| ensures (ready[1..] + freed)[i] != (ready[1..] + freed)[j] {
      if i < |ready[1..]| <= j {
        assert ready[1..][i] in Elements(ready);
        assert freed[j - |ready[1..]|] in Elements(freed);
      }
    }
  }

  /** Emits every node once, always the least whose base is out already. The
      result does not depend on the order in which maps are iterated. */
  method SortTopologically(g: Graph, dependencies: seq<Dependency>) returns (order: seq<string>)
    requires WellFormed(g) && Lists(g, dependencies)
    ensures Greedy(g, order)
  {
    var less := (a: string, b: string) => IdLess(g.nodes, a, b);
    IdOrder(g.nodes);
    var ready := CollectReady(g);
    var unsorted := CollectChildren(g, dependencies);
    var children := SortChildren(g.nodes, unsorted);
    var sorted := SortSlice(less, ready);
    MultisetElements(ready, sorted);
    MultisetDistinct(ready, sorted);
    ready := sorted;
    order := [];
    while ready != []
      invariant GreedyPrefix(g, order)
      invariant Distinct(ready) && Elements(ready) == Available(g, Elements(order))
      invariant SortedBy(less, ready)
      decreases |g.nodes| - |order|
    {
      HeadIsLeast(g, ready, Elements(order));
      var x := ready[0];
      var freed := if x in children then children[x] else [];
      if x in children {
        MultisetElements(children[x], unsorted[x]);
        MultisetDistinct(children[x], unsorted[x]);
      }
      assert Elements(freed) == Dependents(g, x);
      NextReady(g, order, ready, freed);
      GreedyExtend(g, order, x);
      FitsIn(g, order + [x]);
      sorted := SortSlice(less, ready[1..] + freed);
      MultisetElements(ready[1..] + freed, sorted);
      MultisetDistinct(ready[1..] + freed, sorted);
      order := order + [x];
      ready := sorted;
    }
  }

  lemma FitsIn(g: Graph, order: seq<string>)
    requires GreedyPrefix(g, order)
    ensures |order| <= |g.nodes|
  {
    GreedyDistinct(g, order);
    DistinctCardinality(order);
    SubsetCardinality(Elements(order), g.nodes.Keys);
  }

  // ---------- Checks against the submitted order ----------

  /** Accepts exactly the canonical order, whichever maps were used to find it. */
  method CheckTopology(g: Graph, dependencies: seq<Dependency>, order: seq<string>) returns (ok: bool)
    requires WellFormed(g) && Lists(g, dependencies) && |order| == |g.nodes|
    ensures ok <==> CanonicalOrder(g, order)
  {
    var baseFirst := CheckBaseFirst(g, dependencies, order);
    if !baseFirst {
      return false;
    }
    var canonical := SortTopologically(g, dependencies);
    GreedyIsCanonical(g, canonical, order);
    if CanonicalOrder(g, order) { CanonicalOrderUnique(g, canonical, order); }
    ok := canonical == order;
  }

  ghost predicate IndexOf(order: seq<string>, n: nat, index: map<string, nat>)
    requires n <= |order|
  {
    && index.Keys == Elements(order[..n])
    && (forall id :: id in index ==> index[id] < n && order[index[id]] == id)
  }

  method IndexTopology(g: Graph, order: seq<string>) returns (index: Option<map<string, nat>>)
    requires |order| == |g.nodes|
    ensures index.Some? <==> Distinct(order) && Elements(order) == g.nodes.Keys
    ensures index.Some? ==> IndexOf(order, |order|, index.value)
  {
    var at: map<string, nat> := map[];
    for i := 0 to |order|
      invariant Elements(order[..i]) <= g.nodes.Keys
      invariant Distinct(order[..i])
      invariant IndexOf(order, i, at)
    {
      var id := order[i];
      ElementsOfPrefix(order, i);
      if id !in g.nodes {
        assert id in Elements(order);
        return None;
      }
      if id in at {
        assert order[at[id]] == order[i];
        return None;
      }
      at := at[id := i];
      assert order[..i + 1] == order[..i] + [id];
    }
    assert order[..|order|] == order;
    DistinctCardinality(order);
    SubsetCardinality(Elements(order), g.nodes.Keys);
    index := Some(at);
  }

  ghost predicate BaseEarlier(index: map<string, nat>, d: Dependency) {
    d.base in index && d.dependent in index && index[d.base] < index[d.dependent]
  }

  lemma IndicesDecide(g: Graph, dependencies: seq<Dependency>, order: seq<string>, index: map<string, nat>)
    requires Lists(g, dependencies) && Distinct(order) && Elements(order) == g.nodes.Keys
    requires IndexOf(order, |order|, index)
    requires forall k :: 0 <= k < |dependencies| ==> BaseEarlier(index, dependencies[k])
    ensures BaseFirst(g, order)
  {
    assert order[..|order|] == order;
    forall i | 0 <= i < |order| ensures BaseBefore(g, order, i) {
      if order[i] in g.base {
        var k :| 0 <= k < |dependencies| && dependencies[k].dependent == order[i];
        assert BaseEarlier(index, dependencies[k]);
        var j := index[dependencies[k].base];
        assert order[index[order[i]]] == order[i];
        assert order[..i][j] == g.base[order[i]];
      }
    }
  }

  lemma BaseFirstIndices(g: Graph, order: seq<string>, index: map<string, nat>, d: Dependency)
    requires WellFormed(g) && BaseFirst(g, order) && IndexOf(order, |order|, index)
    requires d.dependent in g.base && g.base[d.dependent] == d.base
    ensures BaseEarlier(index, d)
  {
    assert order[..|order|] == order;
    var i := index[d.dependent];
    assert BaseBefore(g, order, i);
    var j := IndexIn(order[..i], d.base);
    assert order[j] == order[index[d.base]];
  }

  method CheckBaseFirst(g: Graph, dependencies: seq<Dependency>, order: seq<string>) returns (ok: bool)
    requires WellFormed(g) && Lists(g, dependencies) && |order| == |g.nodes|
    ensures ok <==> BaseFirst(g, order)
  {
    var index := IndexTopology(g, order);
    if index.None? {
      return false;
    }
    ListedAreIndexed(g, dependencies, order, index.value);
    ok := CompareIndices(dependencies, index.value);
    if ok {
      IndicesDecide(g, dependencies, order, index.value);
    } else if BaseFirst(g, order) {
      forall k | 0 <= k < |dependencies| ensures BaseEarlier(index.value, dependencies[k]) {
        BaseFirstIndices(g, order, index.value, dependencies[k]);
      }
    }
  }

  lemma ListedAreIndexed(g: Graph, dependencies: seq<Dependency>, order: seq<string>, index: map<string, nat>)
    requires WellFormed(g) && Lists(g, dependencies)
    requires Elements(order) == g.nodes.Keys && IndexOf(order, |order|, index)
    ensures forall k :: 0 <= k < |dependencies| ==> dependencies[k].base in index && dependencies[k].dependent in index
  {
    assert order[..|order|] == order;
  }

  method CompareIndices(dependencies: seq<Dependency>, index: map<string, nat>) returns (ok: bool)
    requires forall k :: 0 <= k < |dependencies| ==> dependencies[k].base in index && dependencies[k].dependent in index
    ensures ok <==> forall k :: 0 <= k < |dependencies| ==> BaseEarlier(index, dependencies[k])
  {
    for k := 0 to |dependencies|
      invariant forall j :: 0 <= j < k ==> BaseEarlier(index, dependencies[j])
    {
      if index[dependencies[k].base] >= index[dependencies[k].dependent] {
        assert !BaseEarlier(index, dependencies[k]);
        return false;
      }
    }
    ok := true;
  }

  const MAX_PHYSICAL_NODES := 256
  const MAX_DEPENDENCY_DEPTH := 255

  /** Every chain from every node ends within the depth limit; in particular
      there is no cycle. */
  ghost predicate Shallow(g: Graph) {
    forall id :: id in g.nodes ==> BaseAfter(g, id, MAX_DEPENDENCY_DEPTH + 1).None?
  }

  lemma {:induction false} ChainSplit(g: Graph, id: string, a: nat, b: nat)
    ensures BaseAfter(g, id, a + b) ==
            if BaseAfter(g, id, a).Some? then BaseAfter(g, BaseAfter(g, id, a).value, b) else None
    decreases a
  {
    if a > 0 && id in g.base {
      ChainSplit(g, g.base[id], a - 1, b);
    }
  }

  lemma {:induction false} CycleNeverEnds(g: Graph, id: string, period: nat, hops: nat)
    requires period > 0 && BaseAfter(g, id, period) == Some(id)
    ensures BaseAfter(g, id, hops).Some?
    decreases hops
  {
    if hops < period {
      ChainSplit(g, id, hops, period - hops);
    } else {
      CycleNeverEnds(g, id, period, hops - period);
      ChainSplit(g, id, period, hops - period);
    }
  }

  /** Follows one chain, remembering what it has met. */
  method ChainEndsInTime(g: Graph, id: string) returns (ok: bool)
    ensures ok <==> BaseAfter(g, id, MAX_DEPENDENCY_DEPTH + 1).None?
  {
    var seen: set<string> := {};
    var current := id;
    var depth := 0;
    while current in g.base
      invariant 0 <= depth <= MAX_DEPENDENCY_DEPTH
      invariant BaseAfter(g, id, depth) == Some(current)
      invariant forall s :: s in seen ==> exists k: nat :: k < depth && BaseAfter(g, id, k) == Some(s)
      decreases MAX_DEPENDENCY_DEPTH + 1 - depth
    {
      if current in seen || depth >= MAX_DEPENDENCY_DEPTH {
        OneMoreHop(g, id, depth);
        if current in seen {
          ghost var k: nat :| k < depth && BaseAfter(g, id, k) == Some(current);
          ChainSplit(g, id, k, depth - k);
          CycleNeverEnds(g, current, depth - k, MAX_DEPENDENCY_DEPTH + 1 - k);
          ChainSplit(g, id, k, MAX_DEPENDENCY_DEPTH + 1 - k);
        } else {
          assert depth + 1 == MAX_DEPENDENCY_DEPTH + 1;
        }
        return false;
      }
      OneMoreHop(g, id, depth);
      seen := seen + {current};
      current := g.base[current];
      depth := depth + 1;
    }
    ChainSplit(g, id, depth, MAX_DEPENDENCY_DEPTH + 1 - depth);
    ok := true;
  }

  method CheckDepth(g: Graph) returns (ok: bool)
    ensures ok <==> Shallow(g)
  {
    var todo := g.nodes.Keys;
    while todo != {}
      invariant todo <= g.nodes.Keys
      invariant forall id :: id in g.nodes && id !in todo ==> BaseAfter(g, id, MAX_DEPENDENCY_DEPTH + 1).None?
    {
      var id :| id in todo;
      ok := ChainEndsInTime(g, id);
      if !ok {
        return false;
      }
      todo := todo - {id};
    }
    ok := true;
  }

  /** After the topology check on at most 256 entries, the cycle and depth
      rejection can no longer fire. */
  lemma BaseFirstIsShallow(g: Graph, order: seq<string>)
    requires WellFormed(g) && BaseFirst(g, order) && |order| <= MAX_PHYSICAL_NODES
    ensures Shallow(g)
  {
    forall id | id in g.nodes ensures BaseAfter(g, id, MAX_DEPENDENCY_DEPTH + 1).None? {
      assert id in Elements(order);
      var i := IndexIn(order, id);
      if BaseAfter(g, id, MAX_DEPENDENCY_DEPTH + 1).Some? {
        ChainIsShort(g, order, i, MAX_DEPENDENCY_DEPTH + 1);
      }
    }
  }
}
