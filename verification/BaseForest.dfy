/** The forest of delta bases: each pack entry has at most one base. This file
    states what the planner's local checks are meant to guarantee globally. */
module BaseForest {
  import opened Options
  import opened Ordering
  import opened PhysicalNode

  datatype Graph = Graph(nodes: map<string, Node>, base: map<string, string>)

  ghost predicate WellFormed(g: Graph) {
    && (forall d :: d in g.base ==> d in g.nodes && g.base[d] in g.nodes && g.base[d] != d)
    && (forall a, b :: a in g.nodes && b in g.nodes && a != b ==> IdLess(g.nodes, a, b) || IdLess(g.nodes, b, a))
  }

  lemma LessAsymmetric(g: Graph, a: string, b: string)
    ensures !(IdLess(g.nodes, a, b) && IdLess(g.nodes, b, a))
  {
    CompareNodesSigns(Lookup(g.nodes, a), Lookup(g.nodes, b));
  }

  // ---------- Orders that put bases first ----------

  ghost predicate BaseBefore(g: Graph, order: seq<string>, i: nat)
    requires i < |order|
  {
    order[i] in g.base ==> g.base[order[i]] in order[..i]
  }

  /** A permutation of the nodes in which every base precedes its dependents. */
  ghost predicate BaseFirst(g: Graph, order: seq<string>) {
    && Distinct(order)
    && Elements(order) == g.nodes.Keys
    && (forall i :: 0 <= i < |order| ==> BaseBefore(g, order, i))
  }

  /** Lexicographic order of id sequences under the canonical node order. */
  ghost predicate LexLeq(g: Graph, s: seq<string>, t: seq<string>) {
    || s == t
    || (exists i :: 0 <= i < |s| && i < |t| && s[..i] == t[..i] && IdLess(g.nodes, s[i], t[i]))
  }

  /** The order the planner accepts: the least of all base-first permutations. */
  ghost predicate CanonicalOrder(g: Graph, order: seq<string>) {
    && BaseFirst(g, order)
    && (forall other :: BaseFirst(g, other) ==> LexLeq(g, order, other))
  }

  /** Nodes that may come next once `done` has been emitted. */
  ghost function Available(g: Graph, done: set<string>): set<string> {
    set v | v in g.nodes && v !in done && (v in g.base ==> g.base[v] in done)
  }

  ghost predicate LeastOf(g: Graph, v: string, s: set<string>) {
    v in s && forall u :: u in s && u != v ==> IdLess(g.nodes, v, u)
  }

  /** Every prefix is extended by the least available node. */
  ghost predicate GreedyPrefix(g: Graph, order: seq<string>) {
    forall i :: 0 <= i < |order| ==> LeastOf(g, order[i], Available(g, Elements(order[..i])))
  }

  ghost predicate Greedy(g: Graph, order: seq<string>) {
    GreedyPrefix(g, order) && Available(g, Elements(order)) == {}
  }

  lemma GreedyDistinct(g: Graph, order: seq<string>)
    requires GreedyPrefix(g, order)
    ensures Distinct(order) && Elements(order) <= g.nodes.Keys
  {
    forall i, j | 0 <= i < j < |order| ensures order[i] != order[j] {
      assert LeastOf(g, order[j], Available(g, Elements(order[..j])));
      assert order[i] in order[..j];
    }
    forall v | v in order ensures v in g.nodes {
      var i :| 0 <= i < |order| && order[i] == v;
      assert LeastOf(g, order[i], Available(g, Elements(order[..i])));
    }
  }

  /** If any base-first permutation exists, a greedy order leaves nothing out. */
  lemma GreedyIsBaseFirst(g: Graph, order: seq<string>, witness_: seq<string>)
    requires WellFormed(g) && Greedy(g, order) && BaseFirst(g, witness_)
    ensures BaseFirst(g, order)
  {
    GreedyDistinct(g, order);
    GreedyCovers(g, Elements(order), witness_, |witness_|);
    assert witness_[..|witness_|] == witness_;
    forall i | 0 <= i < |order| ensures BaseBefore(g, order, i) {
      assert LeastOf(g, order[i], Available(g, Elements(order[..i])));
    }
  }

  lemma {:induction false} GreedyCovers(g: Graph, done: set<string>, w: seq<string>, k: nat)
    requires BaseFirst(g, w) && k <= |w| && Available(g, done) == {}
    ensures Elements(w[..k]) <= done
  {
    if k > 0 {
      GreedyCovers(g, done, w, k - 1);
      ElementsOfPrefix(w, k - 1);
      var v := w[k - 1];
      assert v in Elements(w);
      if v in g.base {
        assert BaseBefore(g, w, k - 1);
        assert g.base[v] in Elements(w[..k - 1]);
      }
      assert v !in Available(g, done);
    }
  }

  lemma {:induction false} FirstDifference(s: seq<string>, t: seq<string>) returns (i: nat)
    requires |s| == |t| && s != t
    ensures i < |s| && s[..i] == t[..i] && s[i] != t[i]
  {
    if s[0] != t[0] {
      i := 0;
    } else {
      assert s == [s[0]] + s[1..] && t == [t[0]] + t[1..];
      var k := FirstDifference(s[1..], t[1..]);
      i := k + 1;
      assert s[..i] == [s[0]] + s[1..][..k] && t[..i] == [t[0]] + t[1..][..k];
    }
  }

  lemma SameLength(g: Graph, s: seq<string>, t: seq<string>)
    requires BaseFirst(g, s) && BaseFirst(g, t)
    ensures |s| == |t|
  {
    DistinctCardinality(s);
    DistinctCardinality(t);
  }

  /** In a base-first order each entry is available when its turn comes. */
  lemma NextIsAvailable(g: Graph, t: seq<string>, i: nat)
    requires BaseFirst(g, t) && i < |t|
    ensures t[i] in Available(g, Elements(t[..i]))
  {
    assert t[i] in Elements(t);
    assert t[i] !in t[..i];
    assert BaseBefore(g, t, i);
    if t[i] in g.base { assert g.base[t[i]] in Elements(t[..i]); }
  }

  lemma GreedyIsLeast(g: Graph, order: seq<string>, other: seq<string>)
    requires WellFormed(g) && Greedy(g, order) && BaseFirst(g, other)
    ensures LexLeq(g, order, other)
  {
    GreedyIsBaseFirst(g, order, other);
    if order != other {
      SameLength(g, order, other);
      var i := FirstDifference(order, other);
      NextIsAvailable(g, other, i);
      assert LeastOf(g, order[i], Available(g, Elements(order[..i])));
      assert IdLess(g.nodes, order[i], other[i]);
    }
  }

  /** The greedy order is the canonical one ... */
  lemma GreedyIsCanonical(g: Graph, order: seq<string>, witness_: seq<string>)
    requires WellFormed(g) && Greedy(g, order) && BaseFirst(g, witness_)
    ensures CanonicalOrder(g, order)
  {
    GreedyIsBaseFirst(g, order, witness_);
    forall other | BaseFirst(g, other) ensures LexLeq(g, order, other) {
      GreedyIsLeast(g, order, other);
    }
  }

  /** ... and there is only one canonical order. */
  lemma CanonicalOrderUnique(g: Graph, s: seq<string>, t: seq<string>)
    requires WellFormed(g) && CanonicalOrder(g, s) && CanonicalOrder(g, t)
    ensures s == t
  {
    assert LexLeq(g, s, t) && LexLeq(g, t, s);
    if s != t {
      var i :| 0 <= i < |s| && i < |t| && s[..i] == t[..i] && IdLess(g.nodes, s[i], t[i]);
      var j :| 0 <= j < |t| && j < |s| && t[..j] == s[..j] && IdLess(g.nodes, t[j], s[j]);
      LessAsymmetric(g, s[i], t[i]);
      SharedPrefix(s, t, i, j);
      LessAsymmetric(g, t[i], t[i]);
      LessAsymmetric(g, t[j], t[j]);
    }
  }

  lemma SharedPrefix(s: seq<string>, t: seq<string>, i: nat, j: nat)
    requires i < |s| && i < |t| && j < |s| && j < |t|
    requires s[..i] == t[..i] && s[..j] == t[..j]
    ensures i < j ==> s[i] == t[i]
    ensures j < i ==> s[j] == t[j]
  {
    if i < j { assert s[i] == s[..j][i]; }
    if j < i { assert s[j] == s[..i][j]; }
  }

  // ---------- Base chains ----------

  /** The entry reached from `id` after `hops` steps to the base, if any. */
  ghost function BaseAfter(g: Graph, id: string, hops: nat): Option<string>
    decreases hops
  {
    if hops == 0 then Some(id)
    else if id in g.base then BaseAfter(g, g.base[id], hops - 1)
    else None
  }

  /** `id` is decoded with the help of `support`: itself or a transitive base. */
  ghost predicate Supports(g: Graph, support: string, id: string) {
    exists hops: nat :: BaseAfter(g, id, hops) == Some(support)
  }

  lemma IndexIn(order: seq<string>, id: string) returns (i: nat)
    requires id in order
    ensures i < |order| && order[i] == id
  {
    i :| 0 <= i < |order| && order[i] == id;
  }

  /** A chain from position `i` of a base-first order has fewer than `i + 1` hops. */
  lemma {:induction false} ChainIsShort(g: Graph, order: seq<string>, i: nat, hops: nat)
    requires WellFormed(g) && BaseFirst(g, order) && i < |order|
    requires BaseAfter(g, order[i], hops).Some?
    ensures hops <= i
    ensures BaseAfter(g, order[i], hops).value in order[..i + 1]
    decreases i
  {
    if hops > 0 {
      assert BaseBefore(g, order, i);
      var j := IndexIn(order[..i], g.base[order[i]]);
      ChainIsShort(g, order, j, hops - 1);
    }
  }

  /** The chain from `id` ends after exactly `hops` steps, at an entry without a base. */
  ghost predicate EndsAfter(g: Graph, id: string, hops: nat) {
    BaseAfter(g, id, hops).Some? && BaseAfter(g, id, hops).value !in g.base
  }

  /** Every chain ends at an entry without a base, in at most |order| - 1 hops. */
  lemma {:induction false} ChainEnds(g: Graph, order: seq<string>, i: nat)
    requires BaseFirst(g, order) && i < |order|
    ensures exists hops: nat :: hops <= i && EndsAfter(g, order[i], hops)
    decreases i
  {
    if order[i] !in g.base {
      assert EndsAfter(g, order[i], 0);
    } else {
      assert BaseBefore(g, order, i);
      var below := g.base[order[i]];
      var j := IndexIn(order[..i], below);
      ChainEnds(g, order, j);
      var h: nat :| h <= j && EndsAfter(g, below, h);
      assert EndsAfter(g, order[i], h + 1);
    }
  }

  lemma {:induction false} LastHop(g: Graph, id: string, hops: nat) returns (d: string)
    requires hops > 0 && BaseAfter(g, id, hops).Some?
    ensures BaseAfter(g, id, hops - 1) == Some(d)
    ensures d in g.base && BaseAfter(g, id, hops) == Some(g.base[d])
    decreases hops
  {
    if hops == 1 {
      d := id;
    } else {
      d := LastHop(g, g.base[id], hops - 1);
    }
  }

  lemma {:induction false} OneMoreHop(g: Graph, id: string, hops: nat)
    requires BaseAfter(g, id, hops).Some? && BaseAfter(g, id, hops).value in g.base
    ensures BaseAfter(g, id, hops + 1) == Some(g.base[BaseAfter(g, id, hops).value])
    decreases hops
  {
    if hops > 0 {
      OneMoreHop(g, g.base[id], hops - 1);
    }
  }

  // ---------- Attribution to semantic roots ----------

  /** Some entry holding the required object `oid` needs `id` to be decoded. */
  ghost predicate Carries(g: Graph, oid: string, id: string) {
    exists u :: u in g.nodes && g.nodes[u].oid == oid && Supports(g, id, u)
  }

  /** The roots an entry serves, read off the whole forest. */
  ghost function GlobalRoots(g: Graph, required: set<string>, id: string): set<string> {
    set oid | oid in required && Carries(g, oid, id)
  }

  /** The roots an entry must list according to its own id and its direct dependents. */
  ghost function LocalRoots(g: Graph, required: set<string>, roots: map<string, set<string>>, id: string): set<string>
    requires id in g.nodes && g.base.Keys <= roots.Keys
  {
    ({g.nodes[id].oid} * required) + (set d, oid | d in g.base && g.base[d] == id && oid in roots[d] :: oid)
  }

  ghost predicate LocallyAttributed(g: Graph, required: set<string>, roots: map<string, set<string>>)
    requires g.nodes.Keys == roots.Keys && g.base.Keys <= g.nodes.Keys
  {
    forall id :: id in g.nodes ==> roots[id] == LocalRoots(g, required, roots, id)
  }

  ghost predicate GloballyAttributed(g: Graph, required: set<string>, roots: map<string, set<string>>)
    requires g.nodes.Keys == roots.Keys
  {
    forall id :: id in g.nodes ==> roots[id] == GlobalRoots(g, required, id)
  }

  /** A required object served by `id` is its own or is served by a direct dependent. */
  lemma CarriesStep(g: Graph, oid: string, id: string)
    requires WellFormed(g) && id in g.nodes
    ensures Carries(g, oid, id) <==>
            g.nodes[id].oid == oid || exists d :: d in g.base && g.base[d] == id && Carries(g, oid, d)
  {
    if Carries(g, oid, id) {
      var u :| u in g.nodes && g.nodes[u].oid == oid && Supports(g, id, u);
      var hops: nat :| BaseAfter(g, u, hops) == Some(id);
      if hops > 0 {
        var d := LastHop(g, u, hops);
        assert Supports(g, d, u);
        assert Carries(g, oid, d);
      }
    }
    if g.nodes[id].oid == oid {
      assert BaseAfter(g, id, 0) == Some(id);
      assert Supports(g, id, id);
    }
    if d :| d in g.base && g.base[d] == id && Carries(g, oid, d) {
      var u :| u in g.nodes && g.nodes[u].oid == oid && Supports(g, d, u);
      var hops: nat :| BaseAfter(g, u, hops) == Some(d);
      OneMoreHop(g, u, hops);
      assert Supports(g, id, u);
    }
  }

  /** Attribution lists that agree on the direct dependents give the same local answer. */
  lemma LocalMeetsGlobal(g: Graph, required: set<string>, roots: map<string, set<string>>, id: string)
    requires WellFormed(g) && id in g.nodes && g.nodes.Keys == roots.Keys
    requires forall d :: d in g.base && g.base[d] == id ==> roots[d] == GlobalRoots(g, required, d)
    ensures LocalRoots(g, required, roots, id) == GlobalRoots(g, required, id)
  {
    forall oid ensures oid in LocalRoots(g, required, roots, id) <==> oid in GlobalRoots(g, required, id) {
      CarriesStep(g, oid, id);
      InLocalRoots(g, required, roots, id, oid);
      if d :| d in g.base && g.base[d] == id && oid in roots[d] {
        assert Carries(g, oid, d);
      }
    }
  }

  lemma InLocalRoots(g: Graph, required: set<string>, roots: map<string, set<string>>, id: string, oid: string)
    requires id in g.nodes && g.base.Keys <= roots.Keys
    ensures oid in LocalRoots(g, required, roots, id) <==>
            (g.nodes[id].oid == oid && oid in required) || exists d :: d in g.base && g.base[d] == id && oid in roots[d]
  {}

  /** The per-node equation has exactly one solution on an acyclic forest, and it
      is the global attribution. */
  lemma LocalIffGlobalAttribution(g: Graph, required: set<string>, roots: map<string, set<string>>, order: seq<string>)
    requires WellFormed(g) && g.nodes.Keys == roots.Keys && BaseFirst(g, order)
    ensures LocallyAttributed(g, required, roots) <==> GloballyAttributed(g, required, roots)
  {
    if LocallyAttributed(g, required, roots) {
      LocalImpliesGlobalFrom(g, required, roots, order, 0);
      assert order[0..] == order;
      forall id | id in g.nodes ensures roots[id] == GlobalRoots(g, required, id) {
        assert id in Elements(order);
      }
    }
    if GloballyAttributed(g, required, roots) {
      forall id | id in g.nodes ensures roots[id] == LocalRoots(g, required, roots, id) {
        LocalMeetsGlobal(g, required, roots, id);
      }
    }
  }

  lemma {:induction false} LocalImpliesGlobalFrom(g: Graph, required: set<string>, roots: map<string, set<string>>,
                                                  order: seq<string>, i: nat)
    requires WellFormed(g) && g.nodes.Keys == roots.Keys && BaseFirst(g, order) && i <= |order|
    requires LocallyAttributed(g, required, roots)
    ensures forall id :: id in order[i..] ==> roots[id] == GlobalRoots(g, required, id)
    decreases |order| - i
  {
    if i < |order| {
      LocalImpliesGlobalFrom(g, required, roots, order, i + 1);
      var id := order[i];
      assert id in Elements(order);
      forall d | d in g.base && g.base[d] == id ensures roots[d] == GlobalRoots(g, required, d) {
        assert d in Elements(order);
        var j := IndexIn(order, d);
        assert BaseBefore(g, order, j);
        assert j > i;
        assert order[j] in order[i + 1..];
      }
      LocalMeetsGlobal(g, required, roots, id);
      assert order[i..] == [id] + order[i + 1..];
    }
  }

  /** With global attribution and no empty list, the plan holds exactly the base
      closure of the entries that carry required objects. */
  lemma NothingUseless(g: Graph, required: set<string>, roots: map<string, set<string>>, id: string)
    requires g.nodes.Keys == roots.Keys && GloballyAttributed(g, required, roots)
    requires id in g.nodes && roots[id] != {}
    ensures exists u :: u in g.nodes && g.nodes[u].oid in required && Supports(g, id, u)
  {
    var oid :| oid in roots[id];
    assert Carries(g, oid, id);
  }

  lemma {:induction false} NothingMissing(g: Graph, id: string, support: string, hops: nat)
    requires WellFormed(g) && id in g.nodes && BaseAfter(g, id, hops) == Some(support)
    ensures support in g.nodes
    decreases hops
  {
    if hops > 0 {
      NothingMissing(g, g.base[id], support, hops - 1);
    }
  }
}
