/** The orders an accepted plan is listed in, said with the entries' own keys. */
module PlanOrder {
  import opened Options
  import opened Ordering
  import opened PhysicalNode
  import opened BaseForest
  import opened PlanEntries
  import opened PlanDependencies
  import opened PhysicalGraph

  // ---------- Strings and keys ----------

  /** `a` is a proper prefix of `b`, or has the smaller byte where they first differ. */
  predicate DiffersAt(a: string, b: string, k: nat) {
    k <= |a| && k < |b| && a[..k] == b[..k] && (k == |a| || a[k] < b[k])
  }

  lemma {:induction false} StringLessIff(a: string, b: string)
    ensures StringLess(a, b) <==> exists k: nat :: DiffersAt(a, b, k)
  {
    if a == [] {
      if b != [] { assert DiffersAt(a, b, 0); }
    } else if b != [] {
      if a[0] < b[0] { assert DiffersAt(a, b, 0); }
      if a[0] == b[0] {
        StringLessIff(a[1..], b[1..]);
        ShiftDifference(a, b);
      }
    }
  }

  lemma ShiftDifference(a: string, b: string)
    requires a != [] && b != [] && a[0] == b[0]
    ensures (exists k: nat :: DiffersAt(a, b, k)) <==> (exists k: nat :: DiffersAt(a[1..], b[1..], k))
  {
    if k: nat :| DiffersAt(a, b, k) {
      assert k > 0;
      assert a[1..][..k - 1] == a[..k][1..] && b[1..][..k - 1] == b[..k][1..];
      assert DiffersAt(a[1..], b[1..], k - 1);
    }
    if k: nat :| DiffersAt(a[1..], b[1..], k) {
      assert a[..k + 1] == [a[0]] + a[1..][..k] && b[..k + 1] == [b[0]] + b[1..][..k];
      assert DiffersAt(a, b, k + 1);
    }
  }

  /** First by pack, then by offset, then by end, then by object id. */
  predicate KeyBefore(a: Node, b: Node) {
    || StringLess(a.packChecksum, b.packChecksum)
    || (a.packChecksum == b.packChecksum
        && (|| a.offset < b.offset
            || (a.offset == b.offset && (a.end < b.end || (a.end == b.end && StringLess(a.oid, b.oid))))))
  }

  lemma NodeLessIff(a: Node, b: Node)
    ensures NodeLess(a, b) <==> KeyBefore(a, b)
  {
    StringLessTotal(a.packChecksum, b.packChecksum);
    StringLessTotal(a.oid, b.oid);
    StringLessIrreflexive(a.packChecksum);
    StringLessIrreflexive(a.oid);
    if StringLess(a.packChecksum, b.packChecksum) { StringLessAsymmetric(a.packChecksum, b.packChecksum); }
    if StringLess(a.oid, b.oid) { StringLessAsymmetric(a.oid, b.oid); }
    if StringLess(b.packChecksum, a.packChecksum) { StringLessAsymmetric(b.packChecksum, a.packChecksum); }
  }

  // ---------- Entries ----------

  /** The entries of an accepted plan ascend by pack, offset, end and object id. */
  lemma EntriesAscend(entryIdOf: Node -> string, plan: Plan, required: set<string>, i: nat, j: nat)
    requires AcceptedPlan(entryIdOf, plan, required) && i < j < |plan.physicalNodes|
    ensures KeyBefore(plan.physicalNodes[i], plan.physicalNodes[j])
  {
    NodeLessIff(plan.physicalNodes[i], plan.physicalNodes[j]);
  }

  /** So the entries of one pack are listed together, in the order of their offsets. */
  lemma PacksAreContiguous(entryIdOf: Node -> string, plan: Plan, required: set<string>, i: nat, j: nat, k: nat)
    requires AcceptedPlan(entryIdOf, plan, required) && i < j < k < |plan.physicalNodes|
    requires plan.physicalNodes[i].packChecksum == plan.physicalNodes[k].packChecksum
    ensures plan.physicalNodes[j].packChecksum == plan.physicalNodes[i].packChecksum
    ensures plan.physicalNodes[i].offset <= plan.physicalNodes[j].offset <= plan.physicalNodes[k].offset
  {
    var a, b, c := plan.physicalNodes[i], plan.physicalNodes[j], plan.physicalNodes[k];
    EntriesAscend(entryIdOf, plan, required, i, j);
    EntriesAscend(entryIdOf, plan, required, j, k);
    if StringLess(a.packChecksum, b.packChecksum) { StringLessAsymmetric(a.packChecksum, b.packChecksum); }
  }

  // ---------- Dependencies ----------

  /** One dependent each, in the order of the dependents' keys. */
  ghost predicate DependentsAscend(nodes: map<string, Node>, ds: seq<Dependency>) {
    forall i, j :: 0 <= i < j < |ds| ==> KeyBefore(Lookup(nodes, ds[i].dependent), Lookup(nodes, ds[j].dependent))
  }

  lemma DependencyLessByDependent(nodes: map<string, Node>, a: Dependency, b: Dependency)
    requires KeyBefore(Lookup(nodes, a.dependent), Lookup(nodes, b.dependent))
             || KeyBefore(Lookup(nodes, b.dependent), Lookup(nodes, a.dependent))
    ensures DependencyLess(nodes, a, b) <==> KeyBefore(Lookup(nodes, a.dependent), Lookup(nodes, b.dependent))
  {
    var x, y := Lookup(nodes, a.dependent), Lookup(nodes, b.dependent);
    NodeLessIff(x, y);
    NodeLessIff(y, x);
    CompareNodesSigns(x, y);
  }

  lemma KeyIrreflexive(a: Node)
    ensures !KeyBefore(a, a)
  {
    StringLessIrreflexive(a.packChecksum);
    StringLessIrreflexive(a.oid);
  }

  /** Dependencies are in order exactly when they are bound and their dependents
      ascend; base and kind never decide. */
  lemma DependenciesOkIff(nodes: map<string, Node>, ds: seq<Dependency>)
    requires forall a, b :: a in nodes && b in nodes && a != b ==> IdLess(nodes, a, b) || IdLess(nodes, b, a)
    ensures DependenciesOk(nodes, ds) <==>
            (forall i :: 0 <= i < |ds| ==> DependencyOk(nodes, ds[i])) && DependentsAscend(nodes, ds)
  {
    if forall i :: 0 <= i < |ds| ==> DependencyOk(nodes, ds[i]) {
      if DependentsAscend(nodes, ds) { AscendingIsSorted(nodes, ds); }
      if DependenciesOk(nodes, ds) { SortedIsAscending(nodes, ds); }
    }
  }

  lemma AscendingIsSorted(nodes: map<string, Node>, ds: seq<Dependency>)
    requires DependentsAscend(nodes, ds)
    ensures DistinctDependents(ds)
    ensures StrictlySorted((a: Dependency, b: Dependency) => DependencyLess(nodes, a, b), ds)
  {
    forall i, j | 0 <= i < j < |ds| ensures ds[i].dependent != ds[j].dependent {
      KeyIrreflexive(Lookup(nodes, ds[i].dependent));
    }
    var less := (a: Dependency, b: Dependency) => DependencyLess(nodes, a, b);
    forall i, j | 0 <= i < j < |ds| ensures less(ds[i], ds[j]) { DependencyLessByDependent(nodes, ds[i], ds[j]); }
  }

  lemma SortedIsAscending(nodes: map<string, Node>, ds: seq<Dependency>)
    requires forall a, b :: a in nodes && b in nodes && a != b ==> IdLess(nodes, a, b) || IdLess(nodes, b, a)
    requires DependenciesOk(nodes, ds)
    ensures DependentsAscend(nodes, ds)
  {
    var less := (a: Dependency, b: Dependency) => DependencyLess(nodes, a, b);
    forall i, j | 0 <= i < j < |ds|
      ensures KeyBefore(Lookup(nodes, ds[i].dependent), Lookup(nodes, ds[j].dependent))
    {
      assert less(ds[i], ds[j]) && DependencyOk(nodes, ds[i]) && DependencyOk(nodes, ds[j]);
      assert IdLess(nodes, ds[i].dependent, ds[j].dependent) || IdLess(nodes, ds[j].dependent, ds[i].dependent);
      NodeLessIff(Lookup(nodes, ds[i].dependent), Lookup(nodes, ds[j].dependent));
      NodeLessIff(Lookup(nodes, ds[j].dependent), Lookup(nodes, ds[i].dependent));
      DependencyLessByDependent(nodes, ds[i], ds[j]);
    }
  }

  // ---------- The topological order ----------

  /** The entry at `j` could already have come at `i`: its base, if any, was out. */
  predicate CouldCome(g: Graph, order: seq<string>, i: nat, j: nat)
    requires i < j < |order|
  {
    order[j] in g.base ==> g.base[order[j]] in order[..i]
  }

  /** Whatever could have come earlier has the greater key. */
  ghost predicate LeastFirst(g: Graph, order: seq<string>) {
    forall i, j :: 0 <= i < j < |order| && CouldCome(g, order, i, j) ==>
      KeyBefore(Lookup(g.nodes, order[i]), Lookup(g.nodes, order[j]))
  }

  /** Among base-first orders the accepted one is the one in which every entry
      comes before all those with greater keys that could have taken its place. */
  lemma CanonicalIff(g: Graph, order: seq<string>)
    requires WellFormed(g) && BaseFirst(g, order)
    ensures CanonicalOrder(g, order) <==> LeastFirst(g, order)
  {
    if LeastFirst(g, order) {
      LeastFirstIsGreedy(g, order);
      GreedyIsCanonical(g, order, order);
    }
    if CanonicalOrder(g, order) {
      forall i, j | 0 <= i < j < |order| && CouldCome(g, order, i, j)
        ensures KeyBefore(Lookup(g.nodes, order[i]), Lookup(g.nodes, order[j]))
      {
        CannotMoveForward(g, order, i, j);
        NodeLessIff(Lookup(g.nodes, order[i]), Lookup(g.nodes, order[j]));
      }
    }
  }

  lemma LeastFirstIsGreedy(g: Graph, order: seq<string>)
    requires BaseFirst(g, order) && LeastFirst(g, order)
    ensures Greedy(g, order)
  {
    forall i | 0 <= i < |order| ensures LeastOf(g, order[i], Available(g, Elements(order[..i]))) {
      assert BaseBefore(g, order, i);
      assert order[i] in Elements(order);
      NotYetOut(order, i);
      forall u | u in Available(g, Elements(order[..i])) && u != order[i] ensures IdLess(g.nodes, order[i], u) {
        assert u in Elements(order);
        var j := NotBefore(order, i, u);
        assert CouldCome(g, order, i, j);
        NodeLessIff(Lookup(g.nodes, order[i]), Lookup(g.nodes, u));
      }
    }
  }

  lemma NotBefore(order: seq<string>, i: nat, u: string) returns (j: nat)
    requires i <= |order| && u in order && u !in order[..i]
    ensures i <= j < |order| && order[j] == u
  {
    assert order == order[..i] + order[i..];
    var k :| 0 <= k < |order[i..]| && order[i..][k] == u;
    j := i + k;
  }

  lemma NotYetOut(order: seq<string>, i: nat)
    requires Distinct(order) && i < |order|
    ensures order[i] !in order[..i]
  {}

  function Moved(order: seq<string>, i: nat, j: nat): seq<string>
    requires i < j < |order|
  {
    order[..i] + ([order[j]] + (order[i..j] + order[j + 1..]))
  }

  /** If the later entry could come at `i`, moving it there is base first again. */
  lemma MovedIsBaseFirst(g: Graph, order: seq<string>, i: nat, j: nat)
    requires WellFormed(g) && BaseFirst(g, order) && i < j < |order| && CouldCome(g, order, i, j)
    ensures BaseFirst(g, Moved(order, i, j))
  {
    var moved := Moved(order, i, j);
    MovedPermutes(order, i, j);
    forall m | 0 <= m < |moved| ensures BaseBefore(g, moved, m) {
      if moved[m] in g.base {
        MovedBase(g, order, i, j, m);
      }
    }
  }

  lemma MovedPermutes(order: seq<string>, i: nat, j: nat)
    requires Distinct(order) && i < j < |order|
    ensures Distinct(Moved(order, i, j)) && Elements(Moved(order, i, j)) == Elements(order)
  {
    assert order == order[..i] + (order[i..j] + ([order[j]] + order[j + 1..]));
    assert multiset(Moved(order, i, j)) == multiset(order);
    MultisetElements(Moved(order, i, j), order);
    MultisetDistinct(Moved(order, i, j), order);
  }

  /** Where an entry of the moved order came from. */
  function Origin(i: nat, j: nat, m: nat): nat
    requires i < j
  {
    if m < i || m > j then m else if m == i then j else m - 1
  }

  lemma MovedFrom(order: seq<string>, i: nat, j: nat, m: nat)
    requires i < j < |order| && m < |order|
    ensures |Moved(order, i, j)| == |order| && Origin(i, j, m) < |order|
    ensures Moved(order, i, j)[m] == order[Origin(i, j, m)]
  {}

  lemma MovedBase(g: Graph, order: seq<string>, i: nat, j: nat, m: nat)
    requires BaseFirst(g, order) && i < j < |order| && CouldCome(g, order, i, j)
    requires m < |Moved(order, i, j)| && Moved(order, i, j)[m] in g.base
    ensures g.base[Moved(order, i, j)[m]] in Moved(order, i, j)[..m]
  {
    var moved := Moved(order, i, j);
    MovedFrom(order, i, j, m);
    var o := Origin(i, j, m);
    var base := g.base[order[o]];
    assert BaseBefore(g, order, o);
    var p :| 0 <= p < o && order[p] == base;
    if m == i {
      var q :| 0 <= q < i && order[..i][q] == base;
      MovedFrom(order, i, j, q);
      assert moved[..m][q] == base;
    } else {
      var q := if p < i || p > j then p else if p == j then i else p + 1;
      MovedFrom(order, i, j, q);
      assert q < m && moved[..m][q] == base;
    }
  }

  lemma SameBefore(s: seq<string>, t: seq<string>, k: nat, i: nat)
    requires i < k <= |s| && k <= |t| && s[..k] == t[..k]
    ensures s[i] == t[i]
  {
    assert s[..k][i] == t[..k][i];
  }

  lemma CannotMoveForward(g: Graph, order: seq<string>, i: nat, j: nat)
    requires WellFormed(g) && CanonicalOrder(g, order) && i < j < |order| && CouldCome(g, order, i, j)
    ensures IdLess(g.nodes, order[i], order[j])
  {
    var moved := Moved(order, i, j);
    MovedIsBaseFirst(g, order, i, j);
    assert LexLeq(g, order, moved);
    assert order[i] != order[j];
    MovedFrom(order, i, j, i);
    assert moved[i] == order[j];
    var k :| 0 <= k < |order| && k < |moved| && order[..k] == moved[..k] && IdLess(g.nodes, order[k], moved[k]);
    if k > i {
      SameBefore(order, moved, k, i);
    } else if k < i {
      MovedFrom(order, i, j, k);
      LessAsymmetric(g, order[k], moved[k]);
    }
  }

  // ---------- Ranges ----------

  function RangeOf(n: Node): Range {
    Range(n.entryId, n.packChecksum, n.offset, n.end, "required-object", n.oid, n.semanticRootOids)
  }

  /** The ranges to fetch are exactly the entries' own, in topological order. */
  lemma RangesAreTheEntries(entryIdOf: Node -> string, plan: Plan, required: set<string>)
    requires AcceptedPlan(entryIdOf, plan, required)
    ensures |plan.ranges| == |plan.topologicalEntryIds|
    ensures forall i :: 0 <= i < |plan.ranges| ==>
              && plan.topologicalEntryIds[i] in NodeMap(plan.physicalNodes)
              && plan.ranges[i] == RangeOf(NodeMap(plan.physicalNodes)[plan.topologicalEntryIds[i]])
  {
    if required != {} {
      var nodes := NodeMap(plan.physicalNodes);
      NodeMapLookup(plan.physicalNodes);
      forall i | 0 <= i < |plan.ranges|
        ensures plan.topologicalEntryIds[i] in nodes && plan.ranges[i] == RangeOf(nodes[plan.topologicalEntryIds[i]])
      {
        assert RangeOk(nodes, plan.topologicalEntryIds[i], plan.ranges[i]);
        assert plan.topologicalEntryIds[i] in Elements(plan.topologicalEntryIds);
      }
    }
  }

  lemma RangeOkIff(nodes: map<string, Node>, id: string, r: Range)
    requires id in nodes && nodes[id].entryId == id
    ensures RangeOk(nodes, id, r) <==> r == RangeOf(nodes[id])
  {}

  // ---------- One entry, one dependency ----------

  predicate HexOf(s: string, length: nat, upper: bool) {
    |s| == length &&
    forall i :: 0 <= i < |s| ==> s[i] in "0123456789abcdef" || (upper && s[i] in "ABCDEF")
  }

  lemma HexDigits(c: char)
    ensures LowerHex(c) <==> c in "0123456789abcdef"
    ensures Hex(c) <==> c in "0123456789abcdef" || c in "ABCDEF"
  {
    var digits, capitals := "0123456789abcdef", "ABCDEF";
    if '0' <= c <= '9' { assert digits[c as int - '0' as int] == c; }
    if 'a' <= c <= 'f' { assert digits[c as int - 'a' as int + 10] == c; }
    if 'A' <= c <= 'F' { assert capitals[c as int - 'A' as int] == c; }
  }

  lemma OidIff(s: string)
    ensures ValidOid(s) <==> HexOf(s, 40, false)
    ensures Sha256Hex(s) <==> HexOf(s, 64, true)
  {
    forall i | 0 <= i < |s|
      ensures LowerHex(s[i]) <==> s[i] in "0123456789abcdef"
      ensures Hex(s[i]) <==> s[i] in "0123456789abcdef" || s[i] in "ABCDEF"
    {
      HexDigits(s[i]);
    }
  }

  /** An entry passes exactly when its id binds it, its pack, index and object are
      named in full, it has bytes, it was verified, and it lists required ids only. */
  lemma EntryPassesIff(entryIdOf: Node -> string, required: set<string>, n: Node)
    ensures NodeOk(entryIdOf, required, n) <==>
            && HexOf(n.entryId, 64, true) && n.entryId == entryIdOf(n)
            && HexOf(n.packChecksum, 40, false) && HexOf(n.idxSha256, 64, true) && HexOf(n.prefSha256, 64, true)
            && n.offset >= 0 && n.end - n.offset > 0 && HexOf(n.oid, 40, false)
            && n.oidVerified && n.integrityBound
            && n.objectType in ["commit", "tree", "blob", "tag"] && n.encoding in ["full", "ofs-delta", "ref-delta"]
            && n.semanticRootOids != [] && CanonicalOids(n.semanticRootOids, true)
            && (forall oid :: oid in n.semanticRootOids ==> oid in required)
  {
    OidIff(n.entryId);
    OidIff(n.packChecksum);
    OidIff(n.idxSha256);
    OidIff(n.prefSha256);
    OidIff(n.oid);
    assert forall oid :: oid in Elements(n.semanticRootOids) <==> oid in n.semanticRootOids;
  }

  /** The record by which one entry depends on another; None if it cannot. */
  function DependencyBetween(dependent: Node, base: Node): Option<Dependency> {
    if dependent.baseEntryId != base.entryId || dependent.baseOid != base.oid || dependent.entryId == base.entryId
    then None
    else if dependent.encoding == "ofs-delta" then
      if base.offset < dependent.offset
      then Some(Dependency(dependent.entryId, base.entryId, "ofs", Some(base.offset), ""))
      else None
    else if dependent.encoding == "ref-delta"
    then Some(Dependency(dependent.entryId, base.entryId, "ref", None, base.oid))
    else None
  }

  /** A dependency passes exactly when it is the one its two entries determine. */
  lemma DependencyPassesIff(nodes: map<string, Node>, d: Dependency)
    requires forall id :: id in nodes ==> nodes[id].entryId == id
    ensures DependencyOk(nodes, d) <==>
            && d.dependent in nodes && d.base in nodes
            && DependencyBetween(nodes[d.dependent], nodes[d.base]) == Some(d)
  {
    assert "ofs"[0] != "ref"[0] && "ofs-delta"[0] != "ref-delta"[0];
  }

  // ---------- The whole plan ----------

  ghost predicate SelectsPacks(plan: Plan) {
    && CanonicalOids(plan.selectedPackChecksums, false)
    && (forall n :: n in plan.physicalNodes ==> n.packChecksum in plan.selectedPackChecksums)
    && (forall pack :: pack in plan.selectedPackChecksums ==>
          exists n :: n in plan.physicalNodes && n.packChecksum == pack)
  }

  lemma SelectsPacksIff(plan: Plan)
    ensures SelectsPacks(plan) <==>
            CanonicalOids(plan.selectedPackChecksums, false)
            && Elements(plan.selectedPackChecksums) == PacksOf(plan.physicalNodes)
  {
    var ns, packs := plan.physicalNodes, plan.selectedPackChecksums;
    forall pack ensures pack in PacksOf(ns) <==> exists n :: n in ns && n.packChecksum == pack {
      if n :| n in ns && n.packChecksum == pack {
        var i :| 0 <= i < |ns| && ns[i] == n;
      }
    }
    assert forall pack :: pack in Elements(packs) <==> pack in packs;
  }

  /** An accepted plan's entries, dependencies and topology, in the entries' keys. */
  lemma AcceptedOrders(entryIdOf: Node -> string, plan: Plan, required: set<string>)
    requires required != {} && AcceptedPlan(entryIdOf, plan, required)
    ensures var g := GraphOf(plan.physicalNodes, plan.dependencies);
            && DependentsAscend(g.nodes, plan.dependencies)
            && BaseFirst(g, plan.topologicalEntryIds) && LeastFirst(g, plan.topologicalEntryIds)
            && SelectsPacks(plan)
  {
    var g := GraphOf(plan.physicalNodes, plan.dependencies);
    GraphWellFormed(entryIdOf, required, plan.physicalNodes, plan.dependencies);
    DependenciesOkIff(g.nodes, plan.dependencies);
    CanonicalIff(g, plan.topologicalEntryIds);
    SelectsPacksIff(plan);
  }
}
