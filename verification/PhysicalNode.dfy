/** Pack entries of a receive plan and their canonical order. */
module PhysicalNode {
  import opened Options
  import opened Ordering

  datatype Node = Node(
    entryId: string,
    packChecksum: string,
    idxSha256: string,
    prefSha256: string,
    offset: int,
    end: int,
    oid: string,
    objectType: string,
    encoding: string,
    semanticRootOids: seq<string>,
    oidVerified: bool,
    integrityBound: bool,
    baseEntryId: string,
    baseOid: string)

  datatype Dependency = Dependency(
    dependent: string,
    base: string,
    kind: string,
    baseOffset: Option<int>,
    baseOid: string)

  /** What Go's map lookup yields for an absent key. */
  const ZERO_NODE := Node("", "", "", "", 0, 0, "", "", "", [], false, false, "", "")

  function Lookup(nodes: map<string, Node>, id: string): Node {
    if id in nodes then nodes[id] else ZERO_NODE
  }

  function CompareNodes(left: Node, right: Node): int {
    if StringLess(left.packChecksum, right.packChecksum) then -1
    else if StringLess(right.packChecksum, left.packChecksum) then 1
    else if left.offset < right.offset then -1
    else if left.offset > right.offset then 1
    else if left.end < right.end then -1
    else if left.end > right.end then 1
    else if StringLess(left.oid, right.oid) then -1
    else if StringLess(right.oid, left.oid) then 1
    else 0
  }

  predicate NodeLess(left: Node, right: Node) {
    CompareNodes(left, right) < 0
  }

  /** The comparison is antisymmetric, and it ties exactly on equal keys. */
  lemma CompareNodesSigns(a: Node, b: Node)
    ensures CompareNodes(a, b) < 0 <==> CompareNodes(b, a) > 0
    ensures CompareNodes(a, b) == 0 <==>
            a.packChecksum == b.packChecksum && a.offset == b.offset && a.end == b.end && a.oid == b.oid
  {
    StringLessTotal(a.packChecksum, b.packChecksum);
    StringLessTotal(a.oid, b.oid);
    StringLessIrreflexive(a.packChecksum);
    StringLessIrreflexive(a.oid);
    if StringLess(a.packChecksum, b.packChecksum) { StringLessAsymmetric(a.packChecksum, b.packChecksum); }
    if StringLess(a.oid, b.oid) { StringLessAsymmetric(a.oid, b.oid); }
  }

  lemma NodeLessTransitive(a: Node, b: Node, c: Node)
    requires NodeLess(a, b) && NodeLess(b, c)
    ensures NodeLess(a, c)
  {
    CompareNodesSigns(a, b);
    CompareNodesSigns(b, c);
    StringLessTotal(a.packChecksum, b.packChecksum);
    StringLessTotal(b.packChecksum, c.packChecksum);
    StringLessIrreflexive(a.packChecksum);
    if StringLess(a.packChecksum, b.packChecksum) && StringLess(b.packChecksum, c.packChecksum) {
      StringLessTransitive(a.packChecksum, b.packChecksum, c.packChecksum);
    }
    if StringLess(a.packChecksum, c.packChecksum) {
    } else {
      assert a.packChecksum == b.packChecksum == c.packChecksum;
      if StringLess(a.oid, b.oid) && StringLess(b.oid, c.oid) {
        StringLessTransitive(a.oid, b.oid, c.oid);
      }
    }
  }

  lemma NodeLessNegativelyTransitive(a: Node, b: Node, c: Node)
    requires !NodeLess(a, b) && !NodeLess(b, c)
    ensures !NodeLess(a, c)
  {
    CompareNodesSigns(a, b);
    CompareNodesSigns(b, c);
    CompareNodesSigns(a, c);
    if NodeLess(a, c) {
      if CompareNodes(a, b) == 0 {
        SameKeyCompare(a, b, c);
      } else if CompareNodes(b, c) == 0 {
        SameKeyCompare(b, c, a);
        CompareNodesSigns(b, a);
        CompareNodesSigns(c, a);
      } else {
        NodeLessTransitive(c, b, a);
      }
    }
  }

  lemma SameKeyCompare(a: Node, b: Node, c: Node)
    requires CompareNodes(a, b) == 0
    ensures CompareNodes(a, c) == CompareNodes(b, c)
  {
    CompareNodesSigns(a, b);
  }

  predicate IdLess(nodes: map<string, Node>, left: string, right: string) {
    NodeLess(Lookup(nodes, left), Lookup(nodes, right))
  }

  lemma IdOrder(nodes: map<string, Node>)
    ensures StrictWeakOrder((a: string, b: string) => IdLess(nodes, a, b))
  {
    var less := (a: string, b: string) => IdLess(nodes, a, b);
    forall x ensures !less(x, x) {
      CompareNodesSigns(Lookup(nodes, x), Lookup(nodes, x));
    }
    forall x, y, z | less(x, y) && less(y, z) ensures less(x, z) {
      NodeLessTransitive(Lookup(nodes, x), Lookup(nodes, y), Lookup(nodes, z));
    }
    forall x, y, z | !less(x, y) && !less(y, z) ensures !less(x, z) {
      NodeLessNegativelyTransitive(Lookup(nodes, x), Lookup(nodes, y), Lookup(nodes, z));
    }
  }

  function CompareDependencies(nodes: map<string, Node>, l: Dependency, r: Dependency): int {
    var byDependent := CompareNodes(Lookup(nodes, l.dependent), Lookup(nodes, r.dependent));
    var byBase := CompareNodes(Lookup(nodes, l.base), Lookup(nodes, r.base));
    if byDependent != 0 then byDependent
    else if byBase != 0 then byBase
    else if StringLess(l.kind, r.kind) then -1
    else if StringLess(r.kind, l.kind) then 1
    else 0
  }

  predicate DependencyLess(nodes: map<string, Node>, l: Dependency, r: Dependency) {
    CompareDependencies(nodes, l, r) < 0
  }

  lemma CompareDependenciesSigns(nodes: map<string, Node>, a: Dependency, b: Dependency)
    ensures CompareDependencies(nodes, a, b) < 0 <==> CompareDependencies(nodes, b, a) > 0
    ensures CompareDependencies(nodes, a, b) == 0 <==>
            && CompareNodes(Lookup(nodes, a.dependent), Lookup(nodes, b.dependent)) == 0
            && CompareNodes(Lookup(nodes, a.base), Lookup(nodes, b.base)) == 0
            && a.kind == b.kind
  {
    CompareNodesSigns(Lookup(nodes, a.dependent), Lookup(nodes, b.dependent));
    CompareNodesSigns(Lookup(nodes, a.base), Lookup(nodes, b.base));
    StringLessTotal(a.kind, b.kind);
    StringLessIrreflexive(a.kind);
    if StringLess(a.kind, b.kind) { StringLessAsymmetric(a.kind, b.kind); }
  }

  lemma DependencyLessTransitive(nodes: map<string, Node>, a: Dependency, b: Dependency, c: Dependency)
    requires DependencyLess(nodes, a, b) && DependencyLess(nodes, b, c)
    ensures DependencyLess(nodes, a, c)
  {
    TransitiveOnKeys(Lookup(nodes, a.dependent), Lookup(nodes, b.dependent), Lookup(nodes, c.dependent));
    TransitiveOnKeys(Lookup(nodes, a.base), Lookup(nodes, b.base), Lookup(nodes, c.base));
    StringLessTotal(a.kind, b.kind);
    StringLessTotal(b.kind, c.kind);
    if StringLess(a.kind, b.kind) && StringLess(b.kind, c.kind) {
      StringLessTransitive(a.kind, b.kind, c.kind);
    }
  }

  /** The four ways in which two comparisons compose. */
  lemma TransitiveOnKeys(a: Node, b: Node, c: Node)
    ensures CompareNodes(a, b) < 0 && CompareNodes(b, c) < 0 ==> CompareNodes(a, c) < 0
    ensures CompareNodes(a, b) == 0 ==> CompareNodes(a, c) == CompareNodes(b, c)
    ensures CompareNodes(b, c) == 0 ==> CompareNodes(a, c) == CompareNodes(a, b)
  {
    if CompareNodes(a, b) < 0 && CompareNodes(b, c) < 0 { NodeLessTransitive(a, b, c); }
    CompareNodesSigns(a, b);
    CompareNodesSigns(b, c);
  }

  lemma DependencyOrder(nodes: map<string, Node>)
    ensures StrictWeakOrder((a: Dependency, b: Dependency) => DependencyLess(nodes, a, b))
  {
    var less := (a: Dependency, b: Dependency) => DependencyLess(nodes, a, b);
    forall x ensures !less(x, x) {
      CompareDependenciesSigns(nodes, x, x);
    }
    forall x, y, z | less(x, y) && less(y, z) ensures less(x, z) {
      DependencyLessTransitive(nodes, x, y, z);
    }
    forall x, y, z | !less(x, y) && !less(y, z) ensures !less(x, z) {
      NotLessTransitive(nodes, x, y, z);
    }
  }

  lemma NotLessTransitive(nodes: map<string, Node>, a: Dependency, b: Dependency, c: Dependency)
    requires !DependencyLess(nodes, a, b) && !DependencyLess(nodes, b, c)
    ensures !DependencyLess(nodes, a, c)
  {
    CompareDependenciesSigns(nodes, a, b);
    CompareDependenciesSigns(nodes, b, c);
    CompareDependenciesSigns(nodes, a, c);
    if DependencyLess(nodes, b, a) && DependencyLess(nodes, c, b) {
      DependencyLessTransitive(nodes, c, b, a);
    }
    if CompareDependencies(nodes, a, b) == 0 || CompareDependencies(nodes, b, c) == 0 {
      TransitiveOnKeys(Lookup(nodes, a.dependent), Lookup(nodes, b.dependent), Lookup(nodes, c.dependent));
      TransitiveOnKeys(Lookup(nodes, a.base), Lookup(nodes, b.base), Lookup(nodes, c.base));
    }
  }
}
