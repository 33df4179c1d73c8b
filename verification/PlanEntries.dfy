/** The pack entries of a receive plan, each bound to its id and well formed, and
    the packs they come from. */
module PlanEntries {
  import opened Options
  import opened Ordering
  import opened PhysicalNode

  predicate Hex(c: char) {
    LowerHex(c) || 'A' <= c <= 'F'
  }

  predicate Sha256Hex(s: string) {
    |s| == 64 && forall i :: 0 <= i < |s| ==> Hex(s[i])
  }

  predicate KnownType(objectType: string) {
    objectType == "commit" || objectType == "tree" || objectType == "blob" || objectType == "tag"
  }

  predicate KnownEncoding(encoding: string) {
    encoding == "full" || encoding == "ofs-delta" || encoding == "ref-delta"
  }

  ghost predicate NodeOk(entryIdOf: Node -> string, required: set<string>, n: Node) {
    && Sha256Hex(n.entryId) && n.entryId == entryIdOf(n)
    && ValidOid(n.packChecksum) && Sha256Hex(n.idxSha256) && Sha256Hex(n.prefSha256)
    && 0 <= n.offset < n.end && ValidOid(n.oid)
    && n.oidVerified && n.integrityBound
    && KnownType(n.objectType) && KnownEncoding(n.encoding)
    && CanonicalOids(n.semanticRootOids, false)
    && Elements(n.semanticRootOids) <= required
  }

  ghost predicate DistinctIds(ns: seq<Node>) {
    forall i, j :: 0 <= i < j < |ns| ==> ns[i].entryId != ns[j].entryId
  }

  ghost predicate NodesOk(entryIdOf: Node -> string, required: set<string>, ns: seq<Node>) {
    && (forall i :: 0 <= i < |ns| ==> NodeOk(entryIdOf, required, ns[i]))
    && StrictlySorted(NodeLess, ns)
    && DistinctIds(ns)
  }

  function NodeMap(ns: seq<Node>): map<string, Node> {
    if ns == [] then map[]
    else NodeMap(ns[..|ns| - 1])[ns[|ns| - 1].entryId := ns[|ns| - 1]]
  }

  lemma NodeMapSnoc(ns: seq<Node>, i: nat)
    requires i < |ns|
    ensures NodeMap(ns[..i + 1]) == NodeMap(ns[..i])[ns[i].entryId := ns[i]]
  {
    assert ns[..i + 1][..i] == ns[..i];
  }

  lemma {:induction false} NodeMapAt(ns: seq<Node>, i: nat)
    requires DistinctIds(ns) && i < |ns|
    ensures ns[i].entryId in NodeMap(ns) && NodeMap(ns)[ns[i].entryId] == ns[i]
  {
    if i < |ns| - 1 {
      NodeMapAt(ns[..|ns| - 1], i);
      assert ns[i].entryId != ns[|ns| - 1].entryId;
    }
  }

  lemma {:induction false} NodeMapSource(ns: seq<Node>, id: string) returns (i: nat)
    requires id in NodeMap(ns)
    ensures i < |ns| && ns[i].entryId == id && NodeMap(ns)[id] == ns[i]
  {
    if ns[|ns| - 1].entryId == id {
      i := |ns| - 1;
    } else {
      i := NodeMapSource(ns[..|ns| - 1], id);
    }
  }

  lemma {:induction false} AbsentId(ns: seq<Node>, id: string)
    requires forall i :: 0 <= i < |ns| ==> ns[i].entryId != id
    ensures id !in NodeMap(ns)
  {
    if ns != [] {
      AbsentId(ns[..|ns| - 1], id);
    }
  }

  lemma {:induction false} NodeMapSize(ns: seq<Node>)
    requires DistinctIds(ns)
    ensures |NodeMap(ns)| == |ns|
  {
    if ns != [] {
      var front := ns[..|ns| - 1];
      NodeMapSize(front);
      AbsentId(front, ns[|ns| - 1].entryId);
    }
  }

  lemma NodeMapLookup(ns: seq<Node>)
    requires DistinctIds(ns)
    ensures forall i :: 0 <= i < |ns| ==> ns[i].entryId in NodeMap(ns) && NodeMap(ns)[ns[i].entryId] == ns[i]
    ensures forall id :: id in NodeMap(ns) ==>
            exists i :: 0 <= i < |ns| && ns[i].entryId == id && NodeMap(ns)[id] == ns[i]
    ensures |NodeMap(ns)| == |ns|
  {
    NodeMapSize(ns);
    forall i | 0 <= i < |ns| ensures ns[i].entryId in NodeMap(ns) && NodeMap(ns)[ns[i].entryId] == ns[i] {
      NodeMapAt(ns, i);
    }
    forall id | id in NodeMap(ns) ensures exists i :: 0 <= i < |ns| && ns[i].entryId == id && NodeMap(ns)[id] == ns[i] {
      var i := NodeMapSource(ns, id);
    }
  }

  method CheckNode(entryIdOf: Node -> string, required: set<string>, n: Node) returns (ok: bool)
    ensures ok <==> NodeOk(entryIdOf, required, n)
  {
    if !(&& Sha256Hex(n.entryId) && n.entryId == entryIdOf(n)
         && ValidOid(n.packChecksum) && Sha256Hex(n.idxSha256) && Sha256Hex(n.prefSha256)
         && 0 <= n.offset < n.end && ValidOid(n.oid)
         && n.oidVerified && n.integrityBound)
    {
      return false;
    }
    if !KnownType(n.objectType) || !KnownEncoding(n.encoding) {
      return false;
    }
    var canonical := ValidateSortedUniqueOids(n.semanticRootOids, false);
    if !canonical {
      return false;
    }
    for i := 0 to |n.semanticRootOids|
      invariant Elements(n.semanticRootOids[..i]) <= required
    {
      ElementsOfPrefix(n.semanticRootOids, i);
      if n.semanticRootOids[i] !in required {
        assert n.semanticRootOids[i] in Elements(n.semanticRootOids);
        return false;
      }
    }
    assert n.semanticRootOids[..|n.semanticRootOids|] == n.semanticRootOids;
    ok := true;
  }

  lemma ExtendSortedNodes(ns: seq<Node>, i: nat)
    requires 0 < i < |ns| && StrictlySorted(NodeLess, ns[..i]) && NodeLess(ns[i - 1], ns[i])
    ensures StrictlySorted(NodeLess, ns[..i + 1])
  {
    var longer := ns[..i + 1];
    forall a, b | 0 <= a < b < |longer| ensures NodeLess(longer[a], longer[b]) {
      if b < i {
        assert longer[a] == ns[..i][a] && longer[b] == ns[..i][b];
      } else if a < i - 1 {
        assert NodeLess(ns[..i][a], ns[..i][i - 1]);
        NodeLessTransitive(ns[a], ns[i - 1], ns[i]);
      }
    }
  }

  lemma SortedNodesSnoc(ns: seq<Node>, i: nat)
    requires i < |ns| && StrictlySorted(NodeLess, ns[..i])
    ensures StrictlySorted(NodeLess, ns[..i + 1]) <==> (i > 0 ==> NodeLess(ns[i - 1], ns[i]))
  {
    if i > 0 {
      var longer := ns[..i + 1];
      assert longer[i - 1] == ns[i - 1] && longer[i] == ns[i];
      if NodeLess(ns[i - 1], ns[i]) { ExtendSortedNodes(ns, i); }
    }
  }

  lemma DistinctIdsSnoc(ns: seq<Node>, i: nat)
    requires i < |ns| && DistinctIds(ns[..i])
    ensures DistinctIds(ns[..i + 1]) <==> ns[i].entryId !in NodeMap(ns[..i])
  {
    var front, longer := ns[..i], ns[..i + 1];
    assert longer[i] == ns[i] && forall k :: 0 <= k < i ==> longer[k] == front[k];
    if ns[i].entryId in NodeMap(front) {
      var k := NodeMapSource(front, ns[i].entryId);
      assert longer[k].entryId == longer[i].entryId;
    } else {
      forall k | 0 <= k < i ensures front[k].entryId != ns[i].entryId { NodeMapAt(front, k); }
    }
  }

  /** What one more entry must satisfy for a good listing to stay good. */
  lemma NodesOkSnoc(entryIdOf: Node -> string, required: set<string>, ns: seq<Node>, i: nat)
    requires i < |ns| && NodesOk(entryIdOf, required, ns[..i])
    ensures NodesOk(entryIdOf, required, ns[..i + 1]) <==>
            && NodeOk(entryIdOf, required, ns[i])
            && (i > 0 ==> NodeLess(ns[i - 1], ns[i]))
            && ns[i].entryId !in NodeMap(ns[..i])
  {
    var front, longer := ns[..i], ns[..i + 1];
    assert longer[i] == ns[i] && forall k :: 0 <= k < i ==> longer[k] == front[k];
    SortedNodesSnoc(ns, i);
    DistinctIdsSnoc(ns, i);
  }

  lemma NodesOkPrefix(entryIdOf: Node -> string, required: set<string>, ns: seq<Node>, i: nat)
    requires i <= |ns| && NodesOk(entryIdOf, required, ns)
    ensures NodesOk(entryIdOf, required, ns[..i])
  {}

  method CollectNodes(entryIdOf: Node -> string, required: set<string>, ns: seq<Node>)
    returns (nodes: Option<map<string, Node>>)
    ensures nodes.Some? <==> NodesOk(entryIdOf, required, ns)
    ensures nodes.Some? ==> nodes.value == NodeMap(ns)
  {
    var found: map<string, Node> := map[];
    for i := 0 to |ns|
      invariant NodesOk(entryIdOf, required, ns[..i])
      invariant found == NodeMap(ns[..i])
    {
      var n := ns[i];
      NodeMapSnoc(ns, i);
      NodesOkSnoc(entryIdOf, required, ns, i);
      var valid := CheckNode(entryIdOf, required, n);
      if !valid || (i > 0 && !NodeLess(ns[i - 1], n)) || n.entryId in found {
        if NodesOk(entryIdOf, required, ns) { NodesOkPrefix(entryIdOf, required, ns, i + 1); }
        return None;
      }
      found := found[n.entryId := n];
    }
    assert ns[..|ns|] == ns;
    nodes := Some(found);
  }

  // ---------- Sets given as lists ----------

  /** Go compares a list with a set by length and membership; on a list without
      repeats that is equality. */
  method StringSetEqual(left: seq<string>, right: set<string>) returns (ok: bool)
    ensures ok <==> |left| == |right| && Elements(left) <= right
    ensures Distinct(left) ==> (ok <==> Elements(left) == right)
  {
    if Distinct(left) { LengthDecides(left, right); }
    if |left| != |right| {
      return false;
    }
    for i := 0 to |left|
      invariant Elements(left[..i]) <= right
    {
      ElementsOfPrefix(left, i);
      if left[i] !in right {
        assert left[i] in Elements(left);
        return false;
      }
    }
    assert left[..|left|] == left;
    ok := true;
  }

  lemma LengthDecides(left: seq<string>, right: set<string>)
    requires Distinct(left)
    ensures |left| == |right| && Elements(left) <= right <==> Elements(left) == right
  {
    DistinctCardinality(left);
    if Elements(left) <= right { SubsetCardinality(Elements(left), right); }
  }

  ghost function PacksOf(ns: seq<Node>): set<string> {
    set i | 0 <= i < |ns| :: ns[i].packChecksum
  }

  method CheckSelectedPacks(ns: seq<Node>, packs: seq<string>) returns (ok: bool)
    ensures ok <==> CanonicalOids(packs, false) && Elements(packs) == PacksOf(ns)
  {
    var selected: set<string> := {};
    for i := 0 to |ns|
      invariant selected == PacksOf(ns[..i])
    {
      selected := selected + {ns[i].packChecksum};
      forall p ensures p in PacksOf(ns[..i + 1]) <==> p in PacksOf(ns[..i]) || p == ns[i].packChecksum {
        if p in PacksOf(ns[..i]) {
          var k :| 0 <= k < i && ns[..i][k].packChecksum == p;
          assert ns[..i + 1][k].packChecksum == p;
        }
        assert ns[..i + 1][i].packChecksum == ns[i].packChecksum;
      }
    }
    assert ns[..|ns|] == ns;
    ok := ValidateSortedUniqueOids(packs, false);
    if ok {
      StrictlySortedDistinct(packs);
      ok := StringSetEqual(packs, selected);
    }
  }
}
