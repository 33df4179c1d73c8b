/** What a closure proof says about the objects themselves, read off their types
    and reference lists. */
module ClosureMeaning {
  import opened Commands
  import opened Ordering
  import opened Closure

  // ---------- Objects and what they name ----------

  predicate NamesOthers(item: GitObject) {
    item.objectType in ["commit", "tree", "tag"]
  }

  /** The object is there, and it is a blob or its reference list is known. */
  predicate Readable(store: ObjectStore, oid: string) {
    && oid in store
    && (store[oid].objectType == "blob" || (NamesOthers(store[oid]) && store[oid].references.Some?))
  }

  predicate Names(store: ObjectStore, from: string, to: string) {
    && from in store && NamesOthers(store[from])
    && store[from].references.Some? && to in store[from].references.value
  }

  /** How many references the object lists, repeats included. */
  function Length(item: GitObject): nat {
    if NamesOthers(item) && item.references.Some? then |item.references.value| else 0
  }

  function Lengths(store: ObjectStore, oids: seq<string>): nat {
    if oids == [] then 0
    else
      var last := oids[|oids| - 1];
      Lengths(store, oids[..|oids| - 1]) + if last in store then Length(store[last]) else 0
  }

  /** How many of these objects have the type. */
  function CountOf(store: ObjectStore, oids: seq<string>, objectType: string): nat {
    if oids == [] then 0
    else
      var last := oids[|oids| - 1];
      CountOf(store, oids[..|oids| - 1], objectType)
      + if last in store && store[last].objectType == objectType then 1 else 0
  }

  lemma TypesDiffer()
    ensures "blob" !in ["commit", "tree", "tag"]
  {
    assert "blob"[0] == 'b' && "commit"[0] == 'c' && "tree"[0] == 't' && "tag"[0] == 't';
  }

  lemma ReadableIff(store: ObjectStore, oid: string)
    ensures WellTyped(store, oid) <==> Readable(store, oid)
    ensures WellTyped(store, oid) ==> |RefsOf(store, oid)| == Length(store[oid])
    ensures forall to :: to in RefsOf(store, oid) <==> Names(store, oid, to)
  {
    TypesDiffer();
  }

  // ---------- The proof's sets ----------

  /** A new tip, or named by one of the incoming objects. */
  ghost predicate Called(store: ObjectStore, commands: seq<ReceiveCommand>, incoming: seq<string>, oid: string) {
    || (exists i :: 0 <= i < |commands| && commands[i].newOid == oid && oid != ZERO_OID)
    || (exists from :: from in incoming && Names(store, from, oid))
  }

  /** Each incoming object is readable and new; whatever it names is reported too;
      each external one is advertised and present. */
  ghost predicate ReportsClosure(store: ObjectStore, commands: seq<ReceiveCommand>, advertised: seq<string>,
                                 proof: ClosureProof) {
    && (forall oid :: oid in proof.incomingOids ==> oid !in advertised && Readable(store, oid))
    && (forall oid :: oid in proof.semanticExternalOids ==> oid in advertised && oid in store)
    && (forall i :: 0 <= i < |commands| && commands[i].newOid != ZERO_OID ==> Reported(proof, commands[i].newOid))
    && (forall from, to :: from in proof.incomingOids && Names(store, from, to) ==> Reported(proof, to))
    && (forall oid :: Reported(proof, oid) ==> Called(store, commands, proof.incomingOids, oid))
  }

  predicate Reported(proof: ClosureProof, oid: string) {
    oid in proof.incomingOids || oid in proof.semanticExternalOids
  }

  lemma ReportedIff(proof: ClosureProof, p: Problem, planSha256: string, oid: string)
    requires Describes(proof, p, planSha256)
    ensures oid in proof.incomingOids <==> Reached(p, oid) && oid !in p.boundary
    ensures oid in proof.semanticExternalOids <==> Reached(p, oid) && oid in p.boundary
  {
    InReachedSet(p, oid);
    assert oid in Elements(proof.incomingOids) <==> oid in proof.incomingOids;
    assert oid in Elements(proof.semanticExternalOids) <==> oid in proof.semanticExternalOids;
  }

  lemma EdgeIff(p: Problem, from: string, to: string)
    ensures Edge(p, from, to) <==> from !in p.boundary && Names(p.store, from, to)
  {
    ReadableIff(p.store, from);
  }

  /** A reached object is a root or the end of an edge from a reached object. */
  lemma LastEdge(p: Problem, oid: string) returns (from: string)
    requires Reached(p, oid)
    ensures oid in p.roots || (Reached(p, from) && Edge(p, from, oid))
  {
    var path :| IsPath(p, path) && path[|path| - 1] == oid;
    from := oid;
    if |path| > 1 {
      from := path[|path| - 2];
      assert IsPath(p, path[..|path| - 1]) && Edge(p, path[|path| - 2], path[|path| - 1]);
    }
  }

  lemma TipsAre(commands: seq<ReceiveCommand>, oid: string)
    ensures oid in Tips(commands) <==> exists i :: 0 <= i < |commands| && commands[i].newOid == oid && oid != ZERO_OID
  {
    TipsAreNewOids(commands, oid);
    if oid in Tips(commands) {
      var i :| 0 <= i < |commands| && commands[i].newOid == oid;
    }
  }

  lemma ReportedIsCalled(store: ObjectStore, commands: seq<ReceiveCommand>, advertised: seq<string>,
                         proof: ClosureProof, planSha256: string, oid: string)
    requires Describes(proof, ProblemOf(store, commands, advertised), planSha256) && Reported(proof, oid)
    ensures Called(store, commands, proof.incomingOids, oid)
  {
    var p := ProblemOf(store, commands, advertised);
    ReportedIff(proof, p, planSha256, oid);
    TipsAre(commands, oid);
    var from := LastEdge(p, oid);
    if oid !in p.roots {
      EdgeIff(p, from, oid);
      ReportedIff(proof, p, planSha256, from);
    }
  }

  lemma IncomingNamesReported(p: Problem, proof: ClosureProof, planSha256: string, from: string, to: string)
    requires Describes(proof, p, planSha256) && from in proof.incomingOids && Names(p.store, from, to)
    ensures Reported(proof, to)
  {
    ReportedIff(proof, p, planSha256, from);
    EdgeIff(p, from, to);
    EdgesReached(p, from, to);
    ReportedIff(proof, p, planSha256, to);
  }

  // ---------- The proof's counts ----------

  lemma {:induction false} LengthsAreSum(p: Problem, oids: seq<string>)
    requires Distinct(oids) && forall oid :: oid in oids ==> WellTyped(p.store, oid)
    ensures Lengths(p.store, oids) == Sum(Elements(oids), EdgeWeights(p))
  {
    if oids != [] {
      var front, last := oids[..|oids| - 1], oids[|oids| - 1];
      assert oids == front + [last];
      LengthsAreSum(p, front);
      ElementsOfAppend(front, last);
      assert last !in Elements(front);
      SumAdd(Elements(front), EdgeWeights(p), last);
      assert last in oids;
      ReadableIff(p.store, last);
    }
  }

  lemma {:induction false} CountsAreOfType(p: Problem, oids: seq<string>, objectType: string)
    requires Distinct(oids)
    ensures CountOf(p.store, oids, objectType) == |OfType(p, Elements(oids), objectType)|
  {
    if oids == [] {
      assert OfType(p, Elements(oids), objectType) == {};
    } else {
      var front, last := oids[..|oids| - 1], oids[|oids| - 1];
      assert oids == front + [last];
      CountsAreOfType(p, front, objectType);
      ElementsOfAppend(front, last);
      assert last !in Elements(front);
      var before := OfType(p, Elements(front), objectType);
      if last in p.store && p.store[last].objectType == objectType {
        assert OfType(p, Elements(oids), objectType) == before + {last};
      } else {
        assert OfType(p, Elements(oids), objectType) == before;
      }
    }
  }

  /** A proof lists exactly the objects the new tips lead to, by the reference
      lists of commits, trees and tags, and counts them and their references. */
  lemma ProofIsTheClosure(store: ObjectStore, commands: seq<ReceiveCommand>, advertised: seq<string>,
                          planSha256: string,
                          proof: ClosureProof)
    requires Complete(ProblemOf(store, commands, advertised))
    requires Describes(proof, ProblemOf(store, commands, advertised), planSha256)
    ensures ReportsClosure(store, commands, advertised, proof)
    ensures proof.logicalEdgeCount == Lengths(store, proof.incomingOids)
    ensures proof.objectTypeCounts.commit == CountOf(store, proof.incomingOids, "commit")
    ensures proof.objectTypeCounts.tree == CountOf(store, proof.incomingOids, "tree")
    ensures proof.objectTypeCounts.blob == CountOf(store, proof.incomingOids, "blob")
    ensures proof.objectTypeCounts.tag == CountOf(store, proof.incomingOids, "tag")
  {
    var p := ProblemOf(store, commands, advertised);
    ProofSets(store, commands, advertised, planSha256, proof);
    StrictlySortedDistinct(proof.incomingOids);
    forall oid | oid in proof.incomingOids ensures WellTyped(store, oid) {
      ReportedIff(proof, p, planSha256, oid);
      assert Fine(p, oid);
    }
    LengthsAreSum(p, proof.incomingOids);
    CountsAreOfType(p, proof.incomingOids, "commit");
    CountsAreOfType(p, proof.incomingOids, "tree");
    CountsAreOfType(p, proof.incomingOids, "blob");
    CountsAreOfType(p, proof.incomingOids, "tag");
  }

  lemma ProofSets(store: ObjectStore, commands: seq<ReceiveCommand>, advertised: seq<string>, planSha256: string,
                  proof: ClosureProof)
    requires Complete(ProblemOf(store, commands, advertised))
    requires Describes(proof, ProblemOf(store, commands, advertised), planSha256)
    ensures ReportsClosure(store, commands, advertised, proof)
  {
    var p := ProblemOf(store, commands, advertised);
    forall oid | oid in proof.incomingOids ensures oid !in advertised && Readable(store, oid) {
      ReportedIff(proof, p, planSha256, oid);
      assert Fine(p, oid);
      ReadableIff(store, oid);
    }
    forall oid | oid in proof.semanticExternalOids ensures oid in advertised && oid in store {
      ReportedIff(proof, p, planSha256, oid);
      assert Fine(p, oid);
    }
    forall i | 0 <= i < |commands| && commands[i].newOid != ZERO_OID ensures Reported(proof, commands[i].newOid) {
      TipsAre(commands, commands[i].newOid);
      RootsReached(p, commands[i].newOid);
      ReportedIff(proof, p, planSha256, commands[i].newOid);
    }
    forall from, to | from in proof.incomingOids && Names(store, from, to) ensures Reported(proof, to) {
      IncomingNamesReported(p, proof, planSha256, from, to);
    }
    forall oid | Reported(proof, oid) ensures Called(store, commands, proof.incomingOids, oid) {
      ReportedIsCalled(store, commands, advertised, proof, planSha256, oid);
    }
  }

  // ---------- When a proof is made ----------

  /** A set that holds the tips, keeps whatever its new objects name, and has
      nothing missing or unreadable. */
  ghost predicate Sufficient(store: ObjectStore, commands: seq<ReceiveCommand>, advertised: seq<string>,
                             s: set<string>) {
    && (forall i :: 0 <= i < |commands| && commands[i].newOid != ZERO_OID ==> commands[i].newOid in s)
    && (forall from, to :: from in s && from !in advertised && Names(store, from, to) ==> to in s)
    && (forall oid :: oid in s ==> oid in store && (oid in advertised || Readable(store, oid)))
  }

  ghost function LengthWeights(store: ObjectStore): map<string, nat> {
    map oid | oid in store :: Length(store[oid])
  }

  lemma {:induction false} SameSum(s: set<string>, a: map<string, nat>, b: map<string, nat>)
    requires forall oid :: oid in s ==> oid in a && oid in b && a[oid] == b[oid]
    ensures Sum(s, a) == Sum(s, b)
  {
    if s != {} {
      var x :| x in s;
      SumRemove(s, a, x);
      SumRemove(s, b, x);
      SameSum(s - {x}, a, b);
    }
  }

  /** Any such set within the bounds is enough for a proof to be made. */
  lemma SufficientIsComplete(store: ObjectStore, commands: seq<ReceiveCommand>, advertised: seq<string>, s: set<string>)
    requires Sufficient(store, commands, advertised, s)
    requires |s| <= MAX_CLOSURE_OBJECTS && Sum(s - Elements(advertised), LengthWeights(store)) <= MAX_CLOSURE_EDGES
    ensures Complete(ProblemOf(store, commands, advertised))
  {
    var p := ProblemOf(store, commands, advertised);
    forall oid | oid in p.roots ensures oid in s { TipsAre(commands, oid); }
    forall from, to | from in s && Edge(p, from, to) ensures to in s { EdgeIff(p, from, to); }
    ReachedIsLeast(p, s);
    forall oid | Reached(p, oid) ensures Fine(p, oid) {
      InReachedSet(p, oid);
      ReadableIff(store, oid);
    }
    SubsetCardinality(ReachedSet(p), s);
    forall oid | oid in Incoming(p) ensures EdgeWeights(p)[oid] == LengthWeights(store)[oid] {
      InReachedSet(p, oid);
      assert Fine(p, oid);
      ReadableIff(store, oid);
    }
    SameSum(Incoming(p), EdgeWeights(p), LengthWeights(store));
    SumMonotone(Incoming(p), s - Elements(advertised), LengthWeights(store));
  }

  /** And when a proof is made, the objects it lists are such a set. */
  lemma CompleteIsSufficient(store: ObjectStore, commands: seq<ReceiveCommand>, advertised: seq<string>)
    requires Complete(ProblemOf(store, commands, advertised))
    ensures var s := ReachedSet(ProblemOf(store, commands, advertised));
            && Sufficient(store, commands, advertised, s)
            && |s| <= MAX_CLOSURE_OBJECTS
            && Sum(s - Elements(advertised), LengthWeights(store)) <= MAX_CLOSURE_EDGES
  {
    var p := ProblemOf(store, commands, advertised);
    var s := ReachedSet(p);
    forall i | 0 <= i < |commands| && commands[i].newOid != ZERO_OID ensures commands[i].newOid in s {
      TipsAre(commands, commands[i].newOid);
      RootsReached(p, commands[i].newOid);
      InReachedSet(p, commands[i].newOid);
    }
    forall from, to | from in s && from !in advertised && Names(store, from, to) ensures to in s {
      EdgeIff(p, from, to);
      InReachedSet(p, from);
      EdgesReached(p, from, to);
      InReachedSet(p, to);
    }
    forall oid | oid in s ensures oid in store && (oid in advertised || Readable(store, oid)) {
      InReachedSet(p, oid);
      assert Fine(p, oid);
      ReadableIff(store, oid);
    }
    forall oid | oid in Incoming(p) ensures EdgeWeights(p)[oid] == LengthWeights(store)[oid] {
      InReachedSet(p, oid);
      assert Fine(p, oid);
      ReadableIff(store, oid);
    }
    assert Incoming(p) == s - Elements(advertised);
    SameSum(Incoming(p), EdgeWeights(p), LengthWeights(store));
  }
}
