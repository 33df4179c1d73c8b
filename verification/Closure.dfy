/** The logical closure walk made before a push is accepted: everything the new
    tips reach, cut at objects the server already advertises. */
module Closure {
  import opened Commands
  import opened Options
  import opened Ordering

  /** `references` is None when the object's metadata cannot be parsed. */
  datatype GitObject = GitObject(objectType: string, references: Option<seq<string>>)

  type ObjectStore = map<string, GitObject>

  datatype TypeCounts = TypeCounts(commit: int, tree: int, blob: int, tag: int)

  datatype ClosureProof = ClosureProof(
    planSha256: string,
    incomingOids: seq<string>,
    semanticExternalOids: seq<string>,
    visitedIncomingObjectCount: int,
    logicalEdgeCount: int,
    internalEdgeCount: int,
    externalEdgeCount: int,
    missingObjectCount: int,
    objectTypeCounts: TypeCounts)

  const MAX_CLOSURE_EDGES := 500_000

  function ObjectReferences(item: GitObject): Option<seq<string>> {
    match item.objectType
    case "blob" => Some([])
    case "commit" => item.references
    case "tag" => item.references
    case "tree" => item.references
    case _ => None
  }

  predicate WellTyped(store: ObjectStore, oid: string) {
    oid in store && ObjectReferences(store[oid]).Some?
  }

  function RefsOf(store: ObjectStore, oid: string): seq<string> {
    if WellTyped(store, oid) then ObjectReferences(store[oid]).value else []
  }

  // ---------- Reachability ----------

  /** The problem one walk solves. */
  datatype Problem = Problem(store: ObjectStore, boundary: set<string>, roots: seq<string>)

  /** A path starts at a root and leaves only non-boundary objects. */
  ghost predicate IsPath(p: Problem, path: seq<string>) {
    && path != []
    && path[0] in p.roots
    && forall i :: 0 <= i < |path| - 1 ==> Edge(p, path[i], path[i + 1])
  }

  ghost predicate Edge(p: Problem, from: string, to: string) {
    from !in p.boundary && to in RefsOf(p.store, from)
  }

  ghost predicate Reached(p: Problem, oid: string) {
    exists path :: IsPath(p, path) && path[|path| - 1] == oid
  }

  lemma RootsReached(p: Problem, oid: string)
    requires oid in p.roots
    ensures Reached(p, oid)
  {
    assert IsPath(p, [oid]);
  }

  lemma EdgesReached(p: Problem, from: string, to: string)
    requires Reached(p, from) && Edge(p, from, to)
    ensures Reached(p, to)
  {
    var path :| IsPath(p, path) && path[|path| - 1] == from;
    var longer := path + [to];
    assert forall i :: 0 <= i < |longer| - 1 ==> Edge(p, longer[i], longer[i + 1]);
    assert IsPath(p, longer);
  }

  ghost predicate Closed(p: Problem, s: set<string>) {
    && (forall oid :: oid in p.roots ==> oid in s)
    && (forall from, to :: from in s && Edge(p, from, to) ==> to in s)
  }

  lemma {:induction false} PathsStayWithin(p: Problem, s: set<string>, path: seq<string>)
    requires Closed(p, s) && IsPath(p, path)
    ensures path[|path| - 1] in s
    decreases |path|
  {
    if |path| > 1 {
      var front := path[..|path| - 1];
      PathsStayWithin(p, s, front);
      assert Edge(p, path[|path| - 2], path[|path| - 1]);
    }
  }

  /** Where reached objects can come from: a finite set. */
  ghost function Universe(p: Problem): set<string> {
    Elements(p.roots) + (set from, to | from in p.store && to in RefsOf(p.store, from) :: to)
  }

  lemma ReachedInUniverse(p: Problem, oid: string)
    requires Reached(p, oid)
    ensures oid in Universe(p)
  {
    var path :| IsPath(p, path) && path[|path| - 1] == oid;
    if |path| > 1 { assert Edge(p, path[|path| - 2], path[|path| - 1]); }
  }

  ghost function ReachedSet(p: Problem): set<string> {
    set oid | oid in Universe(p) && Reached(p, oid)
  }

  /** What is reached is closed under the walk's rules, and lies within every
      closed set. */
  lemma ReachedIsLeast(p: Problem, s: set<string>)
    requires Closed(p, s)
    ensures Closed(p, ReachedSet(p)) && ReachedSet(p) <= s
  {
    forall oid | oid in p.roots ensures oid in ReachedSet(p) {
      RootsReached(p, oid);
      ReachedInUniverse(p, oid);
    }
    forall from, to | from in ReachedSet(p) && Edge(p, from, to) ensures to in ReachedSet(p) {
      EdgesReached(p, from, to);
      ReachedInUniverse(p, to);
    }
    forall oid | oid in ReachedSet(p) ensures oid in s {
      var path :| IsPath(p, path) && path[|path| - 1] == oid;
      PathsStayWithin(p, s, path);
    }
  }

  ghost function Incoming(p: Problem): set<string> {
    ReachedSet(p) - p.boundary
  }

  ghost function Frontier(p: Problem): set<string> {
    ReachedSet(p) * p.boundary
  }

  // ---------- Sums over finite sets ----------

  ghost function Sum(s: set<string>, weight: map<string, nat>): nat {
    if s == {} then 0
    else
      var x :| x in s;
      (if x in weight then weight[x] else 0) + Sum(s - {x}, weight)
  }

  lemma {:induction false} SumRemove(s: set<string>, weight: map<string, nat>, y: string)
    requires y in s
    ensures Sum(s, weight) == (if y in weight then weight[y] else 0) + Sum(s - {y}, weight)
  {
    var x :| x in s && Sum(s, weight) == (if x in weight then weight[x] else 0) + Sum(s - {x}, weight);
    if x != y {
      SumRemove(s - {x}, weight, y);
      SumRemove(s - {y}, weight, x);
      assert s - {x} - {y} == s - {y} - {x};
    }
  }

  lemma SumAdd(s: set<string>, weight: map<string, nat>, y: string)
    requires y !in s
    ensures Sum(s + {y}, weight) == Sum(s, weight) + if y in weight then weight[y] else 0
  {
    SumRemove(s + {y}, weight, y);
    assert s + {y} - {y} == s;
  }

  lemma {:induction false} SumMonotone(s: set<string>, t: set<string>, weight: map<string, nat>)
    requires s <= t
    ensures Sum(s, weight) <= Sum(t, weight)
  {
    if s != {} {
      var x :| x in s;
      SumRemove(s, weight, x);
      SumRemove(t, weight, x);
      SumMonotone(s - {x}, t - {x}, weight);
    }
  }

  // ---------- What the walk must report ----------

  ghost function EdgeWeights(p: Problem): map<string, nat> {
    map oid | oid in p.store :: |RefsOf(p.store, oid)|
  }

  /** How many entries of `refs` are boundary objects, counting repeats. */
  function CountIn(refs: seq<string>, boundary: set<string>): nat {
    if refs == [] then 0
    else CountIn(refs[..|refs| - 1], boundary) + if refs[|refs| - 1] in boundary then 1 else 0
  }

  ghost function ExternalWeights(p: Problem): map<string, nat> {
    map oid | oid in p.store :: CountIn(RefsOf(p.store, oid), p.boundary)
  }

  ghost function OfType(p: Problem, s: set<string>, objectType: string): set<string> {
    set oid | oid in s && oid in p.store && p.store[oid].objectType == objectType
  }

  ghost function TypeCountsOf(p: Problem, s: set<string>): TypeCounts {
    TypeCounts(|OfType(p, s, "commit")|, |OfType(p, s, "tree")|, |OfType(p, s, "blob")|, |OfType(p, s, "tag")|)
  }

  /** Present and, unless it is cut off at the boundary, readable. */
  ghost predicate Fine(p: Problem, oid: string) {
    oid in p.store && (oid in p.boundary || WellTyped(p.store, oid))
  }

  ghost predicate WithinBounds(p: Problem) {
    |ReachedSet(p)| <= MAX_CLOSURE_OBJECTS && Sum(Incoming(p), EdgeWeights(p)) <= MAX_CLOSURE_EDGES
  }

  ghost predicate Complete(p: Problem) {
    (forall oid :: Reached(p, oid) ==> Fine(p, oid)) && WithinBounds(p)
  }

  /** The proof is a function of the problem, however the walk ordered its visits. */
  ghost predicate Describes(proof: ClosureProof, p: Problem, planSha256: string) {
    && proof.planSha256 == planSha256
    && StrictlySorted(StringLess, proof.incomingOids) && Elements(proof.incomingOids) == Incoming(p)
    && StrictlySorted(StringLess, proof.semanticExternalOids) && Elements(proof.semanticExternalOids) == Frontier(p)
    && proof.visitedIncomingObjectCount == |Incoming(p)|
    && proof.logicalEdgeCount == Sum(Incoming(p), EdgeWeights(p))
    && proof.externalEdgeCount == Sum(Incoming(p), ExternalWeights(p))
    && proof.internalEdgeCount == proof.logicalEdgeCount - proof.externalEdgeCount
    && proof.missingObjectCount == 0
    && proof.objectTypeCounts == TypeCountsOf(p, Incoming(p))
  }

  lemma ProofUnique(a: ClosureProof, b: ClosureProof, p: Problem, planSha256: string)
    requires Describes(a, p, planSha256) && Describes(b, p, planSha256)
    ensures a == b
  {
    SortedListingUnique(a.incomingOids, b.incomingOids);
    SortedListingUnique(a.semanticExternalOids, b.semanticExternalOids);
  }

  // ---------- The walk ----------

  /** What is known of a half-finished walk. */
  datatype Walk = Walk(
    seen: set<string>,
    external: set<string>,
    incoming: seq<string>,
    edges: nat,
    internalEdges: nat,
    externalEdges: nat,
    counts: TypeCounts)

  ghost predicate Sound(p: Problem, w: Walk) {
    && w.seen <= ReachedSet(p)
    && (forall oid :: oid in w.seen ==> Fine(p, oid))
    && w.seen * p.boundary <= w.external <= Frontier(p)
    && Distinct(w.incoming) && Elements(w.incoming) == w.seen - p.boundary
  }

  ghost predicate Tallied(p: Problem, w: Walk) {
    && w.edges == Sum(w.seen - p.boundary, EdgeWeights(p))
    && w.externalEdges == Sum(w.seen - p.boundary, ExternalWeights(p))
    && w.edges == w.internalEdges + w.externalEdges
    && w.counts == TypeCountsOf(p, w.seen - p.boundary)
  }

  /** Whatever a seen object or the roots demand is seen or still queued. */
  ghost predicate Pending(p: Problem, w: Walk, queue: seq<string>) {
    && (forall oid :: oid in queue ==> Reached(p, oid))
    && (forall oid :: oid in p.roots ==> oid in w.seen || oid in queue)
    && (forall from, to :: from in w.seen && Edge(p, from, to) ==> to in w.seen || to in queue)
  }

  function CountType(c: TypeCounts, objectType: string): TypeCounts {
    match objectType
    case "commit" => c.(commit := c.commit + 1)
    case "tree" => c.(tree := c.tree + 1)
    case "blob" => c.(blob := c.blob + 1)
    case "tag" => c.(tag := c.tag + 1)
    case _ => c
  }

  lemma OfTypeAdd(p: Problem, s: set<string>, oid: string, objectType: string)
    requires oid !in s && oid in p.store
    ensures |OfType(p, s + {oid}, objectType)| ==
            |OfType(p, s, objectType)| + if p.store[oid].objectType == objectType then 1 else 0
  {
    assert OfType(p, s + {oid}, objectType) ==
           OfType(p, s, objectType) + if p.store[oid].objectType == objectType then {oid} else {};
  }

  lemma TypeCountsAdd(p: Problem, s: set<string>, oid: string)
    requires oid !in s && WellTyped(p.store, oid)
    ensures TypeCountsOf(p, s + {oid}) == CountType(TypeCountsOf(p, s), p.store[oid].objectType)
  {
    OfTypeAdd(p, s, oid, "commit");
    OfTypeAdd(p, s, oid, "tree");
    OfTypeAdd(p, s, oid, "blob");
    OfTypeAdd(p, s, oid, "tag");
  }

  lemma {:induction false} CountInBound(refs: seq<string>, boundary: set<string>)
    ensures CountIn(refs, boundary) <= |refs|
  {
    if refs != [] { CountInBound(refs[..|refs| - 1], boundary); }
  }

  /** Reads an object's references: counts them, notes the boundary ones, queues all. */
  method PushReferences(p: Problem, w: Walk, queue: seq<string>, refs: seq<string>)
    returns (next: Walk, pending: seq<string>)
    ensures pending == queue + refs
    ensures next == w.(external := next.external,
                       internalEdges := next.internalEdges,
                       externalEdges := next.externalEdges)
    ensures next.external == w.external + (Elements(refs) * p.boundary)
    ensures next.externalEdges == w.externalEdges + CountIn(refs, p.boundary)
    ensures next.internalEdges + next.externalEdges == w.internalEdges + w.externalEdges + |refs|
  {
    next, pending := w, queue;
    for i := 0 to |refs|
      invariant pending == queue + refs[..i]
      invariant next == w.(external := next.external,
                           internalEdges := next.internalEdges,
                           externalEdges := next.externalEdges)
      invariant next.external == w.external + (Elements(refs[..i]) * p.boundary)
      invariant next.externalEdges == w.externalEdges + CountIn(refs[..i], p.boundary)
      invariant next.internalEdges + next.externalEdges == w.internalEdges + w.externalEdges + i
    {
      var oid := refs[i];
      assert refs[..i + 1] == refs[..i] + [oid];
      ElementsOfPrefix(refs, i);
      if oid in p.boundary {
        next := next.(externalEdges := next.externalEdges + 1, external := next.external + {oid});
      } else {
        next := next.(internalEdges := next.internalEdges + 1);
      }
      pending := pending + [oid];
    }
    assert refs[..|refs|] == refs;
  }

  lemma InReachedSet(p: Problem, oid: string)
    ensures oid in ReachedSet(p) <==> Reached(p, oid)
  {
    if Reached(p, oid) { ReachedInUniverse(p, oid); }
  }

  /** A walk that meets an unusable object, or needs more room, has met an
      incomplete problem. */
  lemma MissingObject(p: Problem, w: Walk, queue: seq<string>, oid: string)
    requires Pending(p, w, queue + [oid]) && oid !in p.store
    ensures !Complete(p)
  {
    assert oid in queue + [oid];
    assert !Fine(p, oid);
  }

  lemma TooManyObjects(p: Problem, w: Walk, oid: string)
    requires Sound(p, w) && Reached(p, oid) && oid !in w.seen && |w.seen| >= MAX_CLOSURE_OBJECTS
    ensures !Complete(p)
  {
    InReachedSet(p, oid);
    SubsetCardinality(w.seen + {oid}, ReachedSet(p));
  }

  lemma TooManyEdges(p: Problem, s: set<string>)
    requires s <= Incoming(p) && Sum(s, EdgeWeights(p)) > MAX_CLOSURE_EDGES
    ensures !Complete(p)
  {
    SumMonotone(s, Incoming(p), EdgeWeights(p));
  }

  lemma CutPending(p: Problem, w: Walk, queue: seq<string>, oid: string, next: Walk)
    requires Pending(p, w, queue + [oid]) && oid in p.boundary && next.seen == w.seen + {oid}
    ensures Pending(p, next, queue)
  {
    forall o | o in queue ensures Reached(p, o) { assert o in queue + [oid]; }
  }

  /** Cutting at a boundary object. */
  lemma CutStep(p: Problem, w: Walk, queue: seq<string>, oid: string)
    requires Sound(p, w) && Tallied(p, w) && Pending(p, w, queue + [oid])
    requires oid in p.boundary && oid in p.store
    ensures var next := w.(external := w.external + {oid}, seen := w.seen + {oid});
            Sound(p, next) && Tallied(p, next) && Pending(p, next, queue)
  {
    var next := w.(external := w.external + {oid}, seen := w.seen + {oid});
    CutPending(p, w, queue, oid, next);
    assert oid in queue + [oid];
    assert next.seen - p.boundary == w.seen - p.boundary;
    CutSound(p, w, oid, next);
  }

  lemma CutSound(p: Problem, w: Walk, oid: string, next: Walk)
    requires Sound(p, w) && Reached(p, oid) && oid in p.boundary && oid in p.store
    requires next == w.(external := w.external + {oid}, seen := w.seen + {oid})
    ensures Sound(p, next)
  {
    InReachedSet(p, oid);
    assert next.seen - p.boundary == w.seen - p.boundary;
  }

  lemma SkipStep(p: Problem, w: Walk, queue: seq<string>, oid: string)
    requires Pending(p, w, queue + [oid]) && oid in w.seen
    ensures Pending(p, w, queue)
  {
    forall o | o in queue ensures Reached(p, o) { assert o in queue + [oid]; }
  }

  lemma VisitPending(p: Problem, w: Walk, queue: seq<string>, oid: string, next: Walk)
    requires Pending(p, w, queue + [oid]) && WellTyped(p.store, oid) && oid !in p.boundary
    requires next.seen == w.seen + {oid}
    ensures Pending(p, next, queue + RefsOf(p.store, oid))
  {
    var refs := RefsOf(p.store, oid);
    assert oid in queue + [oid];
    forall o | o in queue + refs ensures Reached(p, o) {
      if o in queue {
        assert o in queue + [oid];
      } else {
        EdgesReached(p, oid, o);
      }
    }
  }

  lemma VisitSound(p: Problem, w: Walk, oid: string, next: Walk)
    requires Sound(p, w) && Reached(p, oid) && oid !in w.seen && WellTyped(p.store, oid) && oid !in p.boundary
    requires next.seen == w.seen + {oid} && next.incoming == w.incoming + [oid]
    requires next.external == w.external + (Elements(RefsOf(p.store, oid)) * p.boundary)
    ensures Sound(p, next)
  {
    InReachedSet(p, oid);
    ElementsOfAppend(w.incoming, oid);
    assert oid !in Elements(w.incoming);
    forall o | o in Elements(RefsOf(p.store, oid)) * p.boundary ensures o in Frontier(p) {
      EdgesReached(p, oid, o);
      InReachedSet(p, o);
    }
  }

  lemma VisitTallied(p: Problem, w: Walk, oid: string, next: Walk)
    requires Tallied(p, w) && oid !in w.seen && WellTyped(p.store, oid) && oid !in p.boundary
    requires next.seen == w.seen + {oid}
    requires next.edges == w.edges + |RefsOf(p.store, oid)|
    requires next.externalEdges == w.externalEdges + CountIn(RefsOf(p.store, oid), p.boundary)
    requires next.internalEdges + next.externalEdges == w.internalEdges + w.externalEdges + |RefsOf(p.store, oid)|
    requires next.counts == CountType(w.counts, p.store[oid].objectType)
    ensures Tallied(p, next)
  {
    var s := w.seen - p.boundary;
    assert next.seen - p.boundary == s + {oid};
    SumAdd(s, EdgeWeights(p), oid);
    SumAdd(s, ExternalWeights(p), oid);
    TypeCountsAdd(p, s, oid);
  }

  /** Visits one object that is neither seen nor cut off. None: the walk fails. */
  method Visit(p: Problem, w: Walk, queue: seq<string>, oid: string) returns (next: Option<Walk>, pending: seq<string>)
    requires Sound(p, w) && Tallied(p, w) && Pending(p, w, queue + [oid])
    requires oid !in w.seen && oid !in p.boundary
    ensures next.Some? ==> Sound(p, next.value) && Tallied(p, next.value) && Pending(p, next.value, pending)
    ensures next.Some? ==> next.value.seen == w.seen + {oid} && next.value.edges <= MAX_CLOSURE_EDGES
    ensures next.None? ==> !Complete(p)
  {
    pending := queue;
    assert oid in queue + [oid];
    if !WellTyped(p.store, oid) {
      assert !Fine(p, oid);
      return None, queue;
    }
    var item := p.store[oid];
    var refs := ObjectReferences(item).value;
    var visited := w.(
      seen := w.seen + {oid}, incoming := w.incoming + [oid],
      counts := CountType(w.counts, item.objectType), edges := w.edges + |refs|);
    var pushed: Walk;
    pushed, pending := PushReferences(p, visited, queue, refs);
    VisitSound(p, w, oid, pushed);
    VisitTallied(p, w, oid, pushed);
    VisitPending(p, w, queue, oid, pushed);
    if visited.edges > MAX_CLOSURE_EDGES {
      assert pushed.seen - p.boundary <= Incoming(p);
      TooManyEdges(p, pushed.seen - p.boundary);
      return None, queue;
    }
    next := Some(pushed);
  }

  /** An empty queue means that everything reachable has been seen. */
  lemma WalkFinished(p: Problem, w: Walk)
    requires Sound(p, w) && Pending(p, w, [])
    ensures w.seen == ReachedSet(p) && w.external == Frontier(p)
  {
    assert Closed(p, w.seen);
    forall oid | oid in ReachedSet(p) ensures oid in w.seen {
      var path :| IsPath(p, path) && path[|path| - 1] == oid;
      PathsStayWithin(p, w.seen, path);
    }
  }

  const EMPTY_WALK := Walk({}, {}, [], 0, 0, 0, TypeCounts(0, 0, 0, 0))

  lemma EmptyWalkTallied(p: Problem)
    ensures Tallied(p, EMPTY_WALK)
  {
    assert OfType(p, {}, "commit") == OfType(p, {}, "tree") == OfType(p, {}, "blob") == OfType(p, {}, "tag") == {};
    assert EMPTY_WALK.seen - p.boundary == {};
  }

  lemma WalkStarted(p: Problem)
    ensures Sound(p, EMPTY_WALK) && Tallied(p, EMPTY_WALK) && Pending(p, EMPTY_WALK, p.roots)
  {
    forall oid | oid in p.roots ensures Reached(p, oid) { RootsReached(p, oid); }
    EmptyWalkTallied(p);
  }

  lemma WalkComplete(p: Problem, w: Walk)
    requires Sound(p, w) && Tallied(p, w) && w.seen == ReachedSet(p)
    requires |w.seen| <= MAX_CLOSURE_OBJECTS && w.edges <= MAX_CLOSURE_EDGES
    ensures Complete(p)
  {
    forall oid | Reached(p, oid) ensures Fine(p, oid) { InReachedSet(p, oid); }
  }

  /** Takes an object that has not been seen. None: the walk fails. */
  method Take(p: Problem, w: Walk, queue: seq<string>, oid: string) returns (next: Option<Walk>, pending: seq<string>)
    requires Sound(p, w) && Tallied(p, w) && Pending(p, w, queue + [oid]) && oid !in w.seen
    ensures next.Some? ==> Sound(p, next.value) && Tallied(p, next.value) && Pending(p, next.value, pending)
    ensures next.Some? ==> |next.value.seen| == |w.seen| + 1
    ensures next.Some? && w.edges <= MAX_CLOSURE_EDGES ==> next.value.edges <= MAX_CLOSURE_EDGES
    ensures next.None? ==> !Complete(p)
  {
    if oid !in p.boundary {
      next, pending := Visit(p, w, queue, oid);
      return;
    }
    if oid !in p.store {
      MissingObject(p, w, queue, oid);
      return None, queue;
    }
    CutStep(p, w, queue, oid);
    next, pending := Some(w.(external := w.external + {oid}, seen := w.seen + {oid})), queue;
  }

  /** One round: takes the newest queued object. None: the walk fails. Each round
      uses up either room for a new object or an entry of the queue. */
  method Round(p: Problem, w: Walk, queue: seq<string>) returns (next: Option<Walk>, pending: seq<string>)
    requires queue != [] && Sound(p, w) && Tallied(p, w) && Pending(p, w, queue)
    requires |w.seen| <= MAX_CLOSURE_OBJECTS && w.edges <= MAX_CLOSURE_EDGES
    ensures next.Some? ==> Sound(p, next.value) && Tallied(p, next.value) && Pending(p, next.value, pending)
    ensures next.Some? ==> |next.value.seen| <= MAX_CLOSURE_OBJECTS && next.value.edges <= MAX_CLOSURE_EDGES
    ensures next.Some? ==> |next.value.seen| > |w.seen| || (next.value.seen == w.seen && |pending| < |queue|)
    ensures next.None? ==> !Complete(p)
  {
    var oid := queue[|queue| - 1];
    var rest := queue[..|queue| - 1];
    assert queue == rest + [oid];
    if oid in w.seen {
      SkipStep(p, w, rest, oid);
      return Some(w), rest;
    }
    if |w.seen| >= MAX_CLOSURE_OBJECTS {
      assert oid in queue;
      TooManyObjects(p, w, oid);
      return None, rest;
    }
    next, pending := Take(p, w, rest, oid);
  }

  /** Last in, first out, until nothing is queued. */
  method WalkClosure(p: Problem) returns (result: Option<Walk>)
    ensures result.Some? <==> Complete(p)
    ensures result.Some? ==> Sound(p, result.value) && Tallied(p, result.value)
    ensures result.Some? ==> result.value.seen == ReachedSet(p) && result.value.external == Frontier(p)
  {
    var queue := p.roots;
    var w := EMPTY_WALK;
    WalkStarted(p);
    while queue != []
      invariant Sound(p, w) && Tallied(p, w) && Pending(p, w, queue)
      invariant |w.seen| <= MAX_CLOSURE_OBJECTS && w.edges <= MAX_CLOSURE_EDGES
      decreases MAX_CLOSURE_OBJECTS - |w.seen|, |queue|
    {
      var next, pending := Round(p, w, queue);
      if next.None? {
        return None;
      }
      w, queue := next.value, pending;
    }
    WalkFinished(p, w);
    WalkComplete(p, w);
    result := Some(w);
  }

  function IsZeroOid(oid: string): bool {
    oid == ZERO_OID
  }

  /** The non-zero new ids, in command order. */
  function Tips(commands: seq<ReceiveCommand>): seq<string> {
    if commands == [] then []
    else
      var last := commands[|commands| - 1];
      Tips(commands[..|commands| - 1]) + if IsZeroOid(last.newOid) then [] else [last.newOid]
  }

  lemma {:induction false} TipsAreNewOids(commands: seq<ReceiveCommand>, oid: string)
    ensures oid in Tips(commands) <==> !IsZeroOid(oid) && exists i :: 0 <= i < |commands| && commands[i].newOid == oid
  {
    if commands != [] {
      var front := commands[..|commands| - 1];
      TipsAreNewOids(front, oid);
      if i :| 0 <= i < |front| && front[i].newOid == oid { assert commands[i].newOid == oid; }
      if i :| 0 <= i < |commands| && commands[i].newOid == oid {
        if i < |front| { assert front[i].newOid == oid; }
      }
    }
  }

  function ProblemOf(store: ObjectStore, commands: seq<ReceiveCommand>, advertised: seq<string>): Problem {
    Problem(store, Elements(advertised), Tips(commands))
  }

  method CollectTips(commands: seq<ReceiveCommand>) returns (queue: seq<string>)
    ensures queue == Tips(commands)
  {
    queue := [];
    for i := 0 to |commands|
      invariant queue == Tips(commands[..i])
    {
      assert commands[..i + 1][..i] == commands[..i];
      if !IsZeroOid(commands[i].newOid) {
        queue := queue + [commands[i].newOid];
      }
    }
    assert commands[..|commands|] == commands;
  }

  method CollectBoundary(advertised: seq<string>) returns (boundary: Option<set<string>>)
    ensures boundary.Some? <==> forall i :: 0 <= i < |advertised| ==> ValidOid(advertised[i])
    ensures boundary.Some? ==> boundary.value == Elements(advertised)
  {
    var found: set<string> := {};
    for i := 0 to |advertised|
      invariant forall k :: 0 <= k < i ==> ValidOid(advertised[k])
      invariant found == Elements(advertised[..i])
    {
      if !ValidOid(advertised[i]) {
        return None;
      }
      ElementsOfPrefix(advertised, i);
      found := found + {advertised[i]};
    }
    assert advertised[..|advertised|] == advertised;
    boundary := Some(found);
  }

  /** Lists a set in whatever order the map yields it. */
  method ListSet(s: set<string>) returns (r: seq<string>)
    ensures Distinct(r) && Elements(r) == s
  {
    r := [];
    var todo := s;
    while todo != {}
      invariant todo <= s && Distinct(r) && Elements(r) == s - todo
    {
      var x :| x in todo;
      assert x !in Elements(r);
      ElementsOfAppend(r, x);
      r := r + [x];
      todo := todo - {x};
    }
  }

  method SortStrings(s: seq<string>) returns (r: seq<string>)
    requires Distinct(s)
    ensures StrictlySorted(StringLess, r) && Elements(r) == Elements(s)
  {
    StringOrder();
    r := SortSlice(StringLess, s);
    MultisetElements(s, r);
    MultisetDistinct(s, r);
    SortedDistinctStrict(r);
  }

  /** Succeeds exactly on complete problems, and then reports the least fixpoint. */
  method VerifyLogicalClosure(store: ObjectStore, commands: seq<ReceiveCommand>, advertised: seq<string>,
                              planSha256: string)
    returns (proof: Option<ClosureProof>)
    ensures proof.Some? <==>
            && (forall i :: 0 <= i < |advertised| ==> ValidOid(advertised[i]))
            && Complete(ProblemOf(store, commands, advertised))
    ensures proof.Some? ==> Describes(proof.value, ProblemOf(store, commands, advertised), planSha256)
  {
    var boundary := CollectBoundary(advertised);
    if boundary.None? {
      return None;
    }
    var queue := CollectTips(commands);
    var p := Problem(store, boundary.value, queue);
    var walk := WalkClosure(p);
    if walk.None? {
      return None;
    }
    var w := walk.value;
    DistinctCardinality(w.incoming);
    var incoming := SortStrings(w.incoming);
    var unsorted := ListSet(w.external);
    var external := SortStrings(unsorted);
    proof := Some(ClosureProof(
      planSha256, incoming, external, |w.incoming|, w.edges, w.internalEdges, w.externalEdges, 0, w.counts));
  }
}
