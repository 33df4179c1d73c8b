/** What an accepted manifest and an accepted proof say, field by field. */
module ManifestMeaning {
  import opened Commands
  import opened Ordering
  import opened PhysicalNode
  import opened PhysicalGraph
  import opened Closure
  import opened Manifest

  const SPAN64 := 0x1_0000_0000_0000_0000

  /** The manifest repeats its request, and its prerequisite its required roots. */
  ghost predicate Repeats(m: ClosureManifest, r: Request) {
    && m == m.(schemaVersion := 2, operationId := r.operationId, input := r.input, packOffset := r.packOffset,
               commands := r.commands, advertisedRefs := r.advertisedRefs, prerequisite := r.prerequisite,
               prerequisiteOids := m.requiredRootOids)
    && (m.packBytes - (r.input.bytes - r.packOffset)) % SPAN64 == 0
  }

  ghost predicate ReplacedBy(commands: seq<ReceiveCommand>, oid: string) {
    exists i :: 0 <= i < |commands| && commands[i].oldOid == oid && commands[i].oldOid != ZERO_OID
  }

  /** The required roots are listed for one of three reasons each, and the first two
      exclude each other. */
  ghost predicate RootsListed(m: ClosureManifest, r: Request) {
    && (forall oid :: oid in m.requiredRootOids <==>
          oid in m.semanticExternalOids || oid in m.thinDeltaBaseOids || ReplacedBy(r.commands, oid))
    && (forall oid :: oid in m.thinDeltaBaseOids ==> oid !in m.semanticExternalOids)
    && (forall i :: 0 <= i < |m.advertisedRefs| ==> m.advertisedRefs[i].oid in m.advertisedReachableOids)
  }

  /** No count is negative or out of bounds, none is missing, and they add up - the
      types perhaps to a number that is 2^64 too large. */
  predicate CountsHold(c: ClosureCounts) {
    && c.missing == 0
    && c.visitedIncoming >= 0 && c.internalEdges >= 0 && c.externalEdges >= 0
    && c.commits >= 0 && c.trees >= 0 && c.blobs >= 0 && c.tags >= 0
    && c.visitedIncoming <= c.incoming <= 100_000 && c.logicalEdges <= 500_000
    && c.internalEdges + c.externalEdges == c.logicalEdges
    && (c.commits + c.trees + c.blobs + c.tags == c.visitedIncoming
        || c.commits + c.trees + c.blobs + c.tags == c.visitedIncoming + SPAN64)
  }

  lemma CountsIff(c: ClosureCounts)
    ensures CountsOk(c) <==> CountsHold(c)
  {
    if CountsOk(c) { CountsAddUpIff(c); }
  }

  lemma BindsIff(m: ClosureManifest, r: Request)
    ensures BindingsOk(m, r) && m.prerequisite == r.prerequisite && m.prerequisiteOids == m.requiredRootOids <==>
            Repeats(m, r)
  {}

  lemma RootsIff(m: ClosureManifest, r: Request)
    ensures RootsOk(m, r) <==> RootsListed(m, r)
  {
    forall oid ensures oid in OldTips(r.commands) <==> ReplacedBy(r.commands, oid) {}
    if RootsListed(m, r) {
      assert Elements(m.requiredRootOids) ==
             Elements(m.semanticExternalOids) + Elements(m.thinDeltaBaseOids) + OldTips(r.commands);
    }
    if RootsOk(m, r) {
      forall oid ensures oid in m.requiredRootOids <==>
          oid in m.semanticExternalOids || oid in m.thinDeltaBaseOids || ReplacedBy(r.commands, oid)
      {
        assert oid in m.requiredRootOids <==> oid in Elements(m.requiredRootOids);
      }
      forall oid | oid in m.thinDeltaBaseOids ensures oid !in m.semanticExternalOids {
        assert oid in Elements(m.thinDeltaBaseOids);
      }
    }
  }

  /** A manifest is accepted exactly when it repeats its request, lists its roots
      for a reason, counts soundly, lists ids in order, and its plan is accepted. */
  lemma AcceptedManifestIff(entryIdOf: Node -> string, m: ClosureManifest, r: Request)
    ensures AcceptedManifest(entryIdOf, m, r) <==>
            && Repeats(m, r) && RootsListed(m, r) && CountsHold(m.closure)
            && CanonicalOids(m.advertisedReachableOids, true) && CanonicalOids(m.semanticExternalOids, true)
            && CanonicalOids(m.thinDeltaBaseOids, true) && CanonicalOids(m.requiredRootOids, true)
            && AcceptedPlan(entryIdOf, m.plan, Elements(m.requiredRootOids))
  {
    BindsIff(m, r);
    RootsIff(m, r);
    CountsIff(m.closure);
  }

  /** A proof is accepted exactly when, but for the incoming ids, the manifest alone
      determines it, and these are in order and as many as were visited. */
  lemma AcceptedProofIff(proof: ClosureProof, m: ClosureManifest, planSha256: string)
    ensures AcceptedProof(proof, m, planSha256) <==>
            && proof == ClosureProof(planSha256, proof.incomingOids, m.semanticExternalOids, m.closure.visitedIncoming,
                                     m.closure.logicalEdges, m.closure.internalEdges, m.closure.externalEdges, 0,
                                     TypeCounts(m.closure.commits, m.closure.trees, m.closure.blobs, m.closure.tags))
            && |proof.incomingOids| == m.closure.visitedIncoming
            && CanonicalOids(proof.incomingOids, true) && CanonicalOids(m.semanticExternalOids, true)
  {}
}
