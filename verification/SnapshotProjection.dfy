/** Deliveries in any order, repeated or not, and what a reconcile plan leads to. */
module SnapshotProjection {
  import opened Commands
  import opened NetFacts
  import opened Options
  import opened RefList
  import opened SnapshotState
  import opened SnapshotStore
  import opened SnapshotRuns

  // ---------- Deliveries ----------

  datatype Delivery = Delivery(id: JournalId, commitSha: string, snap: Snapshot)

  function Deliver1(s: Repo, d: Delivery): Repo {
    ProjectStep(s, d.id, d.commitSha, d.snap)
  }

  function DeliverAll(s: Repo, ds: seq<Delivery>): Repo {
    if ds == [] then s else Deliver1(DeliverAll(s, ds[..|ds| - 1]), ds[|ds| - 1])
  }

  predicate Lands(s: Repo, d: Delivery) {
    ProjectOutcome(s, d.id, d.commitSha, d.snap).Projected?
  }

  /** The entries whose delivery succeeded at least once. */
  function Landed(s: Repo, ds: seq<Delivery>): set<JournalId> {
    if ds == [] then {}
    else
      var front, d := ds[..|ds| - 1], ds[|ds| - 1];
      Landed(s, front) + if Lands(DeliverAll(s, front), d) then {d.id} else {}
  }

  /** An entry keeps its ref, commit and sequence whatever is delivered. */
  predicate SameEntry(s: Repo, t: Repo, id: JournalId) {
    (id in s.journal <==> id in t.journal) &&
    (id in s.journal ==> t.journal[id].fact == s.journal[id].fact && t.journal[id].sequence == s.journal[id].sequence)
  }

  /** Where a pointer may be: where it was, or at an entry that landed. */
  ghost predicate Candidate(s: Repo, landed: set<JournalId>, ref: string, commitSha: string, sequence: int) {
    || (ref in s.currents && s.currents[ref].commitSha == commitSha && s.currents[ref].sequence == sequence)
    || (JournalId(sequence, ref) in landed && JournalId(sequence, ref) in s.journal
        && s.journal[JournalId(sequence, ref)].fact.afterSha == commitSha)
  }

  ghost predicate HasCandidate(s: Repo, landed: set<JournalId>, ref: string) {
    ref in s.currents || exists id :: id in landed && id in s.journal && id.ref == ref
  }

  /** The pointer of `ref` among `currents` is at the greatest candidate. */
  ghost predicate AtGreatest(s: Repo, landed: set<JournalId>, currents: map<string, Current>, ref: string) {
    && (ref in currents <==> HasCandidate(s, landed, ref))
    && (ref in currents ==>
          && Candidate(s, landed, ref, currents[ref].commitSha, currents[ref].sequence)
          && forall commitSha, sequence :: Candidate(s, landed, ref, commitSha, sequence) ==>
               sequence <= currents[ref].sequence)
  }

  /** The pointers after a commit landed. */
  function Pointed(s: Repo, ref: string, commitSha: string, sequence: int, at: int): map<string, Current> {
    if PointerMoves(s, ref, sequence) then s.currents[ref := Current(ref, commitSha, sequence, at)] else s.currents
  }

  lemma ProjectEffect(s: Repo, d: Delivery)
    requires EntryMatches(s, d.id, d.commitSha)
    ensures ProjectInstalled(s, d.id, d.snap).currents == s.currents
    ensures ProjectInstalled(s, d.id, d.snap).refs == s.refs
    ensures ProjectInstalled(s, d.id, d.snap).refsVersion == s.refsVersion
    ensures ProjectInstalled(s, d.id, d.snap).heads == s.heads
    ensures forall id :: SameEntry(s, ProjectInstalled(s, d.id, d.snap), id)
  {
    var entry := s.journal[d.id];
    InstallTouchesPinsOnly(s, entry.sequence, PinFactOf(entry.fact), d.snap);
  }

  lemma LandingForm(s: Repo, d: Delivery)
    requires Keyed(s) && Lands(s, d)
    ensures EntryMatches(s, d.id, d.commitSha)
    ensures InstallOutcome(s, PinFactOf(s.journal[d.id].fact), d.snap).Installed?
    ensures Deliver1(s, d) ==
            AdvancePointer(ProjectInstalled(s, d.id, d.snap), d.id.ref, d.commitSha, d.id.sequence, d.snap.at)
  {}

  lemma MissForm(s: Repo, d: Delivery)
    requires !Lands(s, d)
    ensures SameHistory(s, Deliver1(s, d))
  {
    if EntryMatches(s, d.id, d.commitSha) {
      InstallTouchesPinsOnly(s, s.journal[d.id].sequence, PinFactOf(s.journal[d.id].fact), d.snap);
    }
  }

  /** What one delivery does to pointers and entries. */
  lemma DeliveryEffect(s: Repo, past: seq<seq<Ref>>, d: Delivery)
    requires Truthful(s, past)
    ensures Lands(s, d) ==> EntryMatches(s, d.id, d.commitSha)
    ensures Deliver1(s, d).currents ==
            if Lands(s, d) then Pointed(s, d.id.ref, d.commitSha, d.id.sequence, d.snap.at) else s.currents
    ensures Deliver1(s, d).refs == s.refs && Deliver1(s, d).refsVersion == s.refsVersion
            && Deliver1(s, d).heads == s.heads
    ensures forall id :: SameEntry(s, Deliver1(s, d), id)
  {
    if Lands(s, d) {
      LandingForm(s, d);
      ProjectEffect(s, d);
      forall id ensures SameEntry(s, Deliver1(s, d), id) { assert SameEntry(s, ProjectInstalled(s, d.id, d.snap), id); }
    } else {
      MissForm(s, d);
    }
  }

  lemma DeliveriesKeepTruth(s: Repo, past: seq<seq<Ref>>, ds: seq<Delivery>)
    requires Truthful(s, past)
    ensures Truthful(DeliverAll(s, ds), past)
    ensures forall id :: SameEntry(s, DeliverAll(s, ds), id)
    decreases |ds|
  {
    if ds != [] {
      var front, d := ds[..|ds| - 1], ds[|ds| - 1];
      DeliveriesKeepTruth(s, past, front);
      var t := DeliverAll(s, front);
      ProjectKeepsTruth(t, past, d.id, d.commitSha, d.snap);
      DeliveryEffect(t, past, d);
      forall id ensures SameEntry(s, DeliverAll(s, ds), id) {
        assert SameEntry(s, t, id) && SameEntry(t, Deliver1(t, d), id);
      }
    }
  }

  lemma LandedMore(s: Repo, landed: set<JournalId>, id: JournalId, ref: string)
    requires id in s.journal
    ensures HasCandidate(s, landed + {id}, ref) <==> HasCandidate(s, landed, ref) || id.ref == ref
    ensures forall c, q :: Candidate(s, landed + {id}, ref, c, q) <==>
              Candidate(s, landed, ref, c, q) || (id == JournalId(q, ref) && s.journal[id].fact.afterSha == c)
  {
    if id.ref == ref { assert id in landed + {id}; }
  }

  /** One more delivery keeps every pointer at its greatest candidate. */
  lemma OneMoreDelivery(s: Repo, past: seq<seq<Ref>>, landed: set<JournalId>, t: Repo, d: Delivery, ref: string)
    requires Truthful(t, past) && AtGreatest(s, landed, t.currents, ref) && SameEntry(s, t, d.id)
    ensures AtGreatest(s, landed + if Lands(t, d) then {d.id} else {}, Deliver1(t, d).currents, ref)
  {
    DeliveryEffect(t, past, d);
    if Lands(t, d) {
      LandedMore(s, landed, d.id, ref);
      PointerAtGreatest(s, landed, t, d, ref);
    } else {
      assert landed + {} == landed;
    }
  }

  lemma PointerAtGreatest(s: Repo, landed: set<JournalId>, t: Repo, d: Delivery, ref: string)
    requires d.id in s.journal && s.journal[d.id].fact.afterSha == d.commitSha
    requires AtGreatest(s, landed, t.currents, ref)
    ensures AtGreatest(s, landed + {d.id}, Pointed(t, d.id.ref, d.commitSha, d.id.sequence, d.snap.at), ref)
  {
    LandedMore(s, landed, d.id, ref);
  }

  /** Whatever is delivered, in whatever order and however often, each pointer
      ends at the greatest sequence among its start and the entries that landed. */
  lemma {:induction false} DeliveriesReachTheGreatest(s: Repo, past: seq<seq<Ref>>, ds: seq<Delivery>, ref: string)
    requires Truthful(s, past)
    ensures AtGreatest(s, Landed(s, ds), DeliverAll(s, ds).currents, ref)
  {
    if ds != [] {
      var front, d := ds[..|ds| - 1], ds[|ds| - 1];
      DeliveriesReachTheGreatest(s, past, front, ref);
      DeliveriesKeepTruth(s, past, front);
      assert SameEntry(s, DeliverAll(s, front), d.id);
      OneMoreDelivery(s, past, Landed(s, front), DeliverAll(s, front), d, ref);
    }
  }

  /** At one sequence a ref has one candidate only. */
  lemma CandidatesAgree(s: Repo, past: seq<seq<Ref>>, landed: set<JournalId>, ref: string, a: string, b: string,
                        sequence: int)
    requires Truthful(s, past)
    requires Candidate(s, landed, ref, a, sequence) && Candidate(s, landed, ref, b, sequence)
    ensures a == b
  {
    OneTruth(past, ref, sequence, a, b);
  }

  /** The pointers are decided by which entries landed, not by when. */
  lemma SameLandedSamePointers(s: Repo, past: seq<seq<Ref>>, ds: seq<Delivery>, es: seq<Delivery>, ref: string)
    requires Truthful(s, past)
    requires Landed(s, ds) == Landed(s, es)
    ensures SamePosition(DeliverAll(s, ds), DeliverAll(s, es), ref)
  {
    DeliveriesReachTheGreatest(s, past, ds, ref);
    DeliveriesReachTheGreatest(s, past, es, ref);
    var t, u := DeliverAll(s, ds), DeliverAll(s, es);
    if ref in t.currents {
      assert t.currents[ref].sequence == u.currents[ref].sequence;
      CandidatesAgree(s, past, Landed(s, ds), ref, t.currents[ref].commitSha, u.currents[ref].commitSha,
                      t.currents[ref].sequence);
    }
  }

  /** The pointer of `ref` is at the same commit and sequence, or absent in both. */
  predicate SamePosition(t: Repo, u: Repo, ref: string) {
    && (ref in t.currents <==> ref in u.currents)
    && (ref in t.currents ==>
          && t.currents[ref].commitSha == u.currents[ref].commitSha
          && t.currents[ref].sequence == u.currents[ref].sequence)
  }

  /** A delivery that landed may be repeated at once: nothing changes any more. */
  lemma DeliveryIsIdempotent(s: Repo, past: seq<seq<Ref>>, d: Delivery)
    requires Truthful(s, past) && Lands(s, d)
    ensures Lands(Deliver1(s, d), d) && Deliver1(Deliver1(s, d), d) == Deliver1(s, d)
    ensures var again := ProjectOutcome(Deliver1(s, d), d.id, d.commitSha, d.snap); !again.created && !again.advanced
  {
    var t := Deliver1(s, d);
    ProjectKeepsTruth(s, past, d.id, d.commitSha, d.snap);
    DeliveryEffect(s, past, d);
    assert SameEntry(s, t, d.id);
    ProjectKeepsTruth(t, past, d.id, d.commitSha, d.snap);
    LandedIsInstalled(s, past, d);
    RepeatedInstall(t, d);
  }

  /** After a delivery landed its commit is pinned with the tree it delivered. */
  predicate InstalledFor(t: Repo, d: Delivery) {
    && !t.deleting && d.id in t.journal
    && t.journal[d.id].fact.afterSha == d.commitSha
    && (t.journal[d.id].materializedAt != 0 || d.snap.at == 0)
    && (d.commitSha != ZERO_OID ==>
          && ValidPinnedSha(d.snap.treeSha)
          && d.commitSha in t.pins && t.pins[d.commitSha].treeSha == d.snap.treeSha
          && t.pins[d.commitSha].commitSha == d.commitSha
          && d.commitSha in t.materialized && d.commitSha !in t.tombstones)
  }

  lemma LandedIsInstalled(s: Repo, past: seq<seq<Ref>>, d: Delivery)
    requires Truthful(s, past) && Lands(s, d)
    ensures InstalledFor(Deliver1(s, d), d)
  {
    LandingForm(s, d);
    if d.commitSha != ZERO_OID {
      InstallPins(s, d.id.sequence, PinFactOf(s.journal[d.id].fact), d.snap);
    }
    InstallTouchesPinsOnly(s, d.id.sequence, PinFactOf(s.journal[d.id].fact), d.snap);
  }

  lemma InstallPins(s: Repo, sequence: int, f: PinFact, snap: Snapshot)
    requires InstallOutcome(s, f, snap).Installed? && f.commitSha != ZERO_OID
    ensures var t := InstallStep(s, sequence, f, snap);
            && ValidPinnedSha(snap.treeSha)
            && f.commitSha in t.pins && t.pins[f.commitSha].treeSha == snap.treeSha
            && t.pins[f.commitSha].commitSha == f.commitSha
            && f.commitSha in t.materialized && f.commitSha !in t.tombstones
  {}

  lemma RepeatedInstall(t: Repo, d: Delivery)
    requires InstalledFor(t, d)
    ensures InstallOutcome(t, PinFactOf(t.journal[d.id].fact), d.snap) == Installed(false)
    ensures ProjectInstalled(t, d.id, d.snap) == t
  {
    var entry := t.journal[d.id];
    if d.commitSha != ZERO_OID {
      assert t.tombstones - {d.commitSha} == t.tombstones;
    }
    assert InstallStep(t, entry.sequence, PinFactOf(entry.fact), d.snap) == t;
    if entry.materializedAt == 0 {
      assert t.journal[d.id := entry.(materializedAt := d.snap.at)] == t.journal;
    }
  }

  // ---------- Late repeats ----------

  /** The entry landed and its pointer has reached it. */
  predicate Settled(t: Repo, d: Delivery) {
    && InstalledFor(t, d)
    && d.id.ref in t.currents && t.currents[d.id.ref].sequence >= d.id.sequence
  }

  lemma LandedIsSettled(s: Repo, past: seq<seq<Ref>>, d: Delivery)
    requires Truthful(s, past) && Lands(s, d)
    ensures Settled(Deliver1(s, d), d)
  {
    LandedIsInstalled(s, past, d);
    DeliveryEffect(s, past, d);
  }

  /** A delivery marks its own entry at most, and never unmarks one. */
  lemma MarksStay(s: Repo, past: seq<seq<Ref>>, e: Delivery, id: JournalId)
    requires Truthful(s, past) && id in s.journal
    ensures var t := Deliver1(s, e);
            t.deleting == s.deleting && id in t.journal &&
            (s.journal[id].materializedAt != 0 ==> t.journal[id].materializedAt != 0)
  {
    if Lands(s, e) {
      LandingForm(s, e);
      InstallTouchesPinsOnly(s, s.journal[e.id].sequence, PinFactOf(s.journal[e.id].fact), e.snap);
    } else {
      MissForm(s, e);
    }
  }

  lemma InstalledStays(s: Repo, past: seq<seq<Ref>>, d: Delivery, e: Delivery)
    requires Truthful(s, past) && PinsInOrder(s) && InstalledFor(s, d)
    ensures InstalledFor(Deliver1(s, e), d)
  {
    var t := Deliver1(s, e);
    DeliveryEffect(s, past, e);
    MarksStay(s, past, e, d.id);
    ProjectInOrder(s, e.id, e.commitSha, e.snap);
    assert SameEntry(s, t, d.id) && PinStays(s, t, d.commitSha) && PinRecord(t, d.commitSha);
  }

  lemma SettledStays(s: Repo, past: seq<seq<Ref>>, d: Delivery, e: Delivery)
    requires Truthful(s, past) && PinsInOrder(s) && Settled(s, d)
    ensures Settled(Deliver1(s, e), d)
  {
    InstalledStays(s, past, d, e);
    DeliveryEffect(s, past, e);
  }

  lemma {:induction false} SettledThroughout(s: Repo, past: seq<seq<Ref>>, d: Delivery, es: seq<Delivery>)
    requires Truthful(s, past) && PinsInOrder(s) && Settled(s, d)
    ensures var u := DeliverAll(s, es); Truthful(u, past) && PinsInOrder(u) && Settled(u, d)
  {
    if es != [] {
      var front, e := es[..|es| - 1], es[|es| - 1];
      SettledThroughout(s, past, d, front);
      var u := DeliverAll(s, front);
      SettledStays(u, past, d, e);
      ProjectKeepsTruth(u, past, e.id, e.commitSha, e.snap);
      ProjectInOrder(u, e.id, e.commitSha, e.snap);
    }
  }

  lemma SettledRepeats(u: Repo, past: seq<seq<Ref>>, d: Delivery)
    requires Truthful(u, past) && Settled(u, d)
    ensures Lands(u, d) && Deliver1(u, d) == u
  {
    RepeatedInstall(u, d);
    ProjectKeepsTruth(u, past, d.id, d.commitSha, d.snap);
  }

  /** A delivery that landed may be repeated at any later time, whatever else was
      delivered in between: it lands again and changes nothing at all. */
  lemma LateRepeatChangesNothing(s: Repo, past: seq<seq<Ref>>, d: Delivery, es: seq<Delivery>)
    requires Truthful(s, past) && PinsInOrder(s) && Lands(s, d)
    ensures var u := DeliverAll(Deliver1(s, d), es); Lands(u, d) && Deliver1(u, d) == u
  {
    LandedIsSettled(s, past, d);
    ProjectKeepsTruth(s, past, d.id, d.commitSha, d.snap);
    ProjectInOrder(s, d.id, d.commitSha, d.snap);
    SettledThroughout(Deliver1(s, d), past, d, es);
    SettledRepeats(DeliverAll(Deliver1(s, d), es), past, d);
  }

  // ---------- Reconciliation ----------

  /** Carrying out a plan, as the reconciler does: deliver the entry, or project
      the head. */
  function CarryOut(s: Repo, plan: ReconcilePlan, snap: Snapshot): Repo {
    match plan
    case Deliver(entry) => ProjectStep(s, entry.id, entry.fact.afterSha, snap)
    case HeadOnly(ref, afterSha, sequence, _) => ReconcileStep(s, ref, afterSha, sequence, snap)
    case _ => s
  }

  function CarryOutcome(s: Repo, plan: ReconcilePlan, snap: Snapshot): Projection
    requires plan.Deliver? || plan.HeadOnly?
  {
    match plan
    case Deliver(entry) => ProjectOutcome(s, entry.id, entry.fact.afterSha, snap)
    case HeadOnly(ref, afterSha, sequence, _) => ReconcileOutcome(s, ref, afterSha, sequence, snap)
  }

  /** The snapshot can be installed for this commit right now. */
  predicate Installable(s: Repo, commitSha: string, snap: Snapshot) {
    || commitSha == ZERO_OID
    || (&& ValidPinnedSha(snap.treeSha)
        && if commitSha in s.pins
           then s.pins[commitSha].treeSha == snap.treeSha
           else LeaseActive(s, snap.token, snap.now))
  }

  lemma InstallableIff(s: Repo, f: PinFact, snap: Snapshot)
    requires PinsInOrder(s)
    ensures InstallOutcome(s, f, snap).Installed? <==> Installable(s, f.commitSha, snap)
  {
    assert PinRecord(s, f.commitSha);
  }

  /** The projector calls a head stale exactly when the planner would plan
      another commit or another sequence. */
  lemma PlannerAndProjectorAgree(s: Repo, ref: string, commitSha: string, sequence: int, snap: Snapshot)
    ensures ReconcileOutcome(s, ref, commitSha, sequence, snap).Stale? <==>
            !s.deleting && !(commitSha == Authoritative(s.refs, ref) && sequence == PlanSequence(s, ref))
  {}

  lemma DeliverySucceedsIff(s: Repo, past: seq<seq<Ref>>, id: JournalId, commitSha: string, snap: Snapshot)
    requires Truthful(s, past) && PinsInOrder(s) && EntryMatches(s, id, commitSha)
    ensures var outcome := ProjectOutcome(s, id, commitSha, snap);
            && !outcome.Stale? && !outcome.ProjectionThrew?
            && (outcome.Projected? <==> !s.deleting && Installable(s, commitSha, snap))
  {
    InstallableIff(s, PinFactOf(s.journal[id].fact), snap);
    ProjectKeepsTruth(s, past, id, commitSha, snap);
  }

  /** In a reachable state a plan on unchanged refs is never stale and never
      throws: it succeeds exactly when the snapshot can be installed. */
  lemma PlanSucceedsIffInstallable(s: Repo, past: seq<seq<Ref>>, ref: string, snap: Snapshot)
    requires Truthful(s, past) && PinsInOrder(s)
    requires PlanFor(s, ref).Deliver? || PlanFor(s, ref).HeadOnly?
    ensures var outcome := CarryOutcome(s, PlanFor(s, ref), snap);
            && !outcome.Stale? && !outcome.ProjectionThrew?
            && (outcome.Projected? <==> !s.deleting && Installable(s, Authoritative(s.refs, ref), snap))
  {
    var afterSha, sequence := Authoritative(s.refs, ref), PlanSequence(s, ref);
    if PlanFor(s, ref).Deliver? {
      DeliverySucceedsIff(s, past, JournalId(sequence, ref), afterSha, snap);
    } else {
      HeadSucceedsIff(s, past, ref, snap);
    }
  }

  lemma HeadSucceedsIff(s: Repo, past: seq<seq<Ref>>, ref: string, snap: Snapshot)
    requires Truthful(s, past) && PinsInOrder(s)
    ensures var afterSha := Authoritative(s.refs, ref);
            var outcome := ReconcileOutcome(s, ref, afterSha, PlanSequence(s, ref), snap);
            && !outcome.Stale? && !outcome.ProjectionThrew?
            && (outcome.Projected? <==> !s.deleting && Installable(s, afterSha, snap))
  {
    InstallableIff(s, ReconcileFact(ref, Authoritative(s.refs, ref)), snap);
    ReconcileKeepsTruth(s, past, ref, Authoritative(s.refs, ref), PlanSequence(s, ref), snap);
  }

  lemma ReconcileEffect(s: Repo, ref: string, commitSha: string, sequence: int, snap: Snapshot)
    requires ReconcileOutcome(s, ref, commitSha, sequence, snap).Projected?
    ensures var t := ReconcileStep(s, ref, commitSha, sequence, snap);
            && t.refs == s.refs && t.refsVersion == s.refsVersion && t.heads == s.heads
            && t.currents == Pointed(s, ref, commitSha, sequence, snap.at)
  {
    var t := InstallStep(s, sequence, ReconcileFact(ref, commitSha), snap);
    InstallTouchesPinsOnly(s, sequence, ReconcileFact(ref, commitSha), snap);
    assert ReconcileStep(s, ref, commitSha, sequence, snap) == AdvancePointer(t, ref, commitSha, sequence, snap.at);
  }

  /** What carrying out a plan does to its ref. */
  lemma PlanEffect(s: Repo, past: seq<seq<Ref>>, ref: string, snap: Snapshot)
    requires Truthful(s, past)
    requires PlanFor(s, ref).Deliver? || PlanFor(s, ref).HeadOnly?
    requires CarryOutcome(s, PlanFor(s, ref), snap).Projected?
    ensures var t, sequence := CarryOut(s, PlanFor(s, ref), snap), PlanSequence(s, ref);
            && t.refs == s.refs && t.refsVersion == s.refsVersion && t.heads == s.heads
            && t.currents == Pointed(s, ref, Authoritative(s.refs, ref), sequence, snap.at)
  {
    var afterSha, sequence := Authoritative(s.refs, ref), PlanSequence(s, ref);
    if PlanFor(s, ref).Deliver? {
      DeliveryEffect(s, past, Delivery(JournalId(sequence, ref), afterSha, snap));
    } else {
      ReconcileEffect(s, ref, afterSha, sequence, snap);
    }
  }

  /** Reconciliation converges: once a plan succeeded on unchanged refs the next
      one is up to date - exactly unless the accepted head is the ref's value
      again at a sequence the pointer has already passed. */
  lemma ReconciliationConverges(s: Repo, past: seq<seq<Ref>>, ref: string, snap: Snapshot)
    requires Truthful(s, past)
    requires PlanFor(s, ref).Deliver? || PlanFor(s, ref).HeadOnly?
    requires CarryOutcome(s, PlanFor(s, ref), snap).Projected?
    ensures PlanFor(CarryOut(s, PlanFor(s, ref), snap), ref).UpToDate? <==> !Overtaken(s, ref)
  {
    PlanEffect(s, past, ref, snap);
    FreshSequenceIsTrue(s, past, ref);
    var t := CarryOut(s, PlanFor(s, ref), snap);
    assert PlanSequence(t, ref) == PlanSequence(s, ref);
    if ref in s.currents {
      assert Was(past, ref, s.currents[ref].commitSha, s.currents[ref].sequence);
    }
  }

  /** The accepted head is current, yet the pointer is at a greater sequence. */
  predicate Overtaken(s: Repo, ref: string) {
    && ref in s.heads && s.heads[ref].afterSha == Authoritative(s.refs, ref)
    && ref in s.currents && s.currents[ref].sequence > s.heads[ref].sequence
  }

  /** The plan's sequence is below the pointer's exactly in that case. */
  lemma OvertakenIff(s: Repo, past: seq<seq<Ref>>, ref: string)
    requires Truthful(s, past)
    ensures Overtaken(s, ref) <==> !(ref in s.currents ==> s.currents[ref].sequence <= PlanSequence(s, ref))
  {
    if ref in s.currents { assert Was(past, ref, s.currents[ref].commitSha, s.currents[ref].sequence); }
  }

  /** It does happen: a ref set away from its accepted commit, reconciled there
      and set back leaves the pointer ahead of every later plan. */
  lemma OvertakenIsReachable(a: string, context: Context, snap: Snapshot)
    requires a != ZERO_OID
    ensures var es := SetAwayAndBack(a, context, snap);
            AllFitting(es) && Overtaken(Run(EMPTY_REPO, es), MAIN) && PlanFor(Run(EMPTY_REPO, es), MAIN).Deliver?
  {
    var es := SetAwayAndBack(a, context, snap);
    var p := es[0].push;
    CreatingFits(p, 0, a);
    assert es[..4] == es && es[..4][..3] == es[..3] && es[..3][..2] == es[..2];
    assert es[..2][..1] == es[..1] && es[..1][..0] == [];
    var s1 := Run(EMPTY_REPO, es[..1]);
    CreatingPush(EMPTY_REPO, p, a);
    assert es[..1] != [] && es[..1][..0] == [] && Run(EMPTY_REPO, []) == EMPTY_REPO;
    assert s1 == Step(Run(EMPTY_REPO, es[..1][..0]), es[..1][0]);
    assert s1 == AcceptStep(EMPTY_REPO, p);
    var s2 := s1.(refs := [], refsVersion := 2);
    assert Run(EMPTY_REPO, es[..2]) == s2;
    var s3 := s2.(currents := map[MAIN := Current(MAIN, ZERO_OID, 2, snap.at)]);
    assert Run(EMPTY_REPO, es[..3]) == s3;
    assert Run(EMPTY_REPO, es) == s3.(refs := [Ref(MAIN, a)], refsVersion := 3);
  }

  const MAIN := "refs/heads/main"

  function SetAwayAndBack(a: string, context: Context, snap: Snapshot): seq<Event> {
    [Accept(Push(0, [ReceiveCommand(ZERO_OID, a, MAIN)], [Fact(context, MAIN, ZERO_OID, a)], 0, true, None)),
     SetRefs([]),
     ReconcileHead(MAIN, ZERO_OID, 2, snap),
     SetRefs([Ref(MAIN, a)])]
  }

  /** A push that creates the one ref of a repository without refs. */
  predicate CreatesMain(p: Push, version: int, a: string) {
    && p.expectedVersion == version && p.journal && p.pin.None? && a != ZERO_OID
    && p.commands == [ReceiveCommand(ZERO_OID, a, MAIN)]
    && |p.facts| == 1 && p.facts[0].ref == MAIN && p.facts[0].beforeSha == ZERO_OID && p.facts[0].afterSha == a
  }

  lemma CreatingFits(p: Push, version: int, a: string)
    requires CreatesMain(p, version, a)
    ensures FactsFit(p)
  {
    assert Front(p.commands) == [] && Last(p.commands).ref == MAIN;
    TouchedByLast(p.commands, MAIN);
  }

  lemma CreatingPush(s: Repo, p: Push, a: string)
    requires s.refs == [] && CreatesMain(p, s.refsVersion, a) && JournalId(s.refsVersion + 1, MAIN) !in s.journal
    ensures var id := JournalId(s.refsVersion + 1, MAIN);
            AcceptStep(s, p) == s.(
              refs := [Ref(MAIN, a)],
              refsVersion := s.refsVersion + 1,
              heads := s.heads[MAIN := Head(MAIN, ZERO_OID, a, s.refsVersion + 1)],
              journal := s.journal[id := Entry(id, s.refsVersion + 1, p.facts[0], p.acceptedAt, 0)])
  {
    assert Front(p.commands) == [];
    assert ApplyReceiveCommands([], []) == [];
    assert ApplyReceiveCommands([], p.commands) == [Ref(MAIN, a)];
    assert p.facts[..0] == [];
    var sequence := s.refsVersion + 1;
    var landing := s.(refs := [Ref(MAIN, a)], refsVersion := sequence);
    var start := Recorded(landing, true, false);
    assert RecordAll(landing, sequence, p.facts[..0], p.acceptedAt, true, None) == start;
    assert RecordAll(landing, sequence, p.facts, p.acceptedAt, true, None) ==
           RecordOne(start, sequence, p.facts[0], p.acceptedAt, true, None);
    assert PinFits(p.facts, p.pin);
    assert AcceptRecorded(s, p) == RecordOne(start, sequence, p.facts[0], p.acceptedAt, true, None);
  }
}
