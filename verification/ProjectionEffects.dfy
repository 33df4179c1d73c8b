/** What a projection and a release answer and leave behind, field by field. */
module ProjectionEffects {
  import opened Commands
  import opened NetFacts
  import opened Options
  import opened RefList
  import opened SnapshotState
  import opened SnapshotRuns

  // ---------- Leases ----------

  /** The lease check is passed by a lease that names this token and the projection
      operation and has not expired, and by no other. */
  lemma LeaseActiveIff(s: Repo, token: Option<string>, now: int)
    ensures LeaseActive(s, token, now) <==>
            exists t, at :: token == Some(t) && t != "" && at > now && Lease(t, "snapshot-projection", at) in s.leases
  {
    if i :| LeaseActive(s, token, now) && 0 <= i < |s.leases| && s.leases[i].expiresAt > now
            && Projects(s.leases[i], token.value)
    {
      assert s.leases[i] == Lease(token.value, "snapshot-projection", s.leases[i].expiresAt);
    }
  }

  /** Dropping the expired leases keeps the others, as often as they were listed. */
  lemma {:induction false} LiveLeasesAre(leases: seq<Lease>, now: int, lease: Lease)
    ensures multiset(LiveLeases(leases, now))[lease] == if lease.expiresAt > now then multiset(leases)[lease] else 0
  {
    if leases != [] {
      var front, last := leases[..|leases| - 1], leases[|leases| - 1];
      LiveLeasesAre(front, now, lease);
      assert leases == front + [last];
      assert last.expiresAt > now ==> LiveLeases(leases, now) == LiveLeases(front, now) + [last];
    }
  }

  // ---------- Answers ----------

  /** A snapshot that cannot be read: its tree is no tree, or not the pinned one. */
  predicate WrongTree(s: Repo, commitSha: string, snap: Snapshot) {
    || !ValidPinnedSha(snap.treeSha)
    || (commitSha in s.pins && s.pins[commitSha].treeSha != snap.treeSha)
  }

  lemma InstallAnswers(s: Repo, f: PinFact, snap: Snapshot)
    requires PinsInOrder(s)
    ensures InstallOutcome(s, f, snap) ==
            if f.commitSha == ZERO_OID then Installed(false)
            else if WrongTree(s, f.commitSha, snap) then InvalidSnapshot
            else if f.commitSha !in s.pins && !LeaseActive(s, snap.token, snap.now) then LeaseExpired
            else Installed(f.commitSha !in s.pins)
  {
    assert PinRecord(s, f.commitSha);
  }

  /** What a projection at `sequence` answers once the snapshot is there: created if
      the commit had no pin, advanced if the pointer was behind, and the pointer. */
  predicate AnswersWith(s: Repo, outcome: Projection, ref: string, commitSha: string, sequence: int, snap: Snapshot) {
    && outcome.Projected?
    && (outcome.created <==> commitSha != ZERO_OID && commitSha !in s.pins)
    && (outcome.advanced <==> ref !in s.currents || s.currents[ref].sequence < sequence)
    && (if outcome.advanced then outcome.current == Current(ref, commitSha, sequence, snap.at)
        else outcome.current == s.currents[ref])
  }

  lemma PointAnswers(s: Repo, ref: string, commitSha: string, sequence: int, snap: Snapshot, created: bool)
    requires !PointerConflict(s, ref, commitSha, sequence)
    requires created <==> commitSha != ZERO_OID && commitSha !in s.pins
    ensures AnswersWith(s, PointTo(s, ref, commitSha, sequence, snap.at, created), ref, commitSha, sequence, snap)
  {}

  /** Neither the tree nor the lease is asked for when a ref was deleted. */
  predicate LeaseLacking(s: Repo, commitSha: string, snap: Snapshot) {
    commitSha !in s.pins && !LeaseActive(s, snap.token, snap.now)
  }

  /** In a reachable state a delivery is answered, case by case. */
  lemma DeliveryAnswers(s: Repo, past: seq<seq<Ref>>, id: JournalId, commitSha: string, snap: Snapshot)
    requires Truthful(s, past) && PinsInOrder(s)
    ensures var outcome := ProjectOutcome(s, id, commitSha, snap);
            if s.deleting then outcome.RepositoryDeleting?
            else if id !in s.journal || s.journal[id].fact.afterSha != commitSha then outcome.ProjectionThrew?
            else if commitSha != ZERO_OID && WrongTree(s, commitSha, snap) then outcome.Unusable?
            else if commitSha != ZERO_OID && LeaseLacking(s, commitSha, snap) then outcome.Expired?
            else AnswersWith(s, outcome, id.ref, commitSha, id.sequence, snap)
  {
    if !s.deleting && EntryMatches(s, id, commitSha) {
      InstallAnswers(s, PinFactOf(s.journal[id].fact), snap);
      TruePointerMoves(s, past, id.ref, commitSha, id.sequence, snap.at);
      PointAnswers(s, id.ref, commitSha, id.sequence, snap, commitSha != ZERO_OID && commitSha !in s.pins);
    }
  }

  /** And so is the projection of a reconciled head. */
  lemma HeadAnswers(s: Repo, past: seq<seq<Ref>>, ref: string, commitSha: string, sequence: int, snap: Snapshot)
    requires Truthful(s, past) && PinsInOrder(s)
    ensures var outcome := ReconcileOutcome(s, ref, commitSha, sequence, snap);
            if s.deleting then outcome.RepositoryDeleting?
            else if commitSha != Authoritative(s.refs, ref) || sequence != PlanSequence(s, ref) then outcome.Stale?
            else if commitSha != ZERO_OID && WrongTree(s, commitSha, snap) then outcome.Unusable?
            else if commitSha != ZERO_OID && LeaseLacking(s, commitSha, snap) then outcome.Expired?
            else AnswersWith(s, outcome, ref, commitSha, sequence, snap)
  {
    if !s.deleting && commitSha == Authoritative(s.refs, ref) && sequence == PlanSequence(s, ref) {
      InstallAnswers(s, ReconcileFact(ref, commitSha), snap);
      FreshSequenceIsTrue(s, past, ref);
      TruePointerMoves(s, past, ref, commitSha, sequence, snap.at);
      PointAnswers(s, ref, commitSha, sequence, snap, commitSha != ZERO_OID && commitSha !in s.pins);
    }
  }

  // ---------- What a projection leaves ----------

  /** The commit is pinned with the snapshot's tree, as it was if it was pinned, with
      this provenance if not; it is no longer released; no other commit is touched. */
  predicate SnapshotLeft(s: Repo, t: Repo, c: string, snap: Snapshot, ref: string, beforeSha: string, sequence: int,
                         actor: string, source: Source, key: Option<string>) {
    if c == ZERO_OID then t.pins == s.pins && t.tombstones == s.tombstones && t.materialized == s.materialized
    else
      && c in t.pins && t.pins[c].treeSha == snap.treeSha
      && t.pins == (if c in s.pins then s.pins else s.pins[c := t.pins[c]])
      && (c !in s.pins ==>
            && t.pins[c] == Pin(c, snap.treeSha, ref, beforeSha, sequence, snap.at, actor, source, key, false)
            && t.pinVersion == s.pinVersion + 1)
      && t.tombstones == s.tombstones - {c}
      && c in t.materialized
      && (c !in s.materialized ==> t.materialized == s.materialized[c := Materialized(c, sequence, snap.at)])
      && (c in s.materialized ==> t.materialized == s.materialized)
  }

  /** Expired leases go when a token was looked up, and never otherwise. */
  predicate LeasesLeft(s: Repo, t: Repo, c: string, snap: Snapshot) {
    t.leases ==
      if c != ZERO_OID && c !in s.pins && snap.token.Some? && snap.token.value != ""
      then LiveLeases(s.leases, snap.now) else s.leases
  }

  lemma InstalledLeaves(s: Repo, sequence: int, f: PinFact, snap: Snapshot)
    requires InstallOutcome(s, f, snap).Installed?
    ensures var t := InstallStep(s, sequence, f, snap);
            && SnapshotLeft(s, t, f.commitSha, snap, f.ref, f.beforeSha, sequence, f.actor, f.source, f.idempotencyKey)
            && LeasesLeft(s, t, f.commitSha, snap)
            && t == s.(pins := t.pins, pinVersion := t.pinVersion, tombstones := t.tombstones,
                       materialized := t.materialized, leases := t.leases)
  {}

  predicate Rest(s: Repo, t: Repo) {
    t.refs == s.refs && t.refsVersion == s.refsVersion && t.heads == s.heads && t.deleting == s.deleting
  }

  /** The pointer is where it was, or has moved forward to here. */
  predicate PointerAfter(s: Repo, t: Repo, ref: string, commitSha: string, sequence: int, at: int) {
    t.currents ==
      if ref !in s.currents || s.currents[ref].sequence < sequence
      then s.currents[ref := Current(ref, commitSha, sequence, at)] else s.currents
  }

  lemma AdvanceLeaves(s: Repo, t: Repo, ref: string, commitSha: string, sequence: int, at: int)
    requires t.currents == s.currents
    ensures var u := AdvancePointer(t, ref, commitSha, sequence, at);
            PointerAfter(s, u, ref, commitSha, sequence, at) && u == t.(currents := u.currents)
  {}

  /** A delivery that lands pins its commit with the entry's own provenance, marks
      the entry once, and touches nothing else but the pointer and old leases. */
  lemma DeliveryLeaves(s: Repo, id: JournalId, commitSha: string, snap: Snapshot)
    requires ProjectOutcome(s, id, commitSha, snap).Projected?
    ensures var t, e := ProjectStep(s, id, commitSha, snap), s.journal[id];
            && SnapshotLeft(s, t, commitSha, snap, e.fact.ref, e.fact.beforeSha, e.sequence, e.fact.context.actor,
                            e.fact.context.source, e.fact.context.idempotencyKey)
            && LeasesLeft(s, t, commitSha, snap)
            && t.journal ==
               s.journal[id := e.(materializedAt := if e.materializedAt == 0 then snap.at else e.materializedAt)]
            && PointerAfter(s, t, e.fact.ref, commitSha, e.sequence, snap.at)
            && Rest(s, t)
  {
    var e := s.journal[id];
    var f := PinFactOf(e.fact);
    InstalledLeaves(s, e.sequence, f, snap);
    var installed := InstallStep(s, e.sequence, f, snap);
    var marked := Marked(installed, id, snap.at);
    MarkedLeaves(installed, id, snap.at);
    AdvanceLeaves(s, marked, e.fact.ref, commitSha, e.sequence, snap.at);
    assert ProjectStep(s, id, commitSha, snap) == AdvancePointer(marked, e.fact.ref, commitSha, e.sequence, snap.at);
  }

  lemma MarkedLeaves(s: Repo, id: JournalId, at: int)
    requires id in s.journal
    ensures var t, e := Marked(s, id, at), s.journal[id];
            && t == s.(journal := t.journal)
            && t.journal ==
               s.journal[id := e.(materializedAt := if e.materializedAt == 0 then at else e.materializedAt)]
  {
    if s.journal[id].materializedAt != 0 { assert s.journal[id := s.journal[id]] == s.journal; }
  }

  /** A reconciled head that lands pins its commit as found, not as pushed. */
  lemma HeadLeaves(s: Repo, ref: string, commitSha: string, sequence: int, snap: Snapshot)
    requires ReconcileOutcome(s, ref, commitSha, sequence, snap).Projected?
    ensures var t := ReconcileStep(s, ref, commitSha, sequence, snap);
            && SnapshotLeft(s, t, commitSha, snap, ref, ZERO_OID, sequence, "reconcile", Reconcile, None)
            && LeasesLeft(s, t, commitSha, snap)
            && t.journal == s.journal
            && PointerAfter(s, t, ref, commitSha, sequence, snap.at)
            && Rest(s, t)
  {
    var f := ReconcileFact(ref, commitSha);
    InstalledLeaves(s, sequence, f, snap);
    var installed := InstallStep(s, sequence, f, snap);
    AdvanceLeaves(s, installed, ref, commitSha, sequence, snap.at);
    assert ReconcileStep(s, ref, commitSha, sequence, snap)
        == AdvancePointer(installed, ref, commitSha, sequence, snap.at);
  }

  lemma NotInstalledLeaves(s: Repo, sequence: int, f: PinFact, snap: Snapshot)
    requires !InstallOutcome(s, f, snap).Installed?
    ensures var t := InstallStep(s, sequence, f, snap);
            if InstallOutcome(s, f, snap).LeaseExpired? then ExpiredLeft(s, t, f.commitSha, snap) else t == s
  {}

  predicate ExpiredLeft(s: Repo, t: Repo, commitSha: string, snap: Snapshot) {
    t == s.(leases := t.leases) && LeasesLeft(s, t, commitSha, snap)
  }

  /** Any other answer leaves everything as it was; only looking in vain for a live
      lease drops the expired ones. */
  lemma DeliveryRefusalLeaves(s: Repo, id: JournalId, commitSha: string, snap: Snapshot)
    requires !ProjectOutcome(s, id, commitSha, snap).Projected?
    ensures var t := ProjectStep(s, id, commitSha, snap);
            if ProjectOutcome(s, id, commitSha, snap).Expired? then ExpiredLeft(s, t, commitSha, snap) else t == s
  {
    if EntryMatches(s, id, commitSha) {
      var f := PinFactOf(s.journal[id].fact);
      if !InstallOutcome(s, f, snap).Installed? { NotInstalledLeaves(s, s.journal[id].sequence, f, snap); }
    }
  }

  lemma HeadRefusalLeaves(s: Repo, ref: string, commitSha: string, sequence: int, snap: Snapshot)
    requires !ReconcileOutcome(s, ref, commitSha, sequence, snap).Projected?
    ensures var t := ReconcileStep(s, ref, commitSha, sequence, snap);
            if ReconcileOutcome(s, ref, commitSha, sequence, snap).Expired? then ExpiredLeft(s, t, commitSha, snap)
            else t == s
  {
    var f := ReconcileFact(ref, commitSha);
    if !InstallOutcome(s, f, snap).Installed? { NotInstalledLeaves(s, sequence, f, snap); }
  }

  // ---------- Releases ----------

  /** A release is granted exactly when the repository is not being deleted and no
      ref targets the commit. Granted, a pin or a known legacy snapshot resolves as
      released from then on; an unknown commit leaves no trace. */
  lemma ReleaseLeaves(s: Repo, c: string, now: int, legacyExists: bool, owned: bool)
    ensures ReleaseOutcome(s, c).Released? <==> !s.deleting && forall i :: 0 <= i < |s.refs| ==> s.refs[i].oid != c
    ensures ReleaseOutcome(s, c).DeletingRepository? <==> s.deleting
    ensures var t := ReleaseStep(s, c, now, legacyExists, owned);
            && (!ReleaseOutcome(s, c).Released? ==> t == s)
            && t == s.(pins := t.pins, materialized := t.materialized, tombstones := t.tombstones)
            && (ReleaseOutcome(s, c).Released? ==>
                  && Resolve(t, c)
                     == (if c in s.pins || c in s.tombstones || legacyExists then ReleasedSnapshot else Legacy)
                  && t.pins == s.pins - {c}
                  && t.materialized == (if c in s.pins then s.materialized - {c} else s.materialized)
                  && (c in s.pins ==>
                        t.tombstones == s.tombstones[c := Tombstone(c, now, s.pins[c].qualificationOwned || owned)])
                  && (c !in s.pins ==>
                        t.tombstones == if c !in s.tombstones && legacyExists
                                        then s.tombstones[c := Tombstone(c, now, owned)] else s.tombstones))
  {
    if c !in s.pins { assert s.pins - {c} == s.pins; }
  }
}
