/** The durable store itself: each operation updates its records one by one, as
    one transaction, and is shown to make exactly the transition stated for it. */
module SnapshotStore {
  import opened Commands
  import opened NetFacts
  import opened Options
  import opened RefList
  import opened SnapshotState

  class Store {
    var refs: seq<Ref>
    var refsVersion: int
    var deleting: bool
    var heads: map<string, Head>
    var journal: map<JournalId, Entry>
    var pins: map<string, Pin>
    var tombstones: map<string, Tombstone>
    var materialized: map<string, Materialized>
    var currents: map<string, Current>
    var pinVersion: int
    var leases: seq<Lease>

    function State(): Repo
      reads this
    {
      Repo(refs, refsVersion, deleting, heads, journal, pins, tombstones, materialized, currents, pinVersion, leases)
    }

    constructor ()
      ensures State() == EMPTY_REPO
    {
      refs, refsVersion, deleting := [], 0, false;
      heads, journal, pins, tombstones, materialized, currents := map[], map[], map[], map[], map[], map[];
      pinVersion, leases := 0, [];
    }

    /** A transaction that throws is rolled back as a whole. */
    method RollBack(saved: Repo)
      modifies this
      ensures State() == saved
    {
      refs, refsVersion, deleting := saved.refs, saved.refsVersion, saved.deleting;
      heads, journal, pins, tombstones := saved.heads, saved.journal, saved.pins, saved.tombstones;
      materialized, currents, pinVersion, leases := saved.materialized, saved.currents, saved.pinVersion, saved.leases;
    }

    /** Moves the pointer forward only; the same sequence with another commit is
        a conflict. */
    method MovePointer(ref: string, commitSha: string, sequence: int, at: int) returns (conflict: bool, advanced: bool)
      modifies this`currents
      ensures conflict <==> PointerConflict(old(State()), ref, commitSha, sequence)
      ensures advanced <==> PointerMoves(old(State()), ref, sequence)
      ensures State() == AdvancePointer(old(State()), ref, commitSha, sequence, at)
    {
      conflict, advanced := false, false;
      if ref !in currents || sequence > currents[ref].sequence {
        currents := currents[ref := Current(ref, commitSha, sequence, at)];
        advanced := true;
      } else if sequence == currents[ref].sequence && currents[ref].commitSha != commitSha {
        conflict := true;
      }
    }

    /** Installs one commit/tree root, once; accepting it again clears an earlier
        release and keeps the first provenance. */
    method RetainSnapshotPin(sequence: int, f: PinFact, input: PinInput) returns (outcome: Retained)
      modifies this
      ensures outcome == RetainOutcome(old(State()), sequence, f, input)
      ensures !outcome.Threw? ==> State() == RetainStep(old(State()), sequence, f, input)
    {
      if f.commitSha != input.commitSha || !ValidPinnedSha(input.treeSha) {
        return Refused;
      }
      if f.commitSha in pins {
        var existing := pins[f.commitSha];
        if existing.treeSha != input.treeSha || existing.commitSha != f.commitSha {
          return Refused;
        }
      } else {
        pins := pins[f.commitSha := Pin(
          f.commitSha, input.treeSha, f.ref, f.beforeSha, sequence, input.materializedAt,
          f.actor, f.source, f.idempotencyKey, input.qualificationOwned)];
        pinVersion := pinVersion + 1;
      }
      tombstones := tombstones - {f.commitSha};
      if f.commitSha !in materialized {
        materialized := materialized[f.commitSha := Materialized(f.commitSha, sequence, input.materializedAt)];
      }
      if input.advanceCurrent {
        var conflict, advanced := MovePointer(f.ref, f.commitSha, sequence, input.materializedAt);
        if conflict {
          return Threw;
        }
      }
      outcome := Kept;
    }

    method RecordFact(sequence: int, f: Fact, acceptedAt: int, journaling: bool, pin: Option<PinInput>)
      returns (retained: bool, threw: bool)
      modifies this
      ensures var r := RecordOne(Recorded(old(State()), true, false), sequence, f, acceptedAt, journaling, pin);
              threw == r.threw && (!threw ==> retained == r.retained && State() == r.state)
    {
      retained, threw := true, false;
      heads := heads[f.ref := Head(f.ref, f.beforeSha, f.afterSha, sequence)];
      if pin.Some? && f.afterSha == pin.value.commitSha {
        var outcome := RetainSnapshotPin(sequence, PinFactOf(f), pin.value);
        if outcome.Threw? {
          return false, true;
        }
        if outcome.Refused? {
          retained := false;
        }
      }
      if !journaling {
        return;
      }
      var id := JournalId(sequence, f.ref);
      if id in journal {
        var existing := journal[id];
        if existing.sequence != sequence || existing.fact.ref != f.ref
           || existing.fact.beforeSha != f.beforeSha || existing.fact.afterSha != f.afterSha
        {
          return false, true;
        }
        return;
      }
      journal := journal[id := Entry(id, sequence, f, acceptedAt, 0)];
    }

    /** Called inside a transaction; the caller rolls back when it throws. */
    method RecordAcceptedWrites(sequence: int, facts: seq<Fact>, acceptedAt: int, journaling: bool,
                                pin: Option<PinInput>)
      returns (retained: bool, threw: bool)
      modifies this
      ensures var r := RecordFacts(old(State()), sequence, facts, acceptedAt, journaling, pin);
              threw == r.threw && (!threw ==> retained == r.retained && State() == r.state)
    {
      retained, threw := true, false;
      if |facts| == 0 {
        return;
      }
      if !PinFits(facts, pin) {
        return true, true;
      }
      ghost var start := State();
      for i := 0 to |facts|
        invariant !threw
        invariant Recorded(State(), retained, false) ==
                  RecordAll(start, sequence, facts[..i], acceptedAt, journaling, pin)
      {
        RecordAllMore(start, sequence, facts, i, acceptedAt, journaling, pin);
        var kept: bool;
        kept, threw := RecordFact(sequence, facts[i], acceptedAt, journaling, pin);
        if threw {
          ThrowIsFinal(start, sequence, facts, i + 1, acceptedAt, journaling, pin);
          return false, true;
        }
        retained := retained && kept;
      }
      assert facts[..|facts|] == facts;
    }

    method AcceptPush(p: Push) returns (committed: bool)
      modifies this
      ensures State() == AcceptStep(old(State()), p)
      ensures committed <==> PushApplies(old(State()), p) && !AcceptRecorded(old(State()), p).threw
    {
      var saved := State();
      var applied := ApplyReceiveCommands(refs, p.commands);
      if refsVersion != p.expectedVersion && !(refsVersion == p.expectedVersion + 1 && applied == refs) {
        return false;
      }
      refs := applied;
      refsVersion := p.expectedVersion + 1;
      var retained, threw := RecordAcceptedWrites(refsVersion, p.facts, p.acceptedAt, p.journal, p.pin);
      if threw {
        RollBack(saved);
        return false;
      }
      committed := true;
    }

    method DropExpiredLeases(now: int) returns (live: seq<Lease>)
      modifies this`leases
      ensures live == LiveLeases(old(leases), now)
      ensures State() == old(State()).(leases := live)
    {
      live := [];
      for i := 0 to |leases|
        invariant live == LiveLeases(leases[..i], now)
      {
        assert leases[..i + 1][..i] == leases[..i];
        if leases[i].expiresAt > now {
          live := live + [leases[i]];
        }
      }
      assert leases[..|leases|] == leases;
      leases := live;
    }

    method HasActiveProjectionLease(token: Option<string>, now: int) returns (active: bool)
      modifies this`leases
      ensures active <==> LeaseActive(old(State()), token, now)
      ensures State() == LeasesChecked(old(State()), token, now)
    {
      if !Given(token) {
        return false;
      }
      ghost var before := leases;
      var live := DropExpiredLeases(now);
      LiveLeaseSearch(before, token.value, now);
      active := exists i :: 0 <= i < |live| && Projects(live[i], token.value);
    }

    method Install(sequence: int, f: PinFact, snap: Snapshot) returns (outcome: Installation)
      modifies this
      ensures outcome == InstallOutcome(old(State()), f, snap)
      ensures State() == InstallStep(old(State()), sequence, f, snap)
      ensures unchanged(`journal) && unchanged(`currents)
    {
      var isDeletion := f.commitSha == ZERO_OID;
      if !isDeletion && !ValidPinnedSha(snap.treeSha) {
        return InvalidSnapshot;
      }
      if !isDeletion && f.commitSha !in pins {
        var active := HasActiveProjectionLease(snap.token, snap.now);
        if !active {
          return LeaseExpired;
        }
      }
      var existing := f.commitSha in materialized;
      if !isDeletion {
        var retained := RetainSnapshotPin(sequence, f, PinInput(f.commitSha, snap.treeSha, snap.at, false, false));
        if retained.Refused? {
          return InvalidSnapshot;
        }
      }
      outcome := Installed(!isDeletion && !existing);
    }

    /** Moves the pointer, or rolls the whole transaction back on a conflict. */
    method Conclude(saved: Repo, ref: string, commitSha: string, sequence: int, at: int, created: bool)
      returns (result: Projection)
      modifies this
      ensures result == PointTo(old(State()), ref, commitSha, sequence, at, created)
      ensures State() ==
              if result.ProjectionThrew? then saved else AdvancePointer(old(State()), ref, commitSha, sequence, at)
    {
      var conflict, advanced := MovePointer(ref, commitSha, sequence, at);
      if conflict {
        RollBack(saved);
        return ProjectionThrew;
      }
      result := Projected(created, advanced, currents[ref]);
    }

    /** Notes when an entry was first projected. */
    method MarkEntry(id: JournalId, at: int)
      requires id in journal
      modifies this`journal
      ensures State() == Marked(old(State()), id, at)
    {
      if journal[id].materializedAt == 0 {
        journal := journal[id := journal[id].(materializedAt := at)];
      }
    }

    method ProjectAcceptedWrite(id: JournalId, commitSha: string, snap: Snapshot) returns (result: Projection)
      modifies this
      ensures result == ProjectOutcome(old(State()), id, commitSha, snap)
      ensures State() == ProjectStep(old(State()), id, commitSha, snap)
    {
      var saved := State();
      if deleting {
        return RepositoryDeleting;
      }
      if id !in journal || journal[id].fact.afterSha != commitSha {
        return ProjectionThrew;
      }
      var entry := journal[id];
      var installed := Install(entry.sequence, PinFactOf(entry.fact), snap);
      if installed.LeaseExpired? {
        return Expired;
      }
      if installed.InvalidSnapshot? {
        return Unusable;
      }
      MarkEntry(id, snap.at);
      SamePointerOutcome(saved, State(), entry.fact.ref, commitSha, entry.sequence, snap.at, installed.created);
      result := Conclude(saved, entry.fact.ref, commitSha, entry.sequence, snap.at, installed.created);
    }

    method ProjectReconciledHead(ref: string, commitSha: string, sequence: int, snap: Snapshot)
      returns (result: Projection)
      modifies this
      ensures result == ReconcileOutcome(old(State()), ref, commitSha, sequence, snap)
      ensures State() == ReconcileStep(old(State()), ref, commitSha, sequence, snap)
    {
      var saved := State();
      if deleting {
        return RepositoryDeleting;
      }
      var authoritative := Authoritative(refs, ref);
      var headIsCurrent := ref in heads && heads[ref].afterSha == authoritative;
      var sequenceMatches := if headIsCurrent then heads[ref].sequence == sequence else refsVersion == sequence;
      if authoritative != commitSha || !sequenceMatches {
        return Stale;
      }
      ghost var outcome := InstallOutcome(saved, ReconcileFact(ref, commitSha), snap);
      var installed := Install(sequence, ReconcileFact(ref, commitSha), snap);
      assert installed == outcome && State() == InstallStep(saved, sequence, ReconcileFact(ref, commitSha), snap);
      if installed.LeaseExpired? {
        return Expired;
      }
      if installed.InvalidSnapshot? {
        return Unusable;
      }
      SamePointerOutcome(saved, State(), ref, commitSha, sequence, snap.at, installed.created);
      result := Conclude(saved, ref, commitSha, sequence, snap.at, installed.created);
    }

    method GetReconcilePlan(ref: string) returns (plan: ReconcilePlan)
      requires Keyed(State())
      ensures plan == PlanFor(State(), ref)
    {
      var afterSha := Authoritative(refs, ref);
      if ref !in heads && afterSha == ZERO_OID {
        return Unborn(ref);
      }
      var sequence := if ref in heads && heads[ref].afterSha == afterSha then heads[ref].sequence else refsVersion;
      if ref in currents && currents[ref].commitSha == afterSha && currents[ref].sequence == sequence {
        return UpToDate(currents[ref]);
      }
      var todo := journal.Keys;
      while todo != {}
        invariant todo <= journal.Keys
        invariant forall id :: id in journal && id !in todo ==> !Deliverable(State(), id, ref, sequence, afterSha)
      {
        var id :| id in todo;
        var candidate := journal[id];
        if candidate.sequence == sequence && candidate.fact.ref == ref && candidate.fact.afterSha == afterSha {
          return Deliver(candidate);
        }
        todo := todo - {id};
      }
      plan := HeadOnly(ref, afterSha, sequence, if ref in currents then currents[ref].commitSha else ZERO_OID);
    }

    method ReleaseSnapshotPin(commitSha: string, now: int, legacyExists: bool, qualificationOwned: bool)
      returns (result: Release)
      modifies this
      ensures result == ReleaseOutcome(old(State()), commitSha)
      ensures State() == ReleaseStep(old(State()), commitSha, now, legacyExists, qualificationOwned)
    {
      if deleting {
        return DeletingRepository;
      }
      if exists i :: 0 <= i < |refs| && refs[i].oid == commitSha {
        return RefReferenced;
      }
      if commitSha !in pins {
        if commitSha !in tombstones && legacyExists {
          tombstones := tombstones[commitSha := Tombstone(commitSha, now, qualificationOwned)];
        }
        return Released;
      }
      var pin := pins[commitSha];
      pins := pins - {commitSha};
      materialized := materialized - {commitSha};
      tombstones := tombstones[commitSha := Tombstone(commitSha, now, pin.qualificationOwned || qualificationOwned)];
      result := Released;
    }
  }

  /** Journal entries are stored under the key made of their own sequence and ref. */
  ghost predicate Keyed(s: Repo) {
    forall id :: id in s.journal ==>
      s.journal[id].id == id && s.journal[id].sequence == id.sequence && s.journal[id].fact.ref == id.ref
  }

  /** Only the pointers decide where a pointer goes. */
  lemma SamePointerOutcome(s: Repo, t: Repo, ref: string, commitSha: string, sequence: int, at: int, created: bool)
    requires s.currents == t.currents
    ensures PointTo(s, ref, commitSha, sequence, at, created) == PointTo(t, ref, commitSha, sequence, at, created)
  {}

  lemma RecordAllMore(s: Repo, sequence: int, facts: seq<Fact>, i: nat, acceptedAt: int, journaling: bool,
                      pin: Option<PinInput>)
    requires i < |facts| && !RecordAll(s, sequence, facts[..i], acceptedAt, journaling, pin).threw
    ensures var r := RecordAll(s, sequence, facts[..i], acceptedAt, journaling, pin);
            var one := RecordOne(Recorded(r.state, true, false), sequence, facts[i], acceptedAt, journaling, pin);
            RecordAll(s, sequence, facts[..i + 1], acceptedAt, journaling, pin) ==
                Recorded(one.state, r.retained && one.retained, one.threw)
  {
    assert facts[..i + 1][..i] == facts[..i];
  }

  lemma {:induction false} ThrowIsFinal(s: Repo, sequence: int, facts: seq<Fact>, i: nat, acceptedAt: int,
                                        journaling: bool, pin: Option<PinInput>)
    requires i <= |facts| && RecordAll(s, sequence, facts[..i], acceptedAt, journaling, pin).threw
    ensures RecordAll(s, sequence, facts, acceptedAt, journaling, pin).threw
    decreases |facts| - i
  {
    if i == |facts| {
      assert facts[..i] == facts;
    } else {
      assert facts[..i + 1][..i] == facts[..i];
      ThrowIsFinal(s, sequence, facts, i + 1, acceptedAt, journaling, pin);
    }
  }

  lemma {:induction false} LiveLeaseSearch(leases: seq<Lease>, token: string, now: int)
    ensures (exists i :: 0 <= i < |LiveLeases(leases, now)| && Projects(LiveLeases(leases, now)[i], token)) <==>
            exists i :: 0 <= i < |leases| && leases[i].expiresAt > now && Projects(leases[i], token)
  {
    if leases != [] {
      var front, last := leases[..|leases| - 1], leases[|leases| - 1];
      LiveLeaseSearch(front, token, now);
      var live := LiveLeases(front, now);
      if i :| 0 <= i < |live| && Projects(live[i], token) {
        assert LiveLeases(leases, now)[i] == live[i];
        var k :| 0 <= k < |front| && front[k].expiresAt > now && Projects(front[k], token);
        assert leases[k] == front[k];
      }
      if last.expiresAt > now { assert LiveLeases(leases, now)[|live|] == last; }
      if k :| 0 <= k < |leases| && leases[k].expiresAt > now && Projects(leases[k], token) {
        if k < |front| {
          assert front[k] == leases[k];
          var i :| 0 <= i < |live| && Projects(live[i], token);
          assert LiveLeases(leases, now)[i] == live[i];
        }
      }
    }
  }
}
