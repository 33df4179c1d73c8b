/** What each transaction of the snapshot store leaves behind, field by field: a
    push in the journal, the heads, the pins and the pointers; a projection; a
    release. */
module SnapshotEffects {
  import opened Commands
  import opened NetFacts
  import opened Options
  import opened RefList
  import opened SnapshotState

  // ---------- Recording a list of facts ----------

  ghost predicate NamesRef(facts: seq<Fact>, ref: string) {
    exists i :: 0 <= i < |facts| && facts[i].ref == ref
  }

  /** The last fact for its ref, and the first with its after id. */
  ghost predicate LastForRef(facts: seq<Fact>, i: int) {
    0 <= i < |facts| && forall j :: i < j < |facts| ==> facts[j].ref != facts[i].ref
  }

  ghost predicate FirstForRef(facts: seq<Fact>, i: int) {
    0 <= i < |facts| && forall j :: 0 <= j < i ==> facts[j].ref != facts[i].ref
  }

  ghost predicate FirstWithCommit(facts: seq<Fact>, c: string, i: int) {
    0 <= i < |facts| && facts[i].afterSha == c && forall j :: 0 <= j < i ==> facts[j].afterSha != c
  }

  lemma RetainKeepsRecords(s: Repo, sequence: int, f: PinFact, input: PinInput)
    ensures var t := RetainStep(s, sequence, f, input);
            && t.heads == s.heads && t.journal == s.journal && t.refs == s.refs && t.refsVersion == s.refsVersion
            && t.deleting == s.deleting && t.leases == s.leases
  {}

  /** What recording one fact does to heads and journal. */
  lemma OneRecorded(r: Recorded, sequence: int, f: Fact, at: int, journal: bool, pin: Option<PinInput>)
    requires !RecordOne(r, sequence, f, at, journal, pin).threw
    ensures var id, t := JournalId(sequence, f.ref), RecordOne(r, sequence, f, at, journal, pin).state;
            && !r.threw
            && t.heads == r.state.heads[f.ref := Head(f.ref, f.beforeSha, f.afterSha, sequence)]
            && t.refs == r.state.refs && t.refsVersion == r.state.refsVersion
            && t.deleting == r.state.deleting && t.leases == r.state.leases
            && (!journal || id in r.state.journal ==> t.journal == r.state.journal)
            && (journal && id !in r.state.journal ==> t.journal == r.state.journal[id := Entry(id, sequence, f, at, 0)])
            && (journal ==> Journalled(t, sequence, f))
  {
    var headed := WithHead(r.state, sequence, f);
    if PinsFact(pin, f) { RetainKeepsRecords(headed, sequence, PinFactOf(f), pin.value); }
  }

  /** Nothing but heads, journal, pins and pointers is touched, and refs that no
      fact names keep their head. */
  lemma {:induction false} OthersKept(s: Repo, sequence: int, facts: seq<Fact>, at: int, journal: bool,
                                      pin: Option<PinInput>, ref: string)
    requires !RecordAll(s, sequence, facts, at, journal, pin).threw
    ensures var t := RecordAll(s, sequence, facts, at, journal, pin).state;
            && t.refs == s.refs && t.refsVersion == s.refsVersion && t.deleting == s.deleting && t.leases == s.leases
            && (ref in t.heads <==> ref in s.heads || NamesRef(facts, ref))
            && (!NamesRef(facts, ref) && ref in s.heads ==> t.heads[ref] == s.heads[ref])
  {
    if facts != [] {
      var front, f := facts[..|facts| - 1], facts[|facts| - 1];
      OneRecorded(RecordAll(s, sequence, front, at, journal, pin), sequence, f, at, journal, pin);
      OthersKept(s, sequence, front, at, journal, pin, ref);
      NamedByFront(facts, ref);
    }
  }

  lemma NamedByFront(facts: seq<Fact>, ref: string)
    requires facts != []
    ensures NamesRef(facts, ref) <==> NamesRef(facts[..|facts| - 1], ref) || facts[|facts| - 1].ref == ref
  {
    var front := facts[..|facts| - 1];
    if i :| 0 <= i < |facts| && facts[i].ref == ref && i < |front| { assert front[i].ref == ref; }
    if i :| 0 <= i < |front| && front[i].ref == ref { assert facts[i].ref == ref; }
  }

  /** Each ref gets the head its last fact describes. */
  lemma {:induction false} HeadRecorded(s: Repo, sequence: int, facts: seq<Fact>, at: int, journal: bool,
                                        pin: Option<PinInput>, i: int)
    requires !RecordAll(s, sequence, facts, at, journal, pin).threw && LastForRef(facts, i)
    ensures var t := RecordAll(s, sequence, facts, at, journal, pin).state;
            && facts[i].ref in t.heads
            && t.heads[facts[i].ref] == Head(facts[i].ref, facts[i].beforeSha, facts[i].afterSha, sequence)
  {
    var front, last := facts[..|facts| - 1], facts[|facts| - 1];
    OneRecorded(RecordAll(s, sequence, front, at, journal, pin), sequence, last, at, journal, pin);
    if i < |front| {
      assert facts[|facts| - 1].ref != facts[i].ref;
      assert forall j :: i < j < |front| ==> front[j] == facts[j];
      HeadRecorded(s, sequence, front, at, journal, pin, i);
    }
  }

  /** The journal keeps what it had, and gains entries for the facts only. */
  lemma {:induction false} JournalKept(s: Repo, sequence: int, facts: seq<Fact>, at: int, journal: bool,
                                       pin: Option<PinInput>, id: JournalId)
    requires !RecordAll(s, sequence, facts, at, journal, pin).threw
    ensures var t := RecordAll(s, sequence, facts, at, journal, pin).state;
            && (id in s.journal ==> id in t.journal && t.journal[id] == s.journal[id])
            && (id in t.journal <==>
                  id in s.journal || (journal && id.sequence == sequence && NamesRef(facts, id.ref)))
  {
    if facts != [] {
      var front, f := facts[..|facts| - 1], facts[|facts| - 1];
      OneRecorded(RecordAll(s, sequence, front, at, journal, pin), sequence, f, at, journal, pin);
      JournalKept(s, sequence, front, at, journal, pin, id);
      NamedByFront(facts, id.ref);
    }
  }

  /** When journalling, each fact has its entry; the first fact for a ref that had
      none gives it its fields. */
  lemma {:induction false} EntryRecorded(s: Repo, sequence: int, facts: seq<Fact>, at: int, pin: Option<PinInput>,
                                         i: int)
    requires !RecordAll(s, sequence, facts, at, true, pin).threw && 0 <= i < |facts|
    ensures var t, id := RecordAll(s, sequence, facts, at, true, pin).state, JournalId(sequence, facts[i].ref);
            && Journalled(t, sequence, facts[i])
            && (FirstForRef(facts, i) && id !in s.journal ==> t.journal[id] == Entry(id, sequence, facts[i], at, 0))
  {
    var front, last := facts[..|facts| - 1], facts[|facts| - 1];
    var r := RecordAll(s, sequence, front, at, true, pin);
    OneRecorded(r, sequence, last, at, true, pin);
    if i < |front| {
      EntryRecorded(s, sequence, front, at, pin, i);
      assert FirstForRef(facts, i) ==> FirstForRef(front, i);
    } else {
      JournalKept(s, sequence, front, at, true, pin, JournalId(sequence, last.ref));
      assert FirstForRef(facts, i) ==> !NamesRef(front, last.ref);
    }
  }

  predicate Journalled(t: Repo, sequence: int, f: Fact) {
    var id := JournalId(sequence, f.ref);
    && id in t.journal && t.journal[id].sequence == sequence && t.journal[id].fact.ref == f.ref
    && t.journal[id].fact.beforeSha == f.beforeSha && t.journal[id].fact.afterSha == f.afterSha
  }

  // ---------- Pins ----------

  /** What asking for a pin at fact `f` leaves: refused when the commit is pinned
      with another tree, else pinned, materialised and not released. */
  predicate PinLeft(s: Repo, t: Repo, retained: bool, sequence: int, f: Fact, input: PinInput) {
    var c := input.commitSha;
    if PinnedOtherwise(s, input) then !retained && SameRoots(s, t)
    else
      && retained
      && c in t.pins && t.pins[c].treeSha == input.treeSha && t.pins[c].commitSha == c
      && t.pins == (if c in s.pins then s.pins else s.pins[c := t.pins[c]])
      && (c !in s.pins ==>
            t.pins[c] == Pin(c, input.treeSha, f.ref, f.beforeSha, sequence, input.materializedAt, f.context.actor,
                             f.context.source, f.context.idempotencyKey, input.qualificationOwned))
      && t.pinVersion == (if c in s.pins then s.pinVersion else s.pinVersion + 1)
      && t.tombstones == s.tombstones - {c}
      && c in t.materialized
      && t.materialized == (if c in s.materialized then s.materialized else s.materialized[c := t.materialized[c]])
      && (c !in s.materialized ==> t.materialized[c] == Materialized(c, sequence, input.materializedAt))
  }

  predicate PinnedOtherwise(s: Repo, input: PinInput) {
    var c := input.commitSha;
    c in s.pins && (s.pins[c].treeSha != input.treeSha || s.pins[c].commitSha != c)
  }

  predicate SameRoots(s: Repo, t: Repo) {
    && t.pins == s.pins && t.pinVersion == s.pinVersion
    && t.tombstones == s.tombstones && t.materialized == s.materialized
  }

  lemma FirstPinLeft(r: Recorded, sequence: int, f: Fact, at: int, journal: bool, pin: PinInput)
    requires r.retained && !RecordOne(r, sequence, f, at, journal, Some(pin)).threw
    requires f.afterSha == pin.commitSha && ValidPinnedSha(pin.treeSha)
    ensures var u := RecordOne(r, sequence, f, at, journal, Some(pin));
            PinLeft(r.state, u.state, u.retained, sequence, f, pin)
  {}

  /** Asking again for the same pin changes nothing about it. */
  lemma LaterPinLeft(s: Repo, r: Recorded, first: Fact, sequence: int, f: Fact, at: int, journal: bool, pin: PinInput)
    requires !RecordOne(r, sequence, f, at, journal, Some(pin)).threw && ValidPinnedSha(pin.treeSha)
    requires PinLeft(s, r.state, r.retained, sequence, first, pin)
    ensures var u := RecordOne(r, sequence, f, at, journal, Some(pin));
            PinLeft(s, u.state, u.retained, sequence, first, pin)
  {
    if PinsFact(Some(pin), f) {
      RepeatedRetain(s, r, first, sequence, f, pin);
    } else {
      NoPinLeft(r, sequence, f, at, journal, Some(pin));
    }
  }

  lemma RepeatedRetain(s: Repo, r: Recorded, first: Fact, sequence: int, f: Fact, pin: PinInput)
    requires PinLeft(s, r.state, r.retained, sequence, first, pin)
    requires f.afterSha == pin.commitSha && ValidPinnedSha(pin.treeSha)
    ensures var headed := WithHead(r.state, sequence, f);
            && SameRoots(r.state, RetainStep(headed, sequence, PinFactOf(f), pin))
            && (r.retained <==> !RetainOutcome(headed, sequence, PinFactOf(f), pin).Refused?)
  {
    if r.retained { assert r.state.tombstones - {pin.commitSha} == r.state.tombstones; }
  }

  lemma NoPinLeft(r: Recorded, sequence: int, f: Fact, at: int, journal: bool, pin: Option<PinInput>)
    requires !RecordOne(r, sequence, f, at, journal, pin).threw && !PinsFact(pin, f)
    ensures var u := RecordOne(r, sequence, f, at, journal, pin);
            SameRoots(r.state, u.state) && u.retained == r.retained
  {}

  lemma {:induction false} NoPinRecorded(s: Repo, sequence: int, facts: seq<Fact>, at: int, journal: bool,
                                         pin: Option<PinInput>)
    requires !RecordAll(s, sequence, facts, at, journal, pin).threw
    requires pin.Some? ==> forall i :: 0 <= i < |facts| ==> facts[i].afterSha != pin.value.commitSha
    ensures var r := RecordAll(s, sequence, facts, at, journal, pin); r.retained && SameRoots(s, r.state)
  {
    if facts != [] {
      var front := facts[..|facts| - 1];
      var r := RecordAll(s, sequence, front, at, journal, pin);
      NoPinRecorded(s, sequence, front, at, journal, pin);
      assert facts[|facts| - 1] == facts[|front|];
      NoPinLeft(r, sequence, facts[|facts| - 1], at, journal, pin);
    }
  }

  /** A push's pin takes its provenance from the first fact it fits. */
  lemma {:induction false} PinRecorded(s: Repo, sequence: int, facts: seq<Fact>, at: int, journal: bool, pin: PinInput,
                                       i: int)
    requires !RecordAll(s, sequence, facts, at, journal, Some(pin)).threw && ValidPinnedSha(pin.treeSha)
    requires FirstWithCommit(facts, pin.commitSha, i)
    ensures var r := RecordAll(s, sequence, facts, at, journal, Some(pin));
            PinLeft(s, r.state, r.retained, sequence, facts[i], pin)
  {
    var front, last := facts[..|facts| - 1], facts[|facts| - 1];
    var r := RecordAll(s, sequence, front, at, journal, Some(pin));
    if i < |front| {
      PinRecorded(s, sequence, front, at, journal, pin, i);
      LaterPinLeft(s, r, facts[i], sequence, last, at, journal, pin);
    } else {
      NoPinRecorded(s, sequence, front, at, journal, Some(pin));
      FirstPinLeft(r, sequence, last, at, journal, pin);
    }
  }

  // ---------- Pointers ----------

  ghost predicate AsksForPointer(facts: seq<Fact>, pin: Option<PinInput>, ref: string) {
    pin.Some? && pin.value.advanceCurrent
    && exists i :: 0 <= i < |facts| && facts[i].ref == ref && facts[i].afterSha == pin.value.commitSha
  }

  /** The pointer's position after it was asked to go to `c` at `sequence`. */
  predicate PointerLeft(s: Repo, t: Repo, ref: string, c: string, sequence: int, at: int) {
    && ref in t.currents
    && (if ref !in s.currents || s.currents[ref].sequence < sequence
        then t.currents[ref] == Current(ref, c, sequence, at)
        else
          && t.currents[ref] == s.currents[ref]
          && (s.currents[ref].sequence == sequence ==> s.currents[ref].commitSha == c))
  }

  predicate SamePointer(s: Repo, t: Repo, ref: string) {
    (ref in t.currents <==> ref in s.currents) && (ref in s.currents ==> t.currents[ref] == s.currents[ref])
  }

  lemma OnePointer(r: Recorded, sequence: int, f: Fact, at: int, journal: bool, pin: Option<PinInput>, ref: string)
    requires !RecordOne(r, sequence, f, at, journal, pin).threw
    requires pin.Some? ==> ValidPinnedSha(pin.value.treeSha)
    ensures var t := RecordOne(r, sequence, f, at, journal, pin).state;
            if AsksForPointer([f], pin, ref) && !PinnedOtherwise(r.state, pin.value)
            then PointerLeft(r.state, t, ref, pin.value.commitSha, sequence, pin.value.materializedAt)
            else SamePointer(r.state, t, ref)
  {
    assert AsksForPointer([f], pin, ref) <==>
           pin.Some? && pin.value.advanceCurrent && f.ref == ref && f.afterSha == pin.value.commitSha by {
      if pin.Some? && pin.value.advanceCurrent && f.ref == ref && f.afterSha == pin.value.commitSha {
        assert [f][0].ref == ref && [f][0].afterSha == pin.value.commitSha;
      }
    }
  }

  lemma AskedByFront(facts: seq<Fact>, pin: Option<PinInput>, ref: string)
    requires facts != []
    ensures AsksForPointer(facts, pin, ref) <==>
            AsksForPointer(facts[..|facts| - 1], pin, ref) || AsksForPointer([facts[|facts| - 1]], pin, ref)
  {
    var front, last := facts[..|facts| - 1], [facts[|facts| - 1]];
    if pin.Some? {
      var c := pin.value.commitSha;
      if i :| 0 <= i < |facts| && facts[i].ref == ref && facts[i].afterSha == c {
        if i < |front| { assert front[i].ref == ref && front[i].afterSha == c; }
        else { assert last[0].ref == ref && last[0].afterSha == c; }
      }
      if i :| 0 <= i < |front| && front[i].ref == ref && front[i].afterSha == c {
        assert facts[i].ref == ref && facts[i].afterSha == c;
      }
      if AsksForPointer(last, pin, ref) {
        assert facts[|facts| - 1].ref == ref && facts[|facts| - 1].afterSha == c;
      }
    }
  }

  /** Pins of other trees stay so: a refused pin is refused at every fact. */
  lemma RefusalStays(s: Repo, sequence: int, facts: seq<Fact>, at: int, journal: bool, pin: PinInput)
    requires !RecordAll(s, sequence, facts, at, journal, Some(pin)).threw && ValidPinnedSha(pin.treeSha)
    ensures PinnedOtherwise(RecordAll(s, sequence, facts, at, journal, Some(pin)).state, pin) <==>
            PinnedOtherwise(s, pin)
  {
    if i: int :| FirstWithCommit(facts, pin.commitSha, i) {
      PinRecorded(s, sequence, facts, at, journal, pin, i);
    } else {
      NoFirst(facts, pin.commitSha);
      NoPinRecorded(s, sequence, facts, at, journal, Some(pin));
    }
  }

  lemma {:induction false} NoFirst(facts: seq<Fact>, c: string)
    requires forall i: int :: !FirstWithCommit(facts, c, i)
    ensures forall i :: 0 <= i < |facts| ==> facts[i].afterSha != c
  {
    if facts != [] {
      var front := facts[..|facts| - 1];
      forall i: int ensures !FirstWithCommit(front, c, i) {
        assert FirstWithCommit(front, c, i) ==> FirstWithCommit(facts, c, i);
      }
      NoFirst(front, c);
      assert forall i :: 0 <= i < |front| ==> front[i] == facts[i];
      assert !FirstWithCommit(facts, c, |facts| - 1);
    }
  }

  /** A retained pin that is to advance the pointers moves those of the refs whose
      facts it fits, forward only, and no others. */
  lemma {:induction false} PointersRecorded(s: Repo, sequence: int, facts: seq<Fact>, at: int, journal: bool,
                                            pin: Option<PinInput>, ref: string)
    requires !RecordAll(s, sequence, facts, at, journal, pin).threw
    requires pin.Some? ==> ValidPinnedSha(pin.value.treeSha)
    ensures var t := RecordAll(s, sequence, facts, at, journal, pin).state;
            if AsksForPointer(facts, pin, ref) && !PinnedOtherwise(s, pin.value)
            then PointerLeft(s, t, ref, pin.value.commitSha, sequence, pin.value.materializedAt)
            else SamePointer(s, t, ref)
  {
    if facts != [] {
      var front, last := facts[..|facts| - 1], facts[|facts| - 1];
      var r := RecordAll(s, sequence, front, at, journal, pin);
      PointersRecorded(s, sequence, front, at, journal, pin, ref);
      AskedByFront(facts, pin, ref);
      if pin.Some? { RefusalStays(s, sequence, front, at, journal, pin.value); }
      OnePointer(r, sequence, last, at, journal, pin, ref);
    }
  }

  // ---------- A push ----------

  predicate Commits(s: Repo, p: Push) {
    PushApplies(s, p) && !AcceptRecorded(s, p).threw
  }

  function Moved(s: Repo, p: Push): Repo {
    s.(refs := ApplyReceiveCommands(s.refs, p.commands), refsVersion := p.expectedVersion + 1)
  }

  lemma CommittedForm(s: Repo, p: Push)
    requires Commits(s, p)
    ensures !RecordAll(Moved(s, p), p.expectedVersion + 1, p.facts, p.acceptedAt, p.journal, p.pin).threw
    ensures AcceptStep(s, p)
            == RecordAll(Moved(s, p), p.expectedVersion + 1, p.facts, p.acceptedAt, p.journal, p.pin).state
    ensures AcceptRecorded(s, p)
            == RecordAll(Moved(s, p), p.expectedVersion + 1, p.facts, p.acceptedAt, p.journal, p.pin)
    ensures p.pin.Some? && p.facts != [] ==>
              ValidPinnedSha(p.pin.value.commitSha) && ValidPinnedSha(p.pin.value.treeSha)
  {}

  /** A committed push moves the refs to their new ids and counts one version. */
  lemma PushMovesRefs(s: Repo, p: Push, ref: string)
    requires Commits(s, p)
    ensures var t := AcceptStep(s, p);
            && t.refsVersion == p.expectedVersion + 1 && t.deleting == s.deleting && t.leases == s.leases
            && t.refs == ApplyReceiveCommands(s.refs, p.commands)
            && (Touched(p.commands, ref) ==> Authoritative(t.refs, ref) == LastNew(p.commands, ref))
  {
    CommittedForm(s, p);
    OthersKept(Moved(s, p), p.expectedVersion + 1, p.facts, p.acceptedAt, p.journal, p.pin, ref);
    PushedAuthority(s.refs, p.commands, ref);
  }

  /** Each ref a committed push has a fact for gets the head its last fact
      describes; every other ref keeps its head. */
  lemma PushIsRecorded(s: Repo, p: Push, ref: string, i: int)
    requires Commits(s, p)
    ensures var t := AcceptStep(s, p);
            && (LastForRef(p.facts, i) && p.facts[i].ref == ref ==>
                  && ref in t.heads
                  && t.heads[ref] == Head(ref, p.facts[i].beforeSha, p.facts[i].afterSha, p.expectedVersion + 1))
            && (ref in t.heads <==> ref in s.heads || NamesRef(p.facts, ref))
            && (!NamesRef(p.facts, ref) && ref in s.heads ==> t.heads[ref] == s.heads[ref])
  {
    CommittedForm(s, p);
    var sequence := p.expectedVersion + 1;
    OthersKept(Moved(s, p), sequence, p.facts, p.acceptedAt, p.journal, p.pin, ref);
    if LastForRef(p.facts, i) { HeadRecorded(Moved(s, p), sequence, p.facts, p.acceptedAt, p.journal, p.pin, i); }
  }

  /** A committed push that journals leaves an entry for every fact, with its ids;
      a first fact's entry is new, with all its fields, unless it was there. */
  lemma PushIsJournalled(s: Repo, p: Push, i: int)
    requires Commits(s, p) && p.journal && 0 <= i < |p.facts|
    ensures var t, f, id := AcceptStep(s, p), p.facts[i], JournalId(p.expectedVersion + 1, p.facts[i].ref);
            && id in t.journal && t.journal[id].sequence == p.expectedVersion + 1 && t.journal[id].fact.ref == f.ref
            && t.journal[id].fact.beforeSha == f.beforeSha && t.journal[id].fact.afterSha == f.afterSha
            && (FirstForRef(p.facts, i) && id !in s.journal ==>
                  t.journal[id] == Entry(id, p.expectedVersion + 1, f, p.acceptedAt, 0))
  {
    CommittedForm(s, p);
    EntryRecorded(Moved(s, p), p.expectedVersion + 1, p.facts, p.acceptedAt, p.pin, i);
  }

  /** It leaves the entries that were there alone, and adds no others. */
  lemma PushKeepsEntries(s: Repo, p: Push, id: JournalId)
    requires Commits(s, p)
    ensures var t := AcceptStep(s, p);
            && (id in s.journal ==> id in t.journal && t.journal[id] == s.journal[id])
            && (id in t.journal <==>
                  id in s.journal || (p.journal && id.sequence == p.expectedVersion + 1 && NamesRef(p.facts, id.ref)))
  {
    CommittedForm(s, p);
    JournalKept(Moved(s, p), p.expectedVersion + 1, p.facts, p.acceptedAt, p.journal, p.pin, id);
  }

  /** A committed push pins the commit it asks for with that tree, unless the
      commit is pinned with another one; it reports which. */
  lemma PushPins(s: Repo, p: Push, i: int)
    requires Commits(s, p) && p.pin.Some? && FirstWithCommit(p.facts, p.pin.value.commitSha, i)
    ensures PinLeft(s, AcceptStep(s, p), AcceptRecorded(s, p).retained, p.expectedVersion + 1, p.facts[i], p.pin.value)
    ensures !PinnedOtherwise(s, p.pin.value) ==>
            var c, t := p.pin.value.commitSha, AcceptStep(s, p);
            c in t.pins && Resolve(t, c) == PinnedSnapshot(t.pins[c])
  {
    CommittedForm(s, p);
    PinRecorded(Moved(s, p), p.expectedVersion + 1, p.facts, p.acceptedAt, p.journal, p.pin.value, i);
  }

  /** A push with no pin, or with no facts, leaves every root as it was. */
  lemma PushWithoutPin(s: Repo, p: Push)
    requires Commits(s, p) && (p.pin.None? || p.facts == [])
    ensures SameRoots(s, AcceptStep(s, p)) && AcceptRecorded(s, p).retained
  {
    CommittedForm(s, p);
    NoPinRecorded(Moved(s, p), p.expectedVersion + 1, p.facts, p.acceptedAt, p.journal, p.pin);
  }

  /** A push moves the pointers its retained pin asks for, forward only. */
  lemma PushMovesPointers(s: Repo, p: Push, ref: string)
    requires Commits(s, p)
    ensures var t := AcceptStep(s, p);
            if AsksForPointer(p.facts, p.pin, ref) && !PinnedOtherwise(s, p.pin.value)
            then PointerLeft(s, t, ref, p.pin.value.commitSha, p.expectedVersion + 1, p.pin.value.materializedAt)
            else SamePointer(s, t, ref)
  {
    CommittedForm(s, p);
    if p.facts != [] {
      PointersRecorded(Moved(s, p), p.expectedVersion + 1, p.facts, p.acceptedAt, p.journal, p.pin, ref);
    }
  }
}
