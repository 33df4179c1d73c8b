/** What holds over whole runs of the snapshot store, whatever the order of
    pushes, deliveries, reconciliations and releases. */
module SnapshotRuns {
  import opened NetFacts
  import opened Options
  import opened RefList
  import opened SnapshotState
  import opened SnapshotStore

  // ---------- Runs ----------

  /** The facts a push carries name refs it commands, with their final ids. */
  ghost predicate FactsFit(p: Push) {
    forall i :: 0 <= i < |p.facts| ==>
        Touched(p.commands, p.facts[i].ref) && p.facts[i].afterSha == LastNew(p.commands, p.facts[i].ref)
  }

  ghost predicate Fitting(e: Event) {
    e.Accept? ==> FactsFit(e.push)
  }

  /** Both the generated facts and any facts the matcher lets through fit. */
  lemma CheckedFactsFit(p: Push)
    requires NetOf(p.commands, p.facts) || Matches(p.commands, p.facts)
    ensures FactsFit(p)
  {
    if NetOf(p.commands, p.facts) {
      GeneratedFactsMatch(p.commands, p.facts);
    }
  }

  function Run(s: Repo, es: seq<Event>): Repo {
    if es == [] then s else Step(Run(s, es[..|es| - 1]), es[|es| - 1])
  }

  ghost predicate AllFitting(es: seq<Event>) {
    forall i :: 0 <= i < |es| ==> Fitting(es[i])
  }

  /** The ref list at each version, as the run went through them. */
  function History(es: seq<Event>): seq<seq<Ref>> {
    if es == [] then [[]]
    else
      var front := es[..|es| - 1];
      Extended(History(front), Run(EMPTY_REPO, front), Run(EMPTY_REPO, es))
  }

  function Extended(past: seq<seq<Ref>>, s: Repo, t: Repo): seq<seq<Ref>> {
    if t.refsVersion == s.refsVersion then past else past + [t.refs]
  }

  // ---------- Everything recorded once was so ----------

  /** At ref version `sequence`, the ref pointed at this commit. */
  ghost predicate Was(past: seq<seq<Ref>>, ref: string, commitSha: string, sequence: int) {
    0 <= sequence < |past| && Authoritative(past[sequence], ref) == commitSha
  }

  ghost predicate TrueHeads(s: Repo, past: seq<seq<Ref>>) {
    forall ref :: ref in s.heads ==> Was(past, ref, s.heads[ref].afterSha, s.heads[ref].sequence)
  }

  ghost predicate TrueJournal(s: Repo, past: seq<seq<Ref>>) {
    forall id :: id in s.journal ==> Was(past, id.ref, s.journal[id].fact.afterSha, id.sequence)
  }

  ghost predicate TruePointers(s: Repo, past: seq<seq<Ref>>) {
    forall ref :: ref in s.currents ==>
      s.currents[ref].ref == ref && Was(past, ref, s.currents[ref].commitSha, s.currents[ref].sequence)
  }

  ghost predicate Truthful(s: Repo, past: seq<seq<Ref>>) {
    && past != [] && |past| == s.refsVersion + 1
    && past[s.refsVersion] == s.refs
    && Keyed(s)
    && TrueHeads(s, past)
    && TrueJournal(s, past)
    && TruePointers(s, past)
  }

  lemma OneTruth(past: seq<seq<Ref>>, ref: string, sequence: int, a: string, b: string)
    requires Was(past, ref, a, sequence) && Was(past, ref, b, sequence)
    ensures a == b
  {}

  lemma MoreHistory(s: Repo, past: seq<seq<Ref>>, refs: seq<Ref>)
    requires Truthful(s, past)
    ensures Truthful(s.(refs := refs, refsVersion := s.refsVersion + 1), past + [refs])
  {
    forall i | 0 <= i < |past| ensures (past + [refs])[i] == past[i] {}
    forall ref | ref in s.heads ensures Was(past + [refs], ref, s.heads[ref].afterSha, s.heads[ref].sequence) {
      assert Was(past, ref, s.heads[ref].afterSha, s.heads[ref].sequence);
    }
    forall id | id in s.journal ensures Was(past + [refs], id.ref, s.journal[id].fact.afterSha, id.sequence) {
      assert Was(past, id.ref, s.journal[id].fact.afterSha, id.sequence);
    }
    forall ref | ref in s.currents
      ensures Was(past + [refs], ref, s.currents[ref].commitSha, s.currents[ref].sequence)
    {
      assert Was(past, ref, s.currents[ref].commitSha, s.currents[ref].sequence);
    }
  }

  /** A true value never conflicts with the pointer, and moving to it keeps the
      pointers true. */
  lemma TruePointerMoves(s: Repo, past: seq<seq<Ref>>, ref: string, commitSha: string, sequence: int, at: int)
    requires Truthful(s, past) && Was(past, ref, commitSha, sequence)
    ensures !PointerConflict(s, ref, commitSha, sequence)
    ensures Truthful(AdvancePointer(s, ref, commitSha, sequence, at), past)
  {}

  lemma InstallKeepsTruth(s: Repo, past: seq<seq<Ref>>, sequence: int, f: PinFact, snap: Snapshot)
    requires Truthful(s, past)
    ensures Truthful(InstallStep(s, sequence, f, snap), past)
    ensures InstallStep(s, sequence, f, snap).journal == s.journal
    ensures InstallStep(s, sequence, f, snap).currents == s.currents
  {
    InstallTouchesPinsOnly(s, sequence, f, snap);
  }

  /** Apart from pins, tombstones and leases, an installation changes nothing. */
  ghost predicate SameHistory(s: Repo, t: Repo) {
    && t.refs == s.refs && t.refsVersion == s.refsVersion && t.deleting == s.deleting
    && t.heads == s.heads && t.journal == s.journal && t.currents == s.currents
  }

  lemma InstallTouchesPinsOnly(s: Repo, sequence: int, f: PinFact, snap: Snapshot)
    ensures SameHistory(s, InstallStep(s, sequence, f, snap))
  {
    var checked := if NeedsLease(s, f.commitSha) then LeasesChecked(s, snap.token, snap.now) else s;
    assert SameHistory(s, checked);
    assert SameHistory(checked, Pinned(checked, sequence, f, InstallInput(f, snap)));
  }

  // ---------- Pushes ----------

  lemma HeadKeepsTruth(s: Repo, past: seq<seq<Ref>>, sequence: int, f: Fact)
    requires Truthful(s, past) && Was(past, f.ref, f.afterSha, sequence)
    ensures Truthful(WithHead(s, sequence, f), past)
  {
    var t := WithHead(s, sequence, f);
    assert TrueJournal(t, past) && TruePointers(t, past);
  }

  lemma EntryKeepsTruth(s: Repo, past: seq<seq<Ref>>, sequence: int, f: Fact, at: int)
    requires Truthful(s, past) && Was(past, f.ref, f.afterSha, sequence)
    ensures Truthful(WithEntry(s, sequence, f, at), past)
    ensures JournalConflict(s, sequence, f) ==> s.journal[JournalId(sequence, f.ref)].fact.beforeSha != f.beforeSha
  {
    var id, t := JournalId(sequence, f.ref), WithEntry(s, sequence, f, at);
    if id in s.journal {
      OneTruth(past, f.ref, sequence, s.journal[id].fact.afterSha, f.afterSha);
    }
    assert TrueHeads(t, past) && TruePointers(t, past);
  }

  /** The journal already holds this transition with another before id. */
  predicate JournalClash(s: Repo, sequence: int, f: Fact) {
    var id := JournalId(sequence, f.ref);
    id in s.journal && s.journal[id].fact.beforeSha != f.beforeSha
  }

  ghost predicate SomeClash(s: Repo, sequence: int, facts: seq<Fact>) {
    exists i :: 0 <= i < |facts| && JournalClash(s, sequence, facts[i])
  }

  /** Recording a fact keeps every record true; it throws exactly when it journals
      and the journal clashes, never for the pointer's sake. */
  lemma RecordOneKeepsTruth(r: Recorded, past: seq<seq<Ref>>, sequence: int, f: Fact, at: int, journal: bool,
                            pin: Option<PinInput>)
    requires Truthful(r.state, past) && Was(past, f.ref, f.afterSha, sequence) && !r.threw
    ensures Truthful(RecordOne(r, sequence, f, at, journal, pin).state, past)
    ensures RecordOne(r, sequence, f, at, journal, pin).threw <==> journal && JournalClash(r.state, sequence, f)
  {
    var headed := WithHead(r.state, sequence, f);
    HeadKeepsTruth(r.state, past, sequence, f);
    if PinsFact(pin, f) {
      RetainKeepsTruth(headed, past, sequence, f, pin);
      EntryKeepsTruth(RetainStep(headed, sequence, PinFactOf(f), pin.value), past, sequence, f, at);
    } else {
      EntryKeepsTruth(headed, past, sequence, f, at);
    }
  }

  /** Recording a fact leaves the other entries of the journal alone. */
  lemma RecordOneJournal(r: Recorded, sequence: int, f: Fact, at: int, journal: bool, pin: Option<PinInput>,
                         id: JournalId)
    requires id != JournalId(sequence, f.ref)
    ensures var t := RecordOne(r, sequence, f, at, journal, pin).state;
            (id in t.journal <==> id in r.state.journal) && (id in t.journal ==> t.journal[id] == r.state.journal[id])
  {}

  /** What recording a whole list throws for, and what it leaves alone. */
  lemma {:induction false} RecordAllThrowsIff(s: Repo, past: seq<seq<Ref>>, sequence: int, facts: seq<Fact>, at: int,
                                              journal: bool, pin: Option<PinInput>, id: JournalId)
    requires Truthful(s, past) && DistinctRefs(facts)
    requires forall i :: 0 <= i < |facts| ==> Was(past, facts[i].ref, facts[i].afterSha, sequence)
    ensures var r := RecordAll(s, sequence, facts, at, journal, pin);
            && (r.threw <==> journal && SomeClash(s, sequence, facts))
            && ((forall i :: 0 <= i < |facts| ==> id != JournalId(sequence, facts[i].ref)) ==>
                  && (id in r.state.journal <==> id in s.journal)
                  && (id in s.journal ==> r.state.journal[id] == s.journal[id]))
  {
    if facts != [] {
      var front, f := facts[..|facts| - 1], facts[|facts| - 1];
      var r := RecordAll(s, sequence, front, at, journal, pin);
      RecordAllThrowsIff(s, past, sequence, front, at, journal, pin, id);
      RecordAllThrowsIff(s, past, sequence, front, at, journal, pin, JournalId(sequence, f.ref));
      assert forall i :: 0 <= i < |front| ==> front[i] == facts[i];
      if !r.threw {
        RecordAllKeepsTruth(s, past, sequence, front, at, journal, pin);
        RecordOneKeepsTruth(r, past, sequence, f, at, journal, pin);
        if id != JournalId(sequence, f.ref) { RecordOneJournal(r, sequence, f, at, journal, pin, id); }
      }
      ClashInFront(s, sequence, facts);
    }
  }

  lemma ClashInFront(s: Repo, sequence: int, facts: seq<Fact>)
    requires facts != []
    ensures SomeClash(s, sequence, facts) <==>
            SomeClash(s, sequence, facts[..|facts| - 1]) || JournalClash(s, sequence, facts[|facts| - 1])
  {
    var front := facts[..|facts| - 1];
    if i :| 0 <= i < |facts| && JournalClash(s, sequence, facts[i]) {
      if i < |front| { assert JournalClash(s, sequence, front[i]); }
    }
    if i :| 0 <= i < |front| && JournalClash(s, sequence, front[i]) { assert JournalClash(s, sequence, facts[i]); }
  }

  lemma RetainKeepsTruth(s: Repo, past: seq<seq<Ref>>, sequence: int, f: Fact, pin: Option<PinInput>)
    requires Truthful(s, past) && Was(past, f.ref, f.afterSha, sequence)
    ensures pin.Some? ==>
      && !RetainOutcome(s, sequence, PinFactOf(f), pin.value).Threw?
      && Truthful(RetainStep(s, sequence, PinFactOf(f), pin.value), past)
      && RetainStep(s, sequence, PinFactOf(f), pin.value).journal == s.journal
  {
    if pin.Some? {
      TruePointerMoves(s, past, f.ref, f.afterSha, sequence, pin.value.materializedAt);
      var pinned := Pinned(s, sequence, PinFactOf(f), pin.value);
      assert Truthful(pinned, past);
      TruePointerMoves(pinned, past, f.ref, f.afterSha, sequence, pin.value.materializedAt);
    }
  }

  lemma {:induction false} RecordAllKeepsTruth(s: Repo, past: seq<seq<Ref>>, sequence: int, facts: seq<Fact>,
                                               at: int, journal: bool, pin: Option<PinInput>)
    requires Truthful(s, past)
    requires forall i :: 0 <= i < |facts| ==> Was(past, facts[i].ref, facts[i].afterSha, sequence)
    ensures Truthful(RecordAll(s, sequence, facts, at, journal, pin).state, past)
  {
    if facts != [] {
      var front := facts[..|facts| - 1];
      RecordAllKeepsTruth(s, past, sequence, front, at, journal, pin);
      var r := RecordAll(s, sequence, front, at, journal, pin);
      if !r.threw {
        RecordOneKeepsTruth(r, past, sequence, facts[|facts| - 1], at, journal, pin);
      }
    }
  }

  /** The state a push records its facts in, and the history up to it. */
  function Landing(s: Repo, p: Push): Repo {
    s.(refs := ApplyReceiveCommands(s.refs, p.commands), refsVersion := p.expectedVersion + 1)
  }

  lemma LandingIsTrue(s: Repo, past: seq<seq<Ref>>, p: Push)
    requires Truthful(s, past) && PushApplies(s, p) && FactsFit(p)
    ensures var past' := Extended(past, s, Landing(s, p));
            Truthful(Landing(s, p), past') &&
            forall i :: 0 <= i < |p.facts| ==> Was(past', p.facts[i].ref, p.facts[i].afterSha, p.expectedVersion + 1)
  {
    var landing := Landing(s, p);
    var past' := Extended(past, s, landing);
    if s.refsVersion == p.expectedVersion {
      MoreHistory(s, past, landing.refs);
    }
    forall i | 0 <= i < |p.facts| ensures Was(past', p.facts[i].ref, p.facts[i].afterSha, p.expectedVersion + 1) {
      PushedAuthority(s.refs, p.commands, p.facts[i].ref);
    }
  }

  lemma RecordOneKeepsRefs(r: Recorded, sequence: int, f: Fact, at: int, journal: bool, pin: Option<PinInput>)
    ensures var t := RecordOne(r, sequence, f, at, journal, pin).state;
            t.refs == r.state.refs && t.refsVersion == r.state.refsVersion
  {}

  lemma {:induction false} RecordAllKeepsRefs(s: Repo, sequence: int, facts: seq<Fact>, at: int, journal: bool,
                                              pin: Option<PinInput>)
    ensures var t := RecordAll(s, sequence, facts, at, journal, pin).state;
            t.refs == s.refs && t.refsVersion == s.refsVersion
  {
    if facts != [] {
      var front := facts[..|facts| - 1];
      RecordAllKeepsRefs(s, sequence, front, at, journal, pin);
      RecordOneKeepsRefs(RecordAll(s, sequence, front, at, journal, pin), sequence, facts[|facts| - 1], at, journal,
          pin);
    }
  }

  lemma AcceptKeepsTruth(s: Repo, past: seq<seq<Ref>>, p: Push)
    requires Truthful(s, past) && FactsFit(p)
    ensures Truthful(AcceptStep(s, p), Extended(past, s, AcceptStep(s, p)))
  {
    if PushApplies(s, p) && !AcceptRecorded(s, p).threw {
      LandingIsTrue(s, past, p);
      var landing := Landing(s, p);
      RecordAllKeepsTruth(landing, Extended(past, s, landing), p.expectedVersion + 1, p.facts, p.acceptedAt,
          p.journal, p.pin);
      RecordAllKeepsRefs(landing, p.expectedVersion + 1, p.facts, p.acceptedAt, p.journal, p.pin);
      assert AcceptStep(s, p).refsVersion == landing.refsVersion;
    }
  }

  // ---------- Projections ----------

  lemma MarkedKeepsTruth(s: Repo, past: seq<seq<Ref>>, id: JournalId, at: int)
    requires Truthful(s, past) && id in s.journal
    ensures Truthful(Marked(s, id, at), past) && Marked(s, id, at).currents == s.currents
  {
    if s.journal[id].materializedAt == 0 {
      SameEntriesKeepTruth(s, past, s.journal[id := s.journal[id].(materializedAt := at)]);
    }
  }

  predicate SameFacts(journal: map<JournalId, Entry>, other: map<JournalId, Entry>, id: JournalId) {
    id in other ==>
      id in journal && other[id].id == journal[id].id && other[id].sequence == journal[id].sequence
          && other[id].fact == journal[id].fact
  }

  lemma SameEntriesKeepTruth(s: Repo, past: seq<seq<Ref>>, journal: map<JournalId, Entry>)
    requires Truthful(s, past) && forall id :: SameFacts(s.journal, journal, id)
    ensures Truthful(s.(journal := journal), past)
  {
    var t := s.(journal := journal);
    forall id | id in t.journal
      ensures t.journal[id].id == id && t.journal[id].sequence == id.sequence && t.journal[id].fact.ref == id.ref
      ensures Was(past, id.ref, t.journal[id].fact.afterSha, id.sequence)
    {
      assert SameFacts(s.journal, journal, id);
    }
    assert TrueHeads(t, past) && TruePointers(t, past);
  }

  lemma ProjectKeepsTruth(s: Repo, past: seq<seq<Ref>>, id: JournalId, commitSha: string, snap: Snapshot)
    requires Truthful(s, past)
    ensures Truthful(ProjectStep(s, id, commitSha, snap), past)
    ensures ProjectStep(s, id, commitSha, snap).refsVersion == s.refsVersion
    ensures EntryMatches(s, id, commitSha) ==> !ProjectOutcome(s, id, commitSha, snap).ProjectionThrew?
  {
    if EntryMatches(s, id, commitSha) {
      var entry := s.journal[id];
      InstallKeepsTruth(s, past, entry.sequence, PinFactOf(entry.fact), snap);
      var installed := InstallStep(s, entry.sequence, PinFactOf(entry.fact), snap);
      MarkedKeepsTruth(installed, past, id, snap.at);
      TruePointerMoves(s, past, id.ref, commitSha, id.sequence, snap.at);
      TruePointerMoves(Marked(installed, id, snap.at), past, id.ref, commitSha, id.sequence, snap.at);
    }
  }

  lemma FreshSequenceIsTrue(s: Repo, past: seq<seq<Ref>>, ref: string)
    requires Truthful(s, past)
    ensures Was(past, ref, Authoritative(s.refs, ref), PlanSequence(s, ref))
  {}

  lemma ReconcileKeepsTruth(s: Repo, past: seq<seq<Ref>>, ref: string, commitSha: string, sequence: int, snap: Snapshot)
    requires Truthful(s, past)
    ensures Truthful(ReconcileStep(s, ref, commitSha, sequence, snap), past)
    ensures ReconcileStep(s, ref, commitSha, sequence, snap).refsVersion == s.refsVersion
    ensures !ReconcileOutcome(s, ref, commitSha, sequence, snap).ProjectionThrew?
  {
    if Authoritative(s.refs, ref) == commitSha && SequenceMatches(s, ref, sequence) {
      FreshSequenceIsTrue(s, past, ref);
      InstallKeepsTruth(s, past, sequence, ReconcileFact(ref, commitSha), snap);
      TruePointerMoves(s, past, ref, commitSha, sequence, snap.at);
      TruePointerMoves(InstallStep(s, sequence, ReconcileFact(ref, commitSha), snap), past, ref, commitSha, sequence,
          snap.at);
    }
  }

  lemma ReleaseKeepsTruth(s: Repo, past: seq<seq<Ref>>, commitSha: string, now: int, legacy: bool, owned: bool)
    requires Truthful(s, past)
    ensures Truthful(ReleaseStep(s, commitSha, now, legacy, owned), past)
    ensures ReleaseStep(s, commitSha, now, legacy, owned).refsVersion == s.refsVersion
  {}

  lemma StepKeepsTruth(s: Repo, past: seq<seq<Ref>>, e: Event)
    requires Truthful(s, past) && Fitting(e)
    ensures Truthful(Step(s, e), Extended(past, s, Step(s, e)))
  {
    match e
    case Accept(push) => AcceptKeepsTruth(s, past, push);
    case SetRefs(refs) => MoreHistory(s, past, refs);
    case Project(id, commitSha, snap) => ProjectKeepsTruth(s, past, id, commitSha, snap);
    case ReconcileHead(ref, headSha, sequence, headSnap) =>
        ReconcileKeepsTruth(s, past, ref, headSha, sequence, headSnap);
    case ReleasePin(commitSha, now, legacyExists, owned) =>
        ReleaseKeepsTruth(s, past, commitSha, now, legacyExists, owned);
    case DropEntry(id) =>
    case SetLeases(leases) =>
    case BeginDeletion =>
  }

  /** Over any run, every head, journal entry and current pointer names what its
      ref really pointed at, at the version it carries. */
  lemma {:induction false} RunsStayTruthful(es: seq<Event>)
    requires AllFitting(es)
    ensures Truthful(Run(EMPTY_REPO, es), History(es))
  {
    if es != [] {
      var front := es[..|es| - 1];
      RunsStayTruthful(front);
      StepKeepsTruth(Run(EMPTY_REPO, front), History(front), es[|es| - 1]);
    }
  }

  lemma SameJournalClash(s: Repo, t: Repo, sequence: int, facts: seq<Fact>)
    requires s.journal == t.journal
    ensures SomeClash(s, sequence, facts) <==> SomeClash(t, sequence, facts)
  {
    assert forall i :: 0 <= i < |facts| ==>
        (JournalClash(s, sequence, facts[i]) <==> JournalClash(t, sequence, facts[i]));
  }

  lemma PushThrowsIff(s: Repo, past: seq<seq<Ref>>, p: Push)
    requires Truthful(s, past) && PushApplies(s, p) && FactsFit(p) && DistinctRefs(p.facts)
    ensures AcceptRecorded(s, p).threw <==>
            && p.facts != []
            && (!PinFits(p.facts, p.pin) || (p.journal && SomeClash(s, p.expectedVersion + 1, p.facts)))
  {
    var landing, sequence := Landing(s, p), p.expectedVersion + 1;
    LandingIsTrue(s, past, p);
    RecordAllThrowsIff(landing, Extended(past, s, landing), sequence, p.facts, p.acceptedAt, p.journal, p.pin,
        JournalId(0, ""));
    SameJournalClash(s, landing, sequence, p.facts);
  }

  /** So the pointer-conflict error never fires. A delivery throws only when its
      entry is missing or names another commit, and a reconciliation never. A push
      of distinct refs throws only when its pin fits no fact, or when the journal
      already holds one of its transitions with another before id. */
  lemma NoPointerConflicts(es: seq<Event>, p: Push, id: JournalId, ref: string, commitSha: string, sequence: int,
                           snap: Snapshot)
    requires AllFitting(es) && FactsFit(p) && DistinctRefs(p.facts)
    ensures var s := Run(EMPTY_REPO, es);
            && (ProjectOutcome(s, id, commitSha, snap).ProjectionThrew? <==>
                  !s.deleting && !EntryMatches(s, id, commitSha))
            && !ReconcileOutcome(s, ref, commitSha, sequence, snap).ProjectionThrew?
            && (PushApplies(s, p) ==>
                  (AcceptRecorded(s, p).threw <==>
                    && p.facts != []
                    && (!PinFits(p.facts, p.pin) || (p.journal && SomeClash(s, p.expectedVersion + 1, p.facts)))))
  {
    RunsStayTruthful(es);
    var s := Run(EMPTY_REPO, es);
    ProjectKeepsTruth(s, History(es), id, commitSha, snap);
    ReconcileKeepsTruth(s, History(es), ref, commitSha, sequence, snap);
    if PushApplies(s, p) { PushThrowsIff(s, History(es), p); }
  }

  // ---------- Pins, tombstones and pointers ----------

  /** A pinned commit is unreleased, is materialized and keeps its own id; no
      other commit is materialized. */
  predicate PinRecord(s: Repo, c: string) {
    if c in s.pins then
      && c !in s.tombstones && c in s.materialized
      && s.pins[c].commitSha == c && ValidPinnedSha(s.pins[c].treeSha)
      && s.materialized[c].firstSequence == s.pins[c].firstSequence
    else c !in s.materialized
  }

  ghost predicate PinsInOrder(s: Repo) {
    (forall c :: PinRecord(s, c)) && |s.pins| <= s.pinVersion
  }

  predicate Known(s: Repo, c: string) {
    c in s.pins || c in s.tombstones
  }

  predicate PinStays(s: Repo, t: Repo, c: string) {
    c in s.pins ==> c in t.pins && t.pins[c] == s.pins[c]
  }

  predicate KnownStays(s: Repo, t: Repo, c: string) {
    Known(s, c) ==> Known(t, c)
  }

  predicate PointerAdvances(s: Repo, t: Repo, ref: string) {
    ref in s.currents ==>
      ref in t.currents && (t.currents[ref] == s.currents[ref] || t.currents[ref].sequence > s.currents[ref].sequence)
  }

  /** Nothing already there is forgotten: live pins stay as they are, known
      commits stay known, and pointers stay or move to a greater sequence. */
  ghost predicate Grows(s: Repo, t: Repo) {
    && (forall c :: PinStays(s, t, c))
    && (forall c :: KnownStays(s, t, c))
    && (forall ref :: PointerAdvances(s, t, ref))
  }

  lemma GrowsTransitive(s: Repo, t: Repo, u: Repo)
    requires Grows(s, t) && Grows(t, u)
    ensures Grows(s, u)
  {
    forall c ensures PinStays(s, u, c) && KnownStays(s, u, c) {
      assert PinStays(s, t, c) && PinStays(t, u, c);
      assert KnownStays(s, t, c) && KnownStays(t, u, c);
    }
    forall ref ensures PointerAdvances(s, u, ref) {
      assert PointerAdvances(s, t, ref) && PointerAdvances(t, u, ref);
    }
  }

  lemma SamePinsGrow(s: Repo, t: Repo)
    requires t.pins == s.pins && t.tombstones == s.tombstones && t.materialized == s.materialized
             && t.pinVersion == s.pinVersion
    requires t.currents == s.currents
    ensures Grows(s, t) && (PinsInOrder(s) ==> PinsInOrder(t))
  {
    if PinsInOrder(s) {
      forall c ensures PinRecord(t, c) { assert PinRecord(s, c); }
    }
  }

  lemma OneMore<T>(m: map<string, T>, c: string, value: T)
    requires c !in m
    ensures |m[c := value]| == |m| + 1
  {
    assert m[c := value].Keys == m.Keys + {c};
    assert |m[c := value]| == |m[c := value].Keys| && |m| == |m.Keys|;
  }

  lemma OneFewer<T>(m: map<string, T>, c: string)
    requires c in m
    ensures |m - {c}| == |m| - 1
  {
    OneMore(m - {c}, c, m[c]);
    assert (m - {c})[c := m[c]] == m;
  }

  lemma PinnedInOrder(s: Repo, sequence: int, f: PinFact, input: PinInput)
    requires PinsInOrder(s) && !PinRefused(s, f, input)
    ensures PinsInOrder(Pinned(s, sequence, f, input)) && Grows(s, Pinned(s, sequence, f, input))
  {
    var t := Pinned(s, sequence, f, input);
    forall c ensures PinRecord(t, c) { assert PinRecord(s, c) && PinRecord(s, f.commitSha); }
    if f.commitSha !in s.pins {
      OneMore(s.pins, f.commitSha, FreshPin(sequence, f, input));
    }
  }

  lemma RetainInOrder(s: Repo, sequence: int, f: PinFact, input: PinInput)
    requires PinsInOrder(s)
    ensures PinsInOrder(RetainStep(s, sequence, f, input)) && Grows(s, RetainStep(s, sequence, f, input))
  {
    if RetainOutcome(s, sequence, f, input).Kept? {
      var pinned := Pinned(s, sequence, f, input);
      PinnedInOrder(s, sequence, f, input);
      AdvanceInOrder(pinned, f.ref, f.commitSha, sequence, input.materializedAt);
      GrowsTransitive(s, pinned, AdvancePointer(pinned, f.ref, f.commitSha, sequence, input.materializedAt));
    }
  }

  lemma {:induction false} RecordAllInOrder(s: Repo, sequence: int, facts: seq<Fact>, at: int, journal: bool,
                                            pin: Option<PinInput>)
    requires PinsInOrder(s)
    ensures var t := RecordAll(s, sequence, facts, at, journal, pin).state; PinsInOrder(t) && Grows(s, t)
  {
    if facts != [] {
      var front, f := facts[..|facts| - 1], facts[|facts| - 1];
      RecordAllInOrder(s, sequence, front, at, journal, pin);
      var r := RecordAll(s, sequence, front, at, journal, pin);
      RecordOneInOrder(r, sequence, f, at, journal, pin);
      GrowsTransitive(s, r.state, RecordOne(r, sequence, f, at, journal, pin).state);
    }
  }

  lemma RecordOneInOrder(r: Recorded, sequence: int, f: Fact, at: int, journal: bool, pin: Option<PinInput>)
    requires PinsInOrder(r.state)
    ensures var t := RecordOne(r, sequence, f, at, journal, pin).state; PinsInOrder(t) && Grows(r.state, t)
  {
    var headed := WithHead(r.state, sequence, f);
    SamePinsGrow(r.state, headed);
    if PinsFact(pin, f) {
      var pinned := RetainStep(headed, sequence, PinFactOf(f), pin.value);
      RetainInOrder(headed, sequence, PinFactOf(f), pin.value);
      GrowsTransitive(r.state, headed, pinned);
      EntryInOrder(r.state, pinned, sequence, f, at);
    } else {
      EntryInOrder(r.state, headed, sequence, f, at);
    }
  }

  lemma EntryInOrder(s: Repo, t: Repo, sequence: int, f: Fact, at: int)
    requires PinsInOrder(t) && Grows(s, t)
    ensures PinsInOrder(WithEntry(t, sequence, f, at)) && Grows(s, WithEntry(t, sequence, f, at))
  {
    SamePinsGrow(t, WithEntry(t, sequence, f, at));
    GrowsTransitive(s, t, WithEntry(t, sequence, f, at));
  }

  lemma InstallInOrder(s: Repo, sequence: int, f: PinFact, snap: Snapshot)
    requires PinsInOrder(s)
    ensures PinsInOrder(InstallStep(s, sequence, f, snap)) && Grows(s, InstallStep(s, sequence, f, snap))
  {
    var checked := if NeedsLease(s, f.commitSha) then LeasesChecked(s, snap.token, snap.now) else s;
    SamePinsGrow(s, checked);
    if !PinRefused(checked, f, InstallInput(f, snap)) {
      PinnedInOrder(checked, sequence, f, InstallInput(f, snap));
      GrowsTransitive(s, checked, Pinned(checked, sequence, f, InstallInput(f, snap)));
    }
  }

  lemma AdvanceInOrder(s: Repo, ref: string, commitSha: string, sequence: int, at: int)
    requires PinsInOrder(s)
    ensures PinsInOrder(AdvancePointer(s, ref, commitSha, sequence, at))
            && Grows(s, AdvancePointer(s, ref, commitSha, sequence, at))
  {
    forall c ensures PinRecord(AdvancePointer(s, ref, commitSha, sequence, at), c) { assert PinRecord(s, c); }
  }

  lemma AdvanceFrom(s: Repo, t: Repo, ref: string, commitSha: string, sequence: int, at: int)
    requires PinsInOrder(t) && Grows(s, t)
    ensures PinsInOrder(AdvancePointer(t, ref, commitSha, sequence, at))
            && Grows(s, AdvancePointer(t, ref, commitSha, sequence, at))
  {
    AdvanceInOrder(t, ref, commitSha, sequence, at);
    GrowsTransitive(s, t, AdvancePointer(t, ref, commitSha, sequence, at));
  }

  lemma MarkInOrder(s: Repo, t: Repo, id: JournalId, at: int)
    requires PinsInOrder(t) && Grows(s, t) && id in t.journal
    ensures PinsInOrder(Marked(t, id, at)) && Grows(s, Marked(t, id, at))
  {
    SamePinsGrow(t, Marked(t, id, at));
    GrowsTransitive(s, t, Marked(t, id, at));
  }

  lemma ProjectInstalledInOrder(s: Repo, id: JournalId, snap: Snapshot)
    requires PinsInOrder(s) && id in s.journal
    ensures PinsInOrder(ProjectInstalled(s, id, snap)) && Grows(s, ProjectInstalled(s, id, snap))
  {
    var entry := s.journal[id];
    var installed := InstallStep(s, entry.sequence, PinFactOf(entry.fact), snap);
    InstallInOrder(s, entry.sequence, PinFactOf(entry.fact), snap);
    InstallTouchesPinsOnly(s, entry.sequence, PinFactOf(entry.fact), snap);
    MarkInOrder(s, installed, id, snap.at);
  }

  lemma ProjectInOrder(s: Repo, id: JournalId, commitSha: string, snap: Snapshot)
    requires PinsInOrder(s)
    ensures PinsInOrder(ProjectStep(s, id, commitSha, snap)) && Grows(s, ProjectStep(s, id, commitSha, snap))
  {
    SamePinsGrow(s, s);
    if EntryMatches(s, id, commitSha) {
      var entry := s.journal[id];
      ProjectInstalledInOrder(s, id, snap);
      InstallInOrder(s, entry.sequence, PinFactOf(entry.fact), snap);
      AdvanceFrom(s, ProjectInstalled(s, id, snap), entry.fact.ref, commitSha, entry.sequence, snap.at);
    }
  }

  lemma ReconcileInOrder(s: Repo, ref: string, commitSha: string, sequence: int, snap: Snapshot)
    requires PinsInOrder(s)
    ensures PinsInOrder(ReconcileStep(s, ref, commitSha, sequence, snap))
            && Grows(s, ReconcileStep(s, ref, commitSha, sequence, snap))
  {
    SamePinsGrow(s, s);
    InstallInOrder(s, sequence, ReconcileFact(ref, commitSha), snap);
    AdvanceFrom(s, InstallStep(s, sequence, ReconcileFact(ref, commitSha), snap), ref, commitSha, sequence, snap.at);
  }

  /** The one way a pin goes: released, unreferenced, with a tombstone left. */
  predicate PinReleasedOnly(s: Repo, e: Event, t: Repo, c: string) {
    c in s.pins ==>
      if c in t.pins then t.pins[c] == s.pins[c]
      else e.ReleasePin? && e.releasedSha == c && !s.deleting && !Referenced(s.refs, c) && c in t.tombstones
  }

  ghost predicate StepKeeps(s: Repo, e: Event, t: Repo) {
    && (forall c :: PinReleasedOnly(s, e, t, c))
    && (forall c :: KnownStays(s, t, c))
    && (forall ref :: PointerAdvances(s, t, ref))
  }

  lemma GrowingKeeps(s: Repo, e: Event, t: Repo)
    requires Grows(s, t)
    ensures StepKeeps(s, e, t)
  {
    forall c ensures PinReleasedOnly(s, e, t, c) { assert PinStays(s, t, c); }
  }

  lemma ReleasedCount(s: Repo, e: Event)
    requires |s.pins| <= s.pinVersion && e.ReleasePin?
    ensures |Step(s, e).pins| <= Step(s, e).pinVersion
  {
    if e.releasedSha in s.pins {
      OneFewer(s.pins, e.releasedSha);
    }
  }

  lemma ReleaseOfOne(s: Repo, e: Event, c: string)
    requires e.ReleasePin? && PinRecord(s, c)
    ensures var t := Step(s, e);
            PinRecord(t, c) && PinReleasedOnly(s, e, t, c) && KnownStays(s, t, c) && t.currents == s.currents
  {}

  lemma ReleaseInOrder(s: Repo, e: Event)
    requires PinsInOrder(s) && e.ReleasePin?
    ensures PinsInOrder(Step(s, e)) && StepKeeps(s, e, Step(s, e))
  {
    var t := Step(s, e);
    ReleasedCount(s, e);
    forall c ensures PinRecord(t, c) && PinReleasedOnly(s, e, t, c) && KnownStays(s, t, c) && PointerAdvances(s, t, c) {
      assert PinRecord(s, c);
      ReleaseOfOne(s, e, c);
    }
  }

  lemma StepInOrder(s: Repo, e: Event)
    requires PinsInOrder(s)
    ensures PinsInOrder(Step(s, e)) && StepKeeps(s, e, Step(s, e))
  {
    if e.ReleasePin? {
      ReleaseInOrder(s, e);
    } else {
      GrowthInOrder(s, e);
      GrowingKeeps(s, e, Step(s, e));
    }
  }

  lemma RecordFactsInOrder(s: Repo, sequence: int, facts: seq<Fact>, at: int, journal: bool, pin: Option<PinInput>)
    requires PinsInOrder(s)
    ensures var t := RecordFacts(s, sequence, facts, at, journal, pin).state; PinsInOrder(t) && Grows(s, t)
  {
    SamePinsGrow(s, s);
    RecordAllInOrder(s, sequence, facts, at, journal, pin);
  }

  lemma AcceptInOrder(s: Repo, p: Push)
    requires PinsInOrder(s)
    ensures PinsInOrder(AcceptStep(s, p)) && Grows(s, AcceptStep(s, p))
  {
    if PushApplies(s, p) && !AcceptRecorded(s, p).threw {
      SamePinsGrow(s, Landing(s, p));
      RecordFactsInOrder(Landing(s, p), p.expectedVersion + 1, p.facts, p.acceptedAt, p.journal, p.pin);
      GrowsTransitive(s, Landing(s, p), AcceptRecorded(s, p).state);
    } else {
      SamePinsGrow(s, s);
    }
  }

  lemma GrowthInOrder(s: Repo, e: Event)
    requires PinsInOrder(s) && !e.ReleasePin?
    ensures PinsInOrder(Step(s, e)) && Grows(s, Step(s, e))
  {
    match e
    case Accept(push) => AcceptInOrder(s, push);
    case SetRefs(refs) => SamePinsGrow(s, Step(s, e));
    case Project(id, commitSha, snap) => ProjectInOrder(s, id, commitSha, snap);
    case ReconcileHead(ref, headSha, sequence, headSnap) => ReconcileInOrder(s, ref, headSha, sequence, headSnap);
    case DropEntry(id) => SamePinsGrow(s, Step(s, e));
    case SetLeases(leases) => SamePinsGrow(s, Step(s, e));
    case BeginDeletion => SamePinsGrow(s, Step(s, e));
  }

  /** No commit ever has both a pin and a release tombstone, over any run. */
  lemma {:induction false} PinExcludesTombstone(es: seq<Event>)
    ensures PinsInOrder(Run(EMPTY_REPO, es))
    ensures forall c :: c in Run(EMPTY_REPO, es).pins ==> c !in Run(EMPTY_REPO, es).tombstones
  {
    if es == [] {
      forall c ensures PinRecord(EMPTY_REPO, c) {}
    } else {
      PinExcludesTombstone(es[..|es| - 1]);
      StepInOrder(Run(EMPTY_REPO, es[..|es| - 1]), es[|es| - 1]);
    }
    forall c | c in Run(EMPTY_REPO, es).pins ensures c !in Run(EMPTY_REPO, es).tombstones {
      assert PinRecord(Run(EMPTY_REPO, es), c);
    }
  }

  lemma LastStep(es: seq<Event>, c: string)
    requires es != []
    ensures var s, t := Run(EMPTY_REPO, es[..|es| - 1]), Run(EMPTY_REPO, es);
            PinReleasedOnly(s, es[|es| - 1], t, c) && KnownStays(s, t, c) && PointerAdvances(s, t, c)
  {
    var s, e := Run(EMPTY_REPO, es[..|es| - 1]), es[|es| - 1];
    PinExcludesTombstone(es[..|es| - 1]);
    StepInOrder(s, e);
    assert StepKeeps(s, e, Step(s, e));
  }

  /** While a pin lives it is the same pin: tree and first provenance included. */
  lemma {:induction false} LivePinIsImmutable(es: seq<Event>, i: nat, c: string)
    requires i <= |es|
    requires forall j :: i <= j <= |es| ==> c in Run(EMPTY_REPO, es[..j]).pins
    ensures c in Run(EMPTY_REPO, es).pins && c in Run(EMPTY_REPO, es[..i]).pins
    ensures Run(EMPTY_REPO, es).pins[c] == Run(EMPTY_REPO, es[..i]).pins[c]
  {
    assert es[..|es|] == es;
    assert c in Run(EMPTY_REPO, es[..|es|]).pins && c in Run(EMPTY_REPO, es[..i]).pins;
    if i < |es| {
      var front := es[..|es| - 1];
      forall j | i <= j <= |front| ensures c in Run(EMPTY_REPO, front[..j]).pins { assert front[..j] == es[..j]; }
      LivePinIsImmutable(front, i, c);
      assert front[..i] == es[..i];
      LastStep(es, c);
    }
  }

  /** A commit once pinned resolves as pinned or released for ever after, never as
      a legacy snapshot. */
  lemma {:induction false} OncePinnedNeverLegacy(es: seq<Event>, i: nat, c: string)
    requires i <= |es| && c in Run(EMPTY_REPO, es[..i]).pins
    ensures !Resolve(Run(EMPTY_REPO, es), c).Legacy?
  {
    if i == |es| {
      assert es[..i] == es;
    } else {
      var front := es[..|es| - 1];
      assert front[..i] == es[..i];
      OncePinnedNeverLegacy(front, i, c);
      LastStep(es, c);
    }
  }

  /** A step removes a live pin exactly when it releases that commit, no ref
      targets it and the repository is not being deleted. */
  lemma PinGoesIffReleased(es: seq<Event>, e: Event, c: string)
    requires c in Run(EMPTY_REPO, es).pins
    ensures var s := Run(EMPTY_REPO, es);
            c !in Step(s, e).pins <==> e.ReleasePin? && e.releasedSha == c && !s.deleting && !Referenced(s.refs, c)
  {
    var s := Run(EMPTY_REPO, es);
    PinExcludesTombstone(es);
    StepInOrder(s, e);
    assert PinReleasedOnly(s, e, Step(s, e), c);
    if e.ReleasePin? && e.releasedSha == c { ReleaseRemoves(s, e, c); }
  }

  lemma ReleaseRemoves(s: Repo, e: Event, c: string)
    requires e.ReleasePin? && e.releasedSha == c && c in s.pins
    ensures c !in Step(s, e).pins <==> !s.deleting && !Referenced(s.refs, c)
  {}

  /** Along any run a pointer only moves to greater sequences, and at one sequence
      it stays at one commit. */
  lemma {:induction false} PointerNeverGoesBack(es: seq<Event>, i: nat, ref: string)
    requires i <= |es| && ref in Run(EMPTY_REPO, es[..i]).currents
    ensures PointerAdvances(Run(EMPTY_REPO, es[..i]), Run(EMPTY_REPO, es), ref)
  {
    if i == |es| {
      assert es[..i] == es;
    } else {
      var front := es[..|es| - 1];
      assert front[..i] == es[..i];
      PointerNeverGoesBack(front, i, ref);
      LastStep(es, ref);
    }
  }
}
