/** Where pins come from: over any run, the ref and sequence a pin names as its
    first provenance are a version at which that ref pointed at the commit. */
module SnapshotProvenance {
  import opened NetFacts
  import opened Options
  import opened RefList
  import opened SnapshotState
  import opened SnapshotRuns

  ghost predicate TrueOrigin(s: Repo, past: seq<seq<Ref>>, c: string) {
    c in s.pins ==> Was(past, s.pins[c].ref, c, s.pins[c].firstSequence)
  }

  ghost predicate TrueOrigins(s: Repo, past: seq<seq<Ref>>) {
    forall c :: TrueOrigin(s, past, c)
  }

  lemma SamePins(s: Repo, t: Repo, past: seq<seq<Ref>>)
    requires TrueOrigins(s, past) && forall c :: c in t.pins ==> c in s.pins && t.pins[c] == s.pins[c]
    ensures TrueOrigins(t, past)
  {
    forall c ensures TrueOrigin(t, past, c) { assert TrueOrigin(s, past, c); }
  }

  lemma LongerPast(s: Repo, past: seq<seq<Ref>>, refs: seq<Ref>)
    requires TrueOrigins(s, past)
    ensures TrueOrigins(s, past + [refs])
  {
    forall c ensures TrueOrigin(s, past + [refs], c) { assert TrueOrigin(s, past, c); }
  }

  lemma PinnedOrigin(s: Repo, past: seq<seq<Ref>>, sequence: int, f: PinFact, input: PinInput)
    requires TrueOrigins(s, past) && Was(past, f.ref, f.commitSha, sequence)
    ensures TrueOrigins(Pinned(s, sequence, f, input), past)
  {
    forall c ensures TrueOrigin(Pinned(s, sequence, f, input), past, c) { assert TrueOrigin(s, past, c); }
  }

  lemma RecordOneOrigin(r: Recorded, past: seq<seq<Ref>>, sequence: int, f: Fact, at: int, journal: bool,
                        pin: Option<PinInput>)
    requires TrueOrigins(r.state, past) && Was(past, f.ref, f.afterSha, sequence)
    ensures TrueOrigins(RecordOne(r, sequence, f, at, journal, pin).state, past)
  {
    var headed := WithHead(r.state, sequence, f);
    SamePins(r.state, headed, past);
    if PinsFact(pin, f) {
      PinnedOrigin(headed, past, sequence, PinFactOf(f), pin.value);
      RetainedOrigin(headed, past, sequence, PinFactOf(f), pin.value);
      var pinned := RetainStep(headed, sequence, PinFactOf(f), pin.value);
      SamePins(pinned, WithEntry(pinned, sequence, f, at), past);
    } else {
      SamePins(headed, WithEntry(headed, sequence, f, at), past);
    }
  }

  lemma RetainedOrigin(s: Repo, past: seq<seq<Ref>>, sequence: int, f: PinFact, input: PinInput)
    requires TrueOrigins(s, past) && TrueOrigins(Pinned(s, sequence, f, input), past)
    ensures TrueOrigins(RetainStep(s, sequence, f, input), past)
  {
    var t := RetainStep(s, sequence, f, input);
    assert t.pins == s.pins || t.pins == Pinned(s, sequence, f, input).pins;
    if t.pins == s.pins { SamePins(s, t, past); } else { SamePins(Pinned(s, sequence, f, input), t, past); }
  }

  lemma {:induction false} RecordAllOrigin(s: Repo, past: seq<seq<Ref>>, sequence: int, facts: seq<Fact>, at: int,
                                           journal: bool, pin: Option<PinInput>)
    requires TrueOrigins(s, past)
    requires forall i :: 0 <= i < |facts| ==> Was(past, facts[i].ref, facts[i].afterSha, sequence)
    ensures TrueOrigins(RecordAll(s, sequence, facts, at, journal, pin).state, past)
  {
    if facts != [] {
      var front := facts[..|facts| - 1];
      RecordAllOrigin(s, past, sequence, front, at, journal, pin);
      RecordOneOrigin(RecordAll(s, sequence, front, at, journal, pin), past, sequence, facts[|facts| - 1], at,
          journal, pin);
    }
  }

  lemma LandingOrigin(s: Repo, past: seq<seq<Ref>>, p: Push)
    requires TrueOrigins(s, past)
    ensures TrueOrigins(Landing(s, p), Extended(past, s, Landing(s, p)))
  {
    SamePins(s, Landing(s, p), past);
    LongerPast(Landing(s, p), past, Landing(s, p).refs);
  }

  lemma AcceptOrigin(s: Repo, past: seq<seq<Ref>>, p: Push)
    requires Truthful(s, past) && TrueOrigins(s, past) && FactsFit(p)
    ensures TrueOrigins(AcceptStep(s, p), Extended(past, s, AcceptStep(s, p)))
  {
    if PushApplies(s, p) && !AcceptRecorded(s, p).threw {
      var landing, sequence := Landing(s, p), p.expectedVersion + 1;
      var past' := Extended(past, s, landing);
      LandingIsTrue(s, past, p);
      LandingOrigin(s, past, p);
      RecordAllOrigin(landing, past', sequence, p.facts, p.acceptedAt, p.journal, p.pin);
      RecordAllKeepsRefs(landing, sequence, p.facts, p.acceptedAt, p.journal, p.pin);
      AcceptLandsOn(s, p);
    }
  }

  lemma AcceptLandsOn(s: Repo, p: Push)
    requires PushApplies(s, p) && !AcceptRecorded(s, p).threw
    ensures AcceptStep(s, p) ==
            RecordAll(Landing(s, p), p.expectedVersion + 1, p.facts, p.acceptedAt, p.journal, p.pin).state
  {}

  lemma InstallOrigin(s: Repo, past: seq<seq<Ref>>, sequence: int, f: PinFact, snap: Snapshot)
    requires TrueOrigins(s, past) && Was(past, f.ref, f.commitSha, sequence)
    ensures TrueOrigins(InstallStep(s, sequence, f, snap), past)
  {
    var checked := if NeedsLease(s, f.commitSha) then LeasesChecked(s, snap.token, snap.now) else s;
    SamePins(s, checked, past);
    PinnedOrigin(checked, past, sequence, f, InstallInput(f, snap));
  }

  lemma InstalledPins(s: Repo, id: JournalId, snap: Snapshot)
    requires id in s.journal
    ensures ProjectInstalled(s, id, snap).pins ==
            InstallStep(s, s.journal[id].sequence, PinFactOf(s.journal[id].fact), snap).pins
  {
    InstallTouchesPinsOnly(s, s.journal[id].sequence, PinFactOf(s.journal[id].fact), snap);
  }

  lemma ProjectPins(s: Repo, id: JournalId, commitSha: string, snap: Snapshot)
    ensures var t := ProjectStep(s, id, commitSha, snap);
            t.pins == s.pins ||
            (EntryMatches(s, id, commitSha) &&
             t.pins == InstallStep(s, s.journal[id].sequence, PinFactOf(s.journal[id].fact), snap).pins)
  {
    if EntryMatches(s, id, commitSha) {
      var entry := s.journal[id];
      InstalledPins(s, id, snap);
      match ProjectOutcome(s, id, commitSha, snap)
      case Projected(_, _, _) =>
        assert ProjectStep(s, id, commitSha, snap) ==
               AdvancePointer(ProjectInstalled(s, id, snap), entry.fact.ref, commitSha, entry.sequence, snap.at);
      case _ =>
    }
  }

  lemma ProjectOrigin(s: Repo, past: seq<seq<Ref>>, id: JournalId, commitSha: string, snap: Snapshot)
    requires Truthful(s, past) && TrueOrigins(s, past)
    ensures TrueOrigins(ProjectStep(s, id, commitSha, snap), past)
  {
    var t := ProjectStep(s, id, commitSha, snap);
    ProjectPins(s, id, commitSha, snap);
    if t.pins == s.pins {
      SamePins(s, t, past);
    } else {
      EntryOrigin(s, past, id, commitSha, snap, t);
    }
  }

  lemma EntryOrigin(s: Repo, past: seq<seq<Ref>>, id: JournalId, commitSha: string, snap: Snapshot, t: Repo)
    requires Truthful(s, past) && TrueOrigins(s, past) && EntryMatches(s, id, commitSha)
    requires t.pins == InstallStep(s, s.journal[id].sequence, PinFactOf(s.journal[id].fact), snap).pins
    ensures TrueOrigins(t, past)
  {
    var entry := s.journal[id];
    InstallOrigin(s, past, entry.sequence, PinFactOf(entry.fact), snap);
    SamePins(InstallStep(s, entry.sequence, PinFactOf(entry.fact), snap), t, past);
  }

  lemma ReconcilePins(s: Repo, ref: string, commitSha: string, sequence: int, snap: Snapshot)
    ensures var t := ReconcileStep(s, ref, commitSha, sequence, snap);
            t.pins == s.pins ||
            (Authoritative(s.refs, ref) == commitSha && sequence == PlanSequence(s, ref) &&
             t.pins == InstallStep(s, sequence, ReconcileFact(ref, commitSha), snap).pins)
  {
    match ReconcileOutcome(s, ref, commitSha, sequence, snap)
    case Projected(_, _, _) =>
      assert ReconcileStep(s, ref, commitSha, sequence, snap) ==
             AdvancePointer(InstallStep(s, sequence, ReconcileFact(ref, commitSha), snap),
                            ref, commitSha, sequence, snap.at);
    case _ =>
  }

  lemma ReconcileOrigin(s: Repo, past: seq<seq<Ref>>, ref: string, commitSha: string, sequence: int, snap: Snapshot)
    requires Truthful(s, past) && TrueOrigins(s, past)
    ensures TrueOrigins(ReconcileStep(s, ref, commitSha, sequence, snap), past)
  {
    var t := ReconcileStep(s, ref, commitSha, sequence, snap);
    ReconcilePins(s, ref, commitSha, sequence, snap);
    if t.pins == s.pins {
      SamePins(s, t, past);
    } else {
      HeadOrigin(s, past, ref, commitSha, sequence, snap, t);
    }
  }

  lemma HeadOrigin(s: Repo, past: seq<seq<Ref>>, ref: string, commitSha: string, sequence: int, snap: Snapshot, t: Repo)
    requires Truthful(s, past) && TrueOrigins(s, past)
    requires Authoritative(s.refs, ref) == commitSha && sequence == PlanSequence(s, ref)
    requires t.pins == InstallStep(s, sequence, ReconcileFact(ref, commitSha), snap).pins
    ensures TrueOrigins(t, past)
  {
    FreshSequenceIsTrue(s, past, ref);
    InstallOrigin(s, past, sequence, ReconcileFact(ref, commitSha), snap);
    SamePins(InstallStep(s, sequence, ReconcileFact(ref, commitSha), snap), t, past);
  }

  lemma StepOrigin(s: Repo, past: seq<seq<Ref>>, e: Event)
    requires Truthful(s, past) && TrueOrigins(s, past) && Fitting(e)
    ensures TrueOrigins(Step(s, e), Extended(past, s, Step(s, e)))
  {
    match e
    case Accept(push) => AcceptOrigin(s, past, push);
    case Project(id, commitSha, snap) =>
      ProjectOrigin(s, past, id, commitSha, snap);
      ProjectKeepsTruth(s, past, id, commitSha, snap);
    case ReconcileHead(ref, headSha, sequence, headSnap) =>
      ReconcileOrigin(s, past, ref, headSha, sequence, headSnap);
      ReconcileKeepsTruth(s, past, ref, headSha, sequence, headSnap);
    case SetRefs(refs) =>
      SamePins(s, Step(s, e), past);
      LongerPast(Step(s, e), past, Step(s, e).refs);
    case _ => OtherOrigin(s, past, e);
  }

  lemma OtherOrigin(s: Repo, past: seq<seq<Ref>>, e: Event)
    requires TrueOrigins(s, past) && (e.ReleasePin? || e.DropEntry? || e.SetLeases? || e.BeginDeletion?)
    ensures TrueOrigins(Step(s, e), Extended(past, s, Step(s, e)))
  {
    SamePins(s, Step(s, e), past);
  }

  /** Over any run each live pin's provenance is true. */
  lemma PinsHaveTrueOrigins(es: seq<Event>, c: string)
    requires AllFitting(es) && c in Run(EMPTY_REPO, es).pins
    ensures var pin := Run(EMPTY_REPO, es).pins[c]; Was(History(es), pin.ref, c, pin.firstSequence)
  {
    RunsHaveTrueOrigins(es);
    assert TrueOrigin(Run(EMPTY_REPO, es), History(es), c);
  }

  lemma {:induction false} RunsHaveTrueOrigins(es: seq<Event>)
    requires AllFitting(es)
    ensures TrueOrigins(Run(EMPTY_REPO, es), History(es))
  {
    if es == [] {
      forall c ensures TrueOrigin(EMPTY_REPO, History(es), c) {}
    } else {
      var front := es[..|es| - 1];
      RunsHaveTrueOrigins(front);
      RunsStayTruthful(front);
      StepOrigin(Run(EMPTY_REPO, front), History(front), es[|es| - 1]);
    }
  }
}
