/** Runs in which refs move by pushes alone: the accepted head is always the
    ref's value, so no plan is ever overtaken and reconciliation converges. */
module SnapshotPushes {
  import opened Commands
  import opened NetFacts
  import opened Options
  import opened RefList
  import opened SnapshotState
  import opened SnapshotRuns
  import opened SnapshotProjection

  // ---------- Ref lists without repeated names ----------

  ghost predicate Named(refs: seq<Ref>, name: string) {
    exists i :: 0 <= i < |refs| && refs[i].name == name
  }

  ghost predicate NamedOnce(refs: seq<Ref>) {
    forall i, j :: 0 <= i < j < |refs| ==> refs[i].name != refs[j].name
  }

  lemma NamedCons(x: Ref, refs: seq<Ref>, name: string)
    ensures Named([x] + refs, name) <==> x.name == name || Named(refs, name)
  {
    if i :| 0 <= i < |refs| && refs[i].name == name { assert ([x] + refs)[i + 1].name == name; }
    if x.name == name { assert ([x] + refs)[0].name == name; }
  }

  lemma NamedOnceCons(x: Ref, refs: seq<Ref>)
    ensures NamedOnce([x] + refs) <==> NamedOnce(refs) && !Named(refs, x.name)
  {
    var all := [x] + refs;
    if NamedOnce(all) {
      forall i, j | 0 <= i < j < |refs| ensures refs[i].name != refs[j].name {
        assert all[i + 1].name != all[j + 1].name;
      }
      forall i | 0 <= i < |refs| ensures refs[i].name != x.name { assert all[0].name != all[i + 1].name; }
    }
  }

  lemma {:induction false} SetRefNames(refs: seq<Ref>, name: string, oid: string, other: string)
    ensures Named(SetRef(refs, name, oid), other) <==> other == name || Named(refs, other)
  {
    if refs == [] {
      assert SetRef(refs, name, oid)[0].name == name;
    } else {
      assert refs == [refs[0]] + refs[1..];
      NamedCons(refs[0], refs[1..], other);
      NamedCons(Ref(name, oid), refs[1..], other);
      SetRefNames(refs[1..], name, oid, other);
      NamedCons(refs[0], SetRef(refs[1..], name, oid), other);
    }
  }

  lemma {:induction false} SetRefOnce(refs: seq<Ref>, name: string, oid: string)
    requires NamedOnce(refs)
    ensures NamedOnce(SetRef(refs, name, oid))
  {
    if refs != [] {
      assert refs == [refs[0]] + refs[1..];
      NamedOnceCons(refs[0], refs[1..]);
      NamedOnceCons(Ref(name, oid), refs[1..]);
      SetRefOnce(refs[1..], name, oid);
      SetRefNames(refs[1..], name, oid, refs[0].name);
      NamedOnceCons(refs[0], SetRef(refs[1..], name, oid));
    }
  }

  lemma {:induction false} DropRefOnce(refs: seq<Ref>, name: string)
    requires NamedOnce(refs)
    ensures NamedOnce(DropRef(refs, name))
    ensures forall other :: Named(DropRef(refs, name), other) ==> Named(refs, other)
  {
    if refs != [] {
      assert refs == [refs[0]] + refs[1..];
      NamedOnceCons(refs[0], refs[1..]);
      DropRefOnce(refs[1..], name);
      NamedOnceCons(refs[0], DropRef(refs[1..], name));
      forall other ensures Named(DropRef(refs, name), other) ==> Named(refs, other) {
        NamedCons(refs[0], refs[1..], other);
        NamedCons(refs[0], DropRef(refs[1..], name), other);
      }
    }
  }

  lemma {:induction false} AsMapOnce(refs: seq<Ref>)
    ensures NamedOnce(AsMap(refs))
  {
    if refs != [] {
      var last := refs[|refs| - 1];
      AsMapOnce(refs[..|refs| - 1]);
      SetRefOnce(AsMap(refs[..|refs| - 1]), last.name, last.oid);
    }
  }

  /** A push leaves each ref listed once. */
  lemma {:induction false} PushNamesOnce(refs: seq<Ref>, cs: seq<ReceiveCommand>)
    ensures NamedOnce(ApplyReceiveCommands(refs, cs))
  {
    if cs == [] {
      AsMapOnce(refs);
    } else {
      PushNamesOnce(refs, Front(cs));
      var before := ApplyReceiveCommands(refs, Front(cs));
      DropRefOnce(before, Last(cs).ref);
      SetRefOnce(before, Last(cs).ref, Last(cs).newOid);
    }
  }

  lemma {:induction false} AuthorityOf(refs: seq<Ref>, name: string)
    requires NamedOnce(refs)
    ensures !Named(refs, name) ==> Authoritative(refs, name) == ZERO_OID
    ensures forall i :: 0 <= i < |refs| && refs[i].name == name ==> Authoritative(refs, name) == refs[i].oid
  {
    if refs != [] {
      assert refs == [refs[0]] + refs[1..];
      NamedOnceCons(refs[0], refs[1..]);
      NamedCons(refs[0], refs[1..], name);
      AuthorityOf(refs[1..], name);
      forall i | 0 <= i < |refs| && refs[i].name == name ensures Authoritative(refs, name) == refs[i].oid {
        if i > 0 { assert refs[1..][i - 1] == refs[i]; }
      }
    }
  }

  /** Reading the list into a map loses nothing when names are listed once. */
  lemma {:induction false} AsMapAuthority(refs: seq<Ref>, name: string)
    requires NamedOnce(refs)
    ensures Authoritative(AsMap(refs), name) == Authoritative(refs, name)
  {
    AuthorityOf(refs, name);
    if refs != [] {
      var front, last := refs[..|refs| - 1], refs[|refs| - 1];
      AsMapAuthority(front, name);
      AuthorityOf(front, name);
      SetRefAuthority(AsMap(front), last.name, last.oid, name);
      if Named(front, name) {
        var i :| 0 <= i < |front| && front[i].name == name;
        assert refs[i] == front[i];
      } else if Named(refs, name) {
        NamedLast(refs, name);
      }
    }
  }

  lemma NamedLast(refs: seq<Ref>, name: string)
    requires refs != [] && Named(refs, name) && !Named(refs[..|refs| - 1], name)
    ensures refs[|refs| - 1].name == name
  {
    assert forall i :: 0 <= i < |refs| - 1 ==> refs[i] == refs[..|refs| - 1][i];
  }

  // ---------- Push-only runs ----------

  /** A push carries its net facts, and was issued against the refs it meets. */
  ghost predicate HonestPush(s: Repo, p: Push) {
    && NetOf(p.commands, p.facts)
    && (s.refsVersion == p.expectedVersion ==>
          forall ref :: Touched(p.commands, ref) ==> Authoritative(s.refs, ref) == FirstOld(p.commands, ref))
  }

  ghost predicate PushOnly(s: Repo, es: seq<Event>) {
    es != [] ==>
      && PushOnly(s, es[..|es| - 1])
      && !es[|es| - 1].SetRefs?
      && (es[|es| - 1].Accept? ==> HonestPush(Run(s, es[..|es| - 1]), es[|es| - 1].push))
  }

  lemma {:induction false} PushOnlyFits(s: Repo, es: seq<Event>)
    requires PushOnly(s, es)
    ensures AllFitting(es)
  {
    if es != [] {
      PushOnlyFits(s, es[..|es| - 1]);
      var e := es[|es| - 1];
      if e.Accept? { CheckedFactsFit(e.push); }
      forall i | 0 <= i < |es| ensures Fitting(es[i]) {
        if i < |es| - 1 { assert es[i] == es[..|es| - 1][i]; }
      }
    }
  }

  predicate HeadIsCurrent(s: Repo, ref: string) {
    ref in s.heads ==> s.heads[ref].afterSha == Authoritative(s.refs, ref)
  }

  predicate PointerBehind(s: Repo, ref: string) {
    ref in s.heads && ref in s.currents ==> s.currents[ref].sequence <= s.heads[ref].sequence
  }

  predicate EntryBehind(s: Repo, id: JournalId) {
    id in s.journal ==> id.ref in s.heads && id.sequence <= s.heads[id.ref].sequence
  }

  /** Nothing is ahead of its ref's accepted head. */
  ghost predicate Behind(s: Repo) {
    (forall ref :: PointerBehind(s, ref)) && (forall id :: EntryBehind(s, id))
  }

  ghost predicate Led(s: Repo) {
    NamedOnce(s.refs) && (forall ref :: HeadIsCurrent(s, ref)) && Behind(s)
  }

  /** No sequence recorded so far exceeds this one. */
  ghost predicate UpTo(s: Repo, sequence: int) {
    && (forall ref :: ref in s.heads ==> s.heads[ref].sequence <= sequence)
    && (forall ref :: ref in s.currents ==> s.currents[ref].sequence <= sequence)
  }

  lemma TruthfulUpTo(s: Repo, past: seq<seq<Ref>>)
    requires Truthful(s, past)
    ensures UpTo(s, s.refsVersion)
  {
    forall ref | ref in s.heads ensures s.heads[ref].sequence <= s.refsVersion {
      assert Was(past, ref, s.heads[ref].afterSha, s.heads[ref].sequence);
    }
    forall ref | ref in s.currents ensures s.currents[ref].sequence <= s.refsVersion {
      assert Was(past, ref, s.currents[ref].commitSha, s.currents[ref].sequence);
    }
  }

  // ---------- Recording a push ----------

  lemma HeadedBehind(s: Repo, sequence: int, f: Fact)
    requires Behind(s) && UpTo(s, sequence)
    ensures Behind(WithHead(s, sequence, f)) && UpTo(WithHead(s, sequence, f), sequence)
  {
    var t := WithHead(s, sequence, f);
    forall ref ensures PointerBehind(t, ref) { assert PointerBehind(s, ref); }
    forall id ensures EntryBehind(t, id) { assert EntryBehind(s, id); }
  }

  lemma RetainedForm(s: Repo, sequence: int, f: PinFact, input: PinInput)
    ensures var t := RetainStep(s, sequence, f, input);
            && t.heads == s.heads && t.journal == s.journal
            && (|| t.currents == s.currents
                || t.currents == s.currents[f.ref := Current(f.ref, f.commitSha, sequence, input.materializedAt)])
  {}

  lemma RetainedBehind(s: Repo, sequence: int, f: Fact, pin: PinInput)
    requires Behind(s) && UpTo(s, sequence) && f.ref in s.heads && s.heads[f.ref].sequence == sequence
    ensures Behind(RetainStep(s, sequence, PinFactOf(f), pin))
            && UpTo(RetainStep(s, sequence, PinFactOf(f), pin), sequence)
  {
    var t := RetainStep(s, sequence, PinFactOf(f), pin);
    RetainedForm(s, sequence, PinFactOf(f), pin);
    forall ref ensures PointerBehind(t, ref) { assert PointerBehind(s, ref); }
    forall id ensures EntryBehind(t, id) { assert EntryBehind(s, id); }
  }

  lemma EnteredBehind(s: Repo, sequence: int, f: Fact, at: int)
    requires Behind(s) && UpTo(s, sequence) && f.ref in s.heads && s.heads[f.ref].sequence == sequence
    ensures Behind(WithEntry(s, sequence, f, at)) && UpTo(WithEntry(s, sequence, f, at), sequence)
  {
    var t := WithEntry(s, sequence, f, at);
    forall ref ensures PointerBehind(t, ref) { assert PointerBehind(s, ref); }
    forall id ensures EntryBehind(t, id) { assert EntryBehind(s, id); }
  }

  lemma RecordOneBehind(r: Recorded, sequence: int, f: Fact, at: int, journal: bool, pin: Option<PinInput>)
    requires Behind(r.state) && UpTo(r.state, sequence) && !r.threw
    ensures var t := RecordOne(r, sequence, f, at, journal, pin).state;
            Behind(t) && UpTo(t, sequence) && t.heads == WithHead(r.state, sequence, f).heads
  {
    var headed := WithHead(r.state, sequence, f);
    HeadedBehind(r.state, sequence, f);
    if PinsFact(pin, f) {
      RetainedForm(headed, sequence, PinFactOf(f), pin.value);
      RetainedBehind(headed, sequence, f, pin.value);
      EnteredBehind(RetainStep(headed, sequence, PinFactOf(f), pin.value), sequence, f, at);
    } else {
      EnteredBehind(headed, sequence, f, at);
    }
  }

  /** Each fact's ref ends with the fact as its head; other heads stay. */
  ghost predicate HeadsFrom(s: Repo, sequence: int, facts: seq<Fact>, t: Repo) {
    && (forall i :: 0 <= i < |facts| ==>
          && facts[i].ref in t.heads
          && t.heads[facts[i].ref] == Head(facts[i].ref, facts[i].beforeSha, facts[i].afterSha, sequence))
    && (forall ref :: (forall i :: 0 <= i < |facts| ==> facts[i].ref != ref) ==>
          (ref in t.heads <==> ref in s.heads) && (ref in s.heads ==> t.heads[ref] == s.heads[ref]))
  }

  lemma {:induction false} RecordAllBehind(s: Repo, sequence: int, facts: seq<Fact>, at: int, journal: bool,
                                           pin: Option<PinInput>)
    requires Behind(s) && UpTo(s, sequence) && DistinctRefs(facts)
    ensures var r := RecordAll(s, sequence, facts, at, journal, pin);
            !r.threw ==> Behind(r.state) && UpTo(r.state, sequence) && HeadsFrom(s, sequence, facts, r.state)
  {
    if facts != [] {
      var front, f := facts[..|facts| - 1], facts[|facts| - 1];
      RecordAllBehind(s, sequence, front, at, journal, pin);
      var r := RecordAll(s, sequence, front, at, journal, pin);
      if !r.threw {
        RecordOneBehind(r, sequence, f, at, journal, pin);
        HeadsFromMore(s, sequence, facts, r.state, RecordOne(r, sequence, f, at, journal, pin).state);
      }
    }
  }

  lemma HeadsFromMore(s: Repo, sequence: int, facts: seq<Fact>, t: Repo, u: Repo)
    requires facts != [] && DistinctRefs(facts) && HeadsFrom(s, sequence, facts[..|facts| - 1], t)
    requires u.heads == WithHead(t, sequence, facts[|facts| - 1]).heads
    ensures HeadsFrom(s, sequence, facts, u)
  {
    var front, f := facts[..|facts| - 1], facts[|facts| - 1];
    forall i | 0 <= i < |facts|
      ensures facts[i].ref in u.heads
              && u.heads[facts[i].ref] == Head(facts[i].ref, facts[i].beforeSha, facts[i].afterSha, sequence)
    {
      if i < |front| { assert front[i] == facts[i] && facts[i].ref != f.ref; }
    }
    forall ref | forall i :: 0 <= i < |facts| ==> facts[i].ref != ref
      ensures (ref in u.heads <==> ref in s.heads) && (ref in s.heads ==> u.heads[ref] == s.heads[ref])
    {
      assert f.ref != ref;
      forall i | 0 <= i < |front| ensures front[i].ref != ref { assert facts[i].ref != ref; }
    }
  }

  /** A ref an honest push does not change keeps its value. */
  lemma UnchangedKeepsValue(s: Repo, p: Push, ref: string)
    requires PushApplies(s, p) && HonestPush(s, p) && NamedOnce(s.refs) && !Changes(p.commands, ref)
    ensures Authoritative(Landing(s, p).refs, ref) == Authoritative(s.refs, ref)
  {
    if s.refsVersion == p.expectedVersion {
      PushedAuthority(s.refs, p.commands, ref);
      AsMapAuthority(s.refs, ref);
    }
  }

  lemma LandedHeadIsCurrent(s: Repo, p: Push, t: Repo, ref: string)
    requires PushApplies(s, p) && HonestPush(s, p) && NamedOnce(s.refs) && HeadIsCurrent(s, ref)
    requires t.refs == Landing(s, p).refs && HeadsFrom(s, p.expectedVersion + 1, p.facts, t)
    ensures HeadIsCurrent(t, ref)
  {
    if Changes(p.commands, ref) {
      var i :| 0 <= i < |p.facts| && p.facts[i].ref == ref;
      assert FactOf(p.commands, p.facts[i]);
      PushedAuthority(s.refs, p.commands, ref);
    } else {
      UnchangedKeepsValue(s, p, ref);
      forall i | 0 <= i < |p.facts| ensures p.facts[i].ref != ref { assert FactOf(p.commands, p.facts[i]); }
    }
  }

  lemma AcceptLeads(s: Repo, past: seq<seq<Ref>>, p: Push)
    requires Truthful(s, past) && Led(s) && HonestPush(s, p)
    ensures Led(AcceptStep(s, p))
  {
    if PushApplies(s, p) && !AcceptRecorded(s, p).threw {
      var landing, sequence := Landing(s, p), p.expectedVersion + 1;
      TruthfulUpTo(s, past);
      LandingBehind(s, p);
      RecordAllBehind(landing, sequence, p.facts, p.acceptedAt, p.journal, p.pin);
      RecordAllKeepsRefs(landing, sequence, p.facts, p.acceptedAt, p.journal, p.pin);
      var t := RecordAll(landing, sequence, p.facts, p.acceptedAt, p.journal, p.pin).state;
      PushNamesOnce(s.refs, p.commands);
      RecordedLeads(s, p, t);
    }
  }

  lemma LandingBehind(s: Repo, p: Push)
    requires Led(s) && UpTo(s, s.refsVersion) && PushApplies(s, p)
    ensures Behind(Landing(s, p)) && UpTo(Landing(s, p), p.expectedVersion + 1)
  {
    forall ref ensures PointerBehind(Landing(s, p), ref) { assert PointerBehind(s, ref); }
    forall id ensures EntryBehind(Landing(s, p), id) { assert EntryBehind(s, id); }
  }

  lemma SameHeadsFrom(s: Repo, p: Push, t: Repo)
    requires HeadsFrom(Landing(s, p), p.expectedVersion + 1, p.facts, t)
    ensures HeadsFrom(s, p.expectedVersion + 1, p.facts, t)
  {}

  lemma AcceptedIs(s: Repo, p: Push, t: Repo)
    requires PushApplies(s, p) && !AcceptRecorded(s, p).threw
    requires t == RecordAll(Landing(s, p), p.expectedVersion + 1, p.facts, p.acceptedAt, p.journal, p.pin).state
    ensures AcceptStep(s, p) == t
  {}

  lemma RecordedLeads(s: Repo, p: Push, t: Repo)
    requires Led(s) && HonestPush(s, p) && PushApplies(s, p) && !AcceptRecorded(s, p).threw
    requires t == RecordAll(Landing(s, p), p.expectedVersion + 1, p.facts, p.acceptedAt, p.journal, p.pin).state
    requires t.refs == Landing(s, p).refs && NamedOnce(t.refs)
    requires Behind(t) && HeadsFrom(Landing(s, p), p.expectedVersion + 1, p.facts, t)
    ensures Led(AcceptStep(s, p))
  {
    SameHeadsFrom(s, p, t);
    forall ref ensures HeadIsCurrent(t, ref) {
      assert HeadIsCurrent(s, ref);
      LandedHeadIsCurrent(s, p, t, ref);
    }
    assert Led(t);
    AcceptedIs(s, p, t);
  }

  // ---------- The other steps ----------

  /** Heads and refs stay; pointers may move to an entry or to the head. */
  lemma MovedLeads(s: Repo, t: Repo)
    requires Led(s) && t.refs == s.refs && t.heads == s.heads
    requires forall ref :: PointerBehind(t, ref)
    requires forall id :: id in t.journal ==> id in s.journal
    ensures Led(t)
  {
    forall ref ensures HeadIsCurrent(t, ref) { assert HeadIsCurrent(s, ref); }
    forall id ensures EntryBehind(t, id) { assert EntryBehind(s, id); }
  }

  lemma ProjectLeads(s: Repo, past: seq<seq<Ref>>, d: Delivery)
    requires Truthful(s, past) && Led(s)
    ensures Led(Deliver1(s, d))
  {
    var t := Deliver1(s, d);
    DeliveryEffect(s, past, d);
    forall ref ensures PointerBehind(t, ref) {
      assert PointerBehind(s, ref) && EntryBehind(s, d.id);
    }
    forall id | id in t.journal ensures id in s.journal { assert SameEntry(s, t, id); }
    MovedLeads(s, t);
  }

  lemma ReconcileForm(s: Repo, ref: string, commitSha: string, sequence: int, snap: Snapshot)
    ensures var t := ReconcileStep(s, ref, commitSha, sequence, snap);
            && t.refs == s.refs && t.heads == s.heads && t.journal == s.journal
            && (t.currents == s.currents ||
                (sequence == PlanSequence(s, ref) && t.currents == Pointed(s, ref, commitSha, sequence, snap.at)))
  {
    InstallTouchesPinsOnly(s, sequence, ReconcileFact(ref, commitSha), snap);
    if ReconcileOutcome(s, ref, commitSha, sequence, snap).Projected? {
      ReconcileEffect(s, ref, commitSha, sequence, snap);
    }
  }

  lemma ReconcileLeads(s: Repo, ref: string, commitSha: string, sequence: int, snap: Snapshot)
    requires Led(s)
    ensures Led(ReconcileStep(s, ref, commitSha, sequence, snap))
  {
    var t := ReconcileStep(s, ref, commitSha, sequence, snap);
    ReconcileForm(s, ref, commitSha, sequence, snap);
    forall other ensures PointerBehind(t, other) {
      assert PointerBehind(s, other) && HeadIsCurrent(s, ref);
    }
    MovedLeads(s, t);
  }

  lemma StepLeads(s: Repo, past: seq<seq<Ref>>, e: Event)
    requires Truthful(s, past) && Led(s) && !e.SetRefs? && (e.Accept? ==> HonestPush(s, e.push))
    ensures Led(Step(s, e))
  {
    match e
    case Accept(push) => AcceptLeads(s, past, push);
    case Project(id, commitSha, snap) => ProjectLeads(s, past, Delivery(id, commitSha, snap));
    case ReconcileHead(ref, headSha, sequence, headSnap) => ReconcileLeads(s, ref, headSha, sequence, headSnap);
    case _ => OtherLeads(s, e);
  }

  lemma OtherLeads(s: Repo, e: Event)
    requires Led(s) && (e.ReleasePin? || e.DropEntry? || e.SetLeases? || e.BeginDeletion?)
    ensures Led(Step(s, e))
  {
    var t := Step(s, e);
    forall ref ensures PointerBehind(t, ref) { assert PointerBehind(s, ref); }
    MovedLeads(s, t);
  }

  lemma {:induction false} PushOnlyRunsLead(es: seq<Event>)
    requires PushOnly(EMPTY_REPO, es)
    ensures Led(Run(EMPTY_REPO, es))
  {
    if es == [] {
      assert NamedOnce(EMPTY_REPO.refs);
    } else {
      var front := es[..|es| - 1];
      PushOnlyRunsLead(front);
      PushOnlyFits(EMPTY_REPO, front);
      RunsStayTruthful(front);
      StepLeads(Run(EMPTY_REPO, front), History(front), es[|es| - 1]);
    }
  }

  /** While refs move by pushes alone, every plan that is carried out leaves its
      ref up to date. */
  lemma PushOnlyRunsConverge(es: seq<Event>, ref: string, snap: Snapshot)
    requires PushOnly(EMPTY_REPO, es)
    requires var plan := PlanFor(Run(EMPTY_REPO, es), ref); plan.Deliver? || plan.HeadOnly?
    requires CarryOutcome(Run(EMPTY_REPO, es), PlanFor(Run(EMPTY_REPO, es), ref), snap).Projected?
    ensures var s := Run(EMPTY_REPO, es); PlanFor(CarryOut(s, PlanFor(s, ref), snap), ref).UpToDate?
  {
    PushOnlyFits(EMPTY_REPO, es);
    RunsStayTruthful(es);
    PushOnlyRunsLead(es);
    assert PointerBehind(Run(EMPTY_REPO, es), ref);
    ReconciliationConverges(Run(EMPTY_REPO, es), History(es), ref, snap);
  }
}
