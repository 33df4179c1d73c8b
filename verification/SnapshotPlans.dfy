/** What the reconcile planner answers, over the stored fields and over whole runs. */
module SnapshotPlans {
  import opened Commands
  import opened NetFacts
  import opened Options
  import opened RefList
  import opened SnapshotEffects
  import opened SnapshotProjection
  import opened SnapshotRuns
  import opened SnapshotState
  import opened SnapshotStore
  import opened ProjectionEffects

  // ---------- One plan ----------

  /** The sequence a ref's value carries: its head's while the head has that value,
      else the version of the ref list. */
  predicate ValueSequence(s: Repo, ref: string, sequence: int) {
    if ref in s.heads && s.heads[ref].afterSha == Authoritative(s.refs, ref)
    then sequence == s.heads[ref].sequence else sequence == s.refsVersion
  }

  /** The ref's pointer is at this commit and sequence. */
  predicate PointerAt(s: Repo, ref: string, commitSha: string, sequence: int) {
    ref in s.currents && s.currents[ref].commitSha == commitSha && s.currents[ref].sequence == sequence
  }

  predicate EntryFor(e: Entry, ref: string, afterSha: string, sequence: int) {
    e.sequence == sequence && e.fact.ref == ref && e.fact.afterSha == afterSha
  }

  /** The plan is decided by the ref's value, its head, its pointer and the journal.
      A ref that has a head, deleted or not, and whose pointer is elsewhere is
      delivered or, for want of an entry anywhere in the journal, projected as found. */
  lemma PlanIff(s: Repo, ref: string, sequence: int)
    requires Keyed(s) && ValueSequence(s, ref, sequence)
    ensures var plan, value := PlanFor(s, ref), Authoritative(s.refs, ref);
            && (plan.Unborn? <==> ref !in s.heads && value == ZERO_OID)
            && (plan.UpToDate? <==> !plan.Unborn? && PointerAt(s, ref, value, sequence))
            && (plan.Deliver? <==>
                  && !plan.Unborn? && !PointerAt(s, ref, value, sequence)
                  && exists id :: id in s.journal && EntryFor(s.journal[id], ref, value, sequence))
            && (plan.Unborn? ==> plan.unbornRef == ref)
            && (plan.UpToDate? ==> plan.current == s.currents[ref])
            && (plan.Deliver? ==> plan.entry in s.journal.Values && EntryFor(plan.entry, ref, value, sequence))
            && (plan.HeadOnly? ==>
                  plan == HeadOnly(ref, value, sequence,
                                   if ref in s.currents then s.currents[ref].commitSha else ZERO_OID))
  {
    if id :| id in s.journal && EntryFor(s.journal[id], ref, Authoritative(s.refs, ref), sequence) {
      assert id == JournalId(sequence, ref);
    }
  }

  // ---------- Heads over runs ----------

  /** The event is a push that commits with a fact for this ref. */
  ghost predicate AcceptsFor(s: Repo, e: Event, ref: string) {
    e.Accept? && Commits(s, e.push) && NamesRef(e.push.facts, ref)
  }

  /** Only an accepted fact makes a head, and nothing removes one. */
  lemma HeadAfter(s: Repo, e: Event, ref: string)
    ensures ref in Step(s, e).heads <==> ref in s.heads || AcceptsFor(s, e, ref)
  {
    if e.Accept? {
      if Commits(s, e.push) { PushIsRecorded(s, e.push, ref, -1); }
    } else {
      OtherEventsKeepHeads(s, e);
    }
  }

  lemma OtherEventsKeepHeads(s: Repo, e: Event)
    requires !e.Accept?
    ensures Step(s, e).heads == s.heads
  {
    match e
    case Project(id, commitSha, snap) =>
      if ProjectOutcome(s, id, commitSha, snap).Projected? {
        DeliveryLeaves(s, id, commitSha, snap);
      } else {
        DeliveryRefusalLeaves(s, id, commitSha, snap);
      }
    case ReconcileHead(ref, commitSha, sequence, snap) =>
      if ReconcileOutcome(s, ref, commitSha, sequence, snap).Projected? {
        HeadLeaves(s, ref, commitSha, sequence, snap);
      } else {
        HeadRefusalLeaves(s, ref, commitSha, sequence, snap);
      }
    case _ =>
  }

  /** The run's event number `i` does so. */
  ghost predicate AcceptedAt(es: seq<Event>, ref: string, i: int) {
    0 <= i < |es| && AcceptsFor(Run(EMPTY_REPO, es[..i]), es[i], ref)
  }

  lemma HeadAfterLast(es: seq<Event>, ref: string)
    requires es != []
    ensures ref in Run(EMPTY_REPO, es).heads <==>
            ref in Run(EMPTY_REPO, es[..|es| - 1]).heads || AcceptedAt(es, ref, |es| - 1)
  {
    HeadAfter(Run(EMPTY_REPO, es[..|es| - 1]), es[|es| - 1], ref);
  }

  lemma {:induction false} AcceptedMakesHead(es: seq<Event>, ref: string, i: int)
    requires AcceptedAt(es, ref, i)
    ensures ref in Run(EMPTY_REPO, es).heads
  {
    HeadAfterLast(es, ref);
    if i < |es| - 1 {
      assert es[..|es| - 1][..i] == es[..i];
      AcceptedMakesHead(es[..|es| - 1], ref, i);
    }
  }

  lemma {:induction false} HeadWasAccepted(es: seq<Event>, ref: string) returns (i: int)
    requires ref in Run(EMPTY_REPO, es).heads
    ensures AcceptedAt(es, ref, i)
  {
    HeadAfterLast(es, ref);
    if AcceptedAt(es, ref, |es| - 1) { return |es| - 1; }
    i := HeadWasAccepted(es[..|es| - 1], ref);
    assert es[..|es| - 1][..i] == es[..i];
  }

  /** Over a run, a ref has a head exactly when some push with a fact for it was
      accepted. */
  lemma HeadIffAccepted(es: seq<Event>, ref: string)
    ensures ref in Run(EMPTY_REPO, es).heads <==> exists i :: AcceptedAt(es, ref, i)
  {
    if i :| AcceptedAt(es, ref, i) {
      AcceptedMakesHead(es, ref, i);
    } else if ref in Run(EMPTY_REPO, es).heads {
      var i := HeadWasAccepted(es, ref);
    }
  }

  /** A ref is planned as unborn exactly when it has no value and no push ever had
      a fact accepted for it. */
  lemma UnbornIffNeverAccepted(es: seq<Event>, ref: string)
    ensures PlanFor(Run(EMPTY_REPO, es), ref).Unborn? <==>
            Authoritative(Run(EMPTY_REPO, es).refs, ref) == ZERO_OID && !exists i :: AcceptedAt(es, ref, i)
  {
    HeadIffAccepted(es, ref);
  }

  /** So in every run a deleted ref whose deletion was accepted, and whose pointer
      is still at a commit, is planned for repair, and a repair that lands takes
      the pointer to the deletion. */
  lemma DeletionIsRepaired(es: seq<Event>, ref: string, i: int, snap: Snapshot)
    requires AllFitting(es) && AcceptedAt(es, ref, i)
    requires var s := Run(EMPTY_REPO, es);
             && Authoritative(s.refs, ref) == ZERO_OID && !s.deleting
             && ref in s.currents && s.currents[ref].commitSha != ZERO_OID && !Overtaken(s, ref)
    ensures var s := Run(EMPTY_REPO, es);
            var t := CarryOut(s, PlanFor(s, ref), snap);
            && (PlanFor(s, ref).Deliver? || PlanFor(s, ref).HeadOnly?)
            && ref in t.currents && t.currents[ref].commitSha == ZERO_OID
            && PlanFor(t, ref).UpToDate?
  {
    var s, past := Run(EMPTY_REPO, es), History(es);
    RunsStayTruthful(es);
    PinExcludesTombstone(es);
    HeadIffAccepted(es, ref);
    PlanIff(s, ref, PlanSequence(s, ref));
    PlanSucceedsIffInstallable(s, past, ref, snap);
    PlanEffect(s, past, ref, snap);
    ReconciliationConverges(s, past, ref, snap);
    OvertakenIff(s, past, ref);
    FreshSequenceIsTrue(s, past, ref);
  }
}
