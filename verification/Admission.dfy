/** When the host admits an execution, told by the events alone, and what its
    actions achieve when they are not cut short. */
module Admission {
  import opened Options
  import opened Execution
  import opened ProcessorHost

  // ---------- Who is admitted ----------

  /** The event settles this execution's slot: it finished, was stopped, or was
      revoked by a deletion. */
  predicate Closes(e: Event, identity: Identity) {
    match e
    case Finish(x, phases) => x == identity && phases >= 1
    case Stop(x, phases) => x == identity && phases >= 1
    case Delete(phases) => phases >= 2
    case _ => false
  }

  predicate StopRecordedBy(e: Event) {
    e.Stop? && e.phases >= 1
  }

  predicate DeletionFencedBy(e: Event) {
    e.Delete? && e.phases >= 1
  }

  predicate ActiveSlot(s: HostState, identity: Identity) {
    s.slot == Some(SlotRecord(identity, Active, 0))
  }

  lemma ActiveUntilClosed(s: HostState, e: Event, identity: Identity)
    requires ActiveSlot(s, identity)
    ensures !Admits(s, e)
    ensures !Closes(e, identity) ==> ActiveSlot(Step(s, e), identity)
    ensures Closes(e, identity) ==> Step(s, e).slot.Some? && !Step(s, e).slot.value.state.Active?
  {}

  lemma BecomesActive(s: HostState, e: Event, identity: Identity)
    requires Step(s, e).slot.Some? && Step(s, e).slot.value.state.Active? && Step(s, e).slot.value.identity == identity
    requires !(Admits(s, e) && e.identity == identity)
    ensures s.slot.Some? && s.slot.value.state.Active? && s.slot.value.identity == identity && !Closes(e, identity)
  {}

  lemma AdmissionActivates(s: HostState, e: Event)
    requires Admits(s, e)
    ensures ActiveSlot(Step(s, e), e.identity)
  {}

  /** An admitted execution keeps the slot until it is settled. */
  lemma {:induction false} ActiveThroughout(states: seq<HostState>, events: seq<Event>, i: nat, j: nat)
    requires IsRun(states, events) && i < j < |states| && Admits(states[i], events[i])
    requires forall k :: i < k < j ==> !Closes(events[k], events[i].identity)
    ensures ActiveSlot(states[j], events[i].identity)
    decreases j
  {
    if i + 1 < j {
      ActiveThroughout(states, events, i, j - 1);
      ActiveUntilClosed(states[j - 1], events[j - 1], events[i].identity);
    } else {
      AdmissionActivates(states[i], events[i]);
    }
  }

  /** An active slot was admitted, and has not been settled since. */
  lemma {:induction false} ActiveWasAdmitted(states: seq<HostState>, events: seq<Event>, j: nat) returns (i: nat)
    requires IsRun(states, events) && j < |states|
    requires states[j].slot.Some? && states[j].slot.value.state.Active?
    ensures i < j && Admits(states[i], events[i]) && events[i].identity == states[j].slot.value.identity
    ensures forall k :: i < k < j ==> !Closes(events[k], events[i].identity)
  {
    var s, e, identity := states[j - 1], events[j - 1], states[j].slot.value.identity;
    assert states[j] == Step(s, e);
    if Admits(s, e) && e.identity == identity { return j - 1; }
    BecomesActive(s, e, identity);
    i := ActiveWasAdmitted(states, events, j - 1);
  }

  /** Whatever the slot holds was admitted, or stopped before it could start. */
  lemma {:induction false} SlotCameFrom(states: seq<HostState>, events: seq<Event>, j: nat) returns (i: nat)
    requires IsRun(states, events) && j < |states| && states[j].slot.Some?
    ensures i < j && (Admits(states[i], events[i]) || StopRecordedBy(events[i]))
    ensures events[i].identity == states[j].slot.value.identity
  {
    var s, e := states[j - 1], events[j - 1];
    if (Admits(s, e) || StopRecordedBy(e)) && e.identity == states[j].slot.value.identity { return j - 1; }
    SameSlot(s, e);
    i := SlotCameFrom(states, events, j - 1);
  }

  lemma SameSlot(s: HostState, e: Event)
    requires Step(s, e).slot.Some?
    requires !((Admits(s, e) || StopRecordedBy(e)) && e.identity == Step(s, e).slot.value.identity)
    ensures s.slot.Some? && s.slot.value.identity == Step(s, e).slot.value.identity
  {}

  /** The fence stands where some recorded stop put it. */
  lemma {:induction false} FenceCameFrom(states: seq<HostState>, events: seq<Event>, j: nat) returns (i: nat)
    requires IsRun(states, events) && j < |states| && states[j].revokedThrough > 0
    ensures i < j && StopRecordedBy(events[i]) && events[i].identity.generation == states[j].revokedThrough
  {
    var s, e := states[j - 1], events[j - 1];
    if StopRecordedBy(e) && e.identity.generation == states[j].revokedThrough { return j - 1; }
    assert states[j] == Step(s, e);
    i := FenceCameFrom(states, events, j - 1);
  }

  lemma {:induction false} FenceIsNotNegative(states: seq<HostState>, events: seq<Event>, j: nat)
    requires IsRun(states, events) && j < |states|
    ensures states[j].revokedThrough >= 0
  {
    if j > 0 {
      FenceIsNotNegative(states, events, j - 1);
      assert states[j] == Step(states[j - 1], events[j - 1]);
    }
  }

  lemma {:induction false} DeletingCameFrom(states: seq<HostState>, events: seq<Event>, j: nat) returns (i: nat)
    requires IsRun(states, events) && j < |states| && states[j].deleting
    ensures i < j && DeletionFencedBy(events[i])
  {
    if DeletionFencedBy(events[j - 1]) { return j - 1; }
    assert states[j] == Step(states[j - 1], events[j - 1]);
    i := DeletingCameFrom(states, events, j - 1);
  }

  /** No deletion has been fenced, every stop recorded and every execution admitted
      so far was of a lesser generation, and those admitted have been settled. */
  ghost predicate WayIsClear(states: seq<HostState>, events: seq<Event>, j: nat, generation: int)
    requires IsRun(states, events) && j <= |events|
  {
    && (forall i :: 0 <= i < j ==> !DeletionFencedBy(events[i]))
    && (forall i :: 0 <= i < j && StopRecordedBy(events[i]) ==> events[i].identity.generation < generation)
    && (forall i :: 0 <= i < j && Admits(states[i], events[i]) ==>
          events[i].identity.generation < generation && SettledBy(events, i, j))
  }

  ghost predicate SettledBy(events: seq<Event>, i: int, j: nat)
    requires 0 <= i < j <= |events| && events[i].Start?
  {
    exists k :: i < k < j && Closes(events[k], events[i].identity)
  }

  /** Over any run, crashes included, a start that gets as far as its admission is
      admitted exactly when it has not expired and the way is clear. In particular
      a finish, like a stop of the very execution, lets a successor in. */
  lemma AdmittedIff(states: seq<HostState>, events: seq<Event>, j: nat)
    requires IsRun(states, events) && j < |events| && events[j].Start? && events[j].phases >= 2
    ensures var e := events[j];
            Admits(states[j], e) <==>
            && e.now < e.identity.expiresAt && e.identity.generation > 0
            && WayIsClear(states, events, j, e.identity.generation)
  {
    if Admits(states[j], events[j]) { AdmittedOnlyWhenClear(states, events, j); }
    if WayIsClear(states, events, j, events[j].identity.generation) { ClearMeansNoFence(states, events, j); }
  }

  lemma AdmittedOnlyWhenClear(states: seq<HostState>, events: seq<Event>, j: nat)
    requires IsRun(states, events) && j < |events| && Admits(states[j], events[j])
    ensures events[j].now < events[j].identity.expiresAt && events[j].identity.generation > 0
    ensures WayIsClear(states, events, j, events[j].identity.generation)
  {
    FenceIsNotNegative(states, events, j);
    var generation := events[j].identity.generation;
    forall i | 0 <= i < j ensures !DeletionFencedBy(events[i]) {
      if DeletionFencedBy(events[i]) { DeletedAdmitsNothing(states, events, i, j); }
    }
    forall i | 0 <= i < j && StopRecordedBy(events[i]) ensures events[i].identity.generation < generation {
      StopFences(states[i], events[i]);
      FencedForever(states, events, i + 1, j, events[i].identity.generation);
      if generation <= events[i].identity.generation {
        FencedRefuses(states[j], events[j], events[i].identity.generation);
      }
    }
    forall i | 0 <= i < j && Admits(states[i], events[i])
      ensures events[i].identity.generation < generation && SettledBy(events, i, j)
    {
      AdmittedGenerationsIncrease(states, events, i, j);
      if !SettledBy(events, i, j) {
        ActiveThroughout(states, events, i, j);
        ActiveUntilClosed(states[j], events[j], events[i].identity);
      }
    }
  }

  lemma ClearMeansNoFence(states: seq<HostState>, events: seq<Event>, j: nat)
    requires IsRun(states, events) && j < |events| && events[j].Start?
    requires WayIsClear(states, events, j, events[j].identity.generation)
    ensures !states[j].deleting
    ensures states[j].revokedThrough <= 0 || states[j].revokedThrough < events[j].identity.generation
    ensures states[j].slot.Some? ==>
              states[j].slot.value.identity.generation < events[j].identity.generation
              && !states[j].slot.value.state.Active?
  {
    if states[j].deleting { var i := DeletingCameFrom(states, events, j); }
    if states[j].revokedThrough > 0 { var i := FenceCameFrom(states, events, j); }
    if states[j].slot.Some? {
      var i := SlotCameFrom(states, events, j);
      if states[j].slot.value.state.Active? {
        var k := ActiveWasAdmitted(states, events, j);
      }
    }
  }

  // ---------- What the actions achieve ----------

  /** An admitted start runs in a container that no revoked execution is left in;
      configured, it is bound to it, its abort signal not raised; failed, it keeps
      the slot and its signal is raised. Maintenance sets its expiry alarm. */
  lemma StartAchieves(s: HostState, e: Event)
    requires Admits(s, e) && e.phases >= 4
    ensures var t, g := Step(s, e), e.identity.generation;
            var left := if s.slot.Some? && s.slot.value.state.Revoked? && s.running then {} else s.tenants;
            && ActiveSlot(t, e.identity)
            && t.alarm == (if e.identity.lane.Maintenance? then Some(e.identity.expiresAt) else s.alarm)
            && t.revokedThrough == s.revokedThrough && !t.deleting
            && (e.outcome.Configured? ==> t.running && t.tenants == left + {g} && t.aborts == s.aborts[g := false])
            && (e.outcome.Threw? ==>
                  t.tenants == (if e.outcome.touched then left + {g} else left) && t.aborts == s.aborts[g := true])
            && (e.outcome.Interrupted? ==>
                  t.tenants == (if e.outcome.touched then left + {g} else left) && t.aborts == map[])
  {
    assert s.aborts[e.identity.generation := false][e.identity.generation := true]
        == s.aborts[e.identity.generation := true];
  }

  /** A refused start changes nothing, except that it too clears away a container
      left over from a revoked execution. */
  lemma RefusedStartAchieves(s: HostState, e: Event)
    requires e.Start? && e.phases >= 2 && !Admits(s, e)
    ensures var t := Step(s, e);
            if s.slot.Some? && s.slot.value.state.Revoked? && s.running
            then t == s.(running := false, tenants := {}) else t == s
  {}

  /** A finish completes its own active execution and forgets its signal. */
  lemma FinishAchieves(s: HostState, identity: Identity, phases: nat)
    requires phases >= 1
    ensures var t := Step(s, Finish(identity, phases));
            && t == s.(slot := t.slot, aborts := s.aborts - {identity.generation})
            && (ActiveSlot(s, identity) ==> t.slot == Some(SlotRecord(identity, Completed, 0)))
            && (!(s.slot.Some? && s.slot.value.state.Active? && s.slot.value.identity == identity) ==> t.slot == s.slot)
  {}

  /** A stop for the execution in the slot, or for an empty slot, leaves it revoked,
      fenced, and no container; for a later execution it only raises the fence; for
      any other it does nothing. */
  lemma StopAchieves(s: HostState, identity: Identity, phases: nat)
    requires phases >= 2
    ensures var t := Step(s, Stop(identity, phases));
            var fence := if s.revokedThrough < identity.generation then identity.generation else s.revokedThrough;
            if s.slot.None? || s.slot.value.identity == identity then
              && t.slot == Some(SlotRecord(identity, Revoked, 0)) && t.revokedThrough == fence
              && !t.running && (TenantsKnown(s) ==> t.tenants == {})
              && identity.generation !in t.aborts && t.deleting == s.deleting && t.alarm == s.alarm
            else if s.slot.value.identity.generation < identity.generation then t == s.(revokedThrough := fence)
            else t == s
  {}

  /** A deletion leaves the fence, no active slot, no container, and the running
      execution's signal raised. */
  lemma DeleteAchieves(s: HostState, phases: nat)
    requires phases >= 3
    ensures var t := Step(s, Delete(phases));
            && t.deleting && !t.running && (TenantsKnown(s) ==> t.tenants == {})
            && (s.slot.None? ==> t.slot.None?)
            && (s.slot.Some? ==> t.slot == Some(s.slot.value.(state := Revoked)))
            && (s.slot.Some? && s.slot.value.identity.generation in s.aborts ==>
                  t.aborts == s.aborts[s.slot.value.identity.generation := true])
            && t.revokedThrough == s.revokedThrough && t.alarm == s.alarm
  {}
}
