/** Coordinator and hosts together, joined by a network that may delay, repeat
    and reorder what they send each other. */
module Fencing {
  import opened Execution
  import C = Coordinator
  import H = ProcessorHost

  /** `started` holds every start ever sent; nothing is ever removed, so a start
      can be delivered late and often. `stopped` holds the stops and `deleted` the
      deletions whose completion was reported back. */
  datatype System = System(
    coordinator: C.State,
    foreground: H.HostState,
    maintenance: H.HostState,
    started: set<Identity>,
    stopped: set<Identity>,
    deleted: set<Lane>)

  datatype Event =
    | Coordinate(event: C.Event)
    | DeliverStart(identity: Identity, hostNow: int, phases: nat, outcome: H.Configuration)
    | DeliverStop(identity: Identity, phases: nat)
    | DeliverDelete(lane: Lane, phases: nat)
    | HostFinish(lane: Lane, identity: Identity, phases: nat)
    | HostExit(lane: Lane)

  ghost function Host(s: System, lane: Lane): H.HostState {
    match lane
    case Foreground => s.foreground
    case Maintenance => s.maintenance
  }

  /** A stop is acknowledged only after its host reported it, or after the
      repository's deletion went through on that host. */
  ghost predicate Enabled(s: System, e: Event) {
    match e
    case Coordinate(event) =>
      event.AcknowledgeStop? ==> event.identity in s.stopped || event.identity.lane in s.deleted
    case DeliverStart(identity, _, _, _) => identity in s.started
    case _ => true
  }

  ghost function HostStep(s: System, lane: Lane, e: H.Event): System {
    match lane
    case Foreground => s.(foreground := H.Step(s.foreground, e))
    case Maintenance => s.(maintenance := H.Step(s.maintenance, e))
  }

  ghost function Step(s: System, e: Event): System {
    match e
    case Coordinate(event) =>
      s.(coordinator := C.Step(s.coordinator, event),
         started := s.started + if C.Issues(s.coordinator, event) then {C.IssuedBy(s.coordinator, event)} else {})
    case DeliverStart(identity, hostNow, phases, outcome) =>
      HostStep(s, identity.lane, H.Start(identity, hostNow, phases, outcome))
    case DeliverStop(identity, phases) =>
      var t := HostStep(s, identity.lane, H.Stop(identity, phases));
      t.(stopped := s.stopped + if phases >= 2 then {identity} else {})
    case DeliverDelete(lane, phases) =>
      var t := HostStep(s, lane, H.Delete(phases));
      t.(deleted := s.deleted + if phases >= 3 then {lane} else {})
    case HostFinish(lane, identity, phases) => HostStep(s, lane, H.Finish(identity, phases))
    case HostExit(lane) => HostStep(s, lane, H.ContainerExit)
  }

  ghost predicate Start(s: System) {
    && C.Initial(s.coordinator)
    && s.foreground == H.FRESH_HOST && s.maintenance == H.FRESH_HOST
    && s.started == {} && s.stopped == {} && s.deleted == {}
  }

  ghost predicate IsRun(states: seq<System>, events: seq<Event>) {
    && |states| == |events| + 1
    && Start(states[0])
    && forall i :: 0 <= i < |events| ==>
         Enabled(states[i], events[i]) && states[i + 1] == Step(states[i], events[i])
  }

  // ---------- What a reported stop means at its host ----------

  /** The host will not admit `identity` again, does not show it as active, and
      no process of its generation is bound to the container. */
  ghost predicate Dead(h: H.HostState, identity: Identity) {
    && (h.deleting || H.Fenced(h, identity.generation))
    && !(h.slot.Some? && h.slot.value.state.Active? && h.slot.value.identity == identity)
    && identity.generation !in h.tenants
  }

  lemma DeadStays(h: H.HostState, e: H.Event, identity: Identity)
    requires Dead(h, identity)
    ensures Dead(H.Step(h, e), identity)
  {
    if H.Fenced(h, identity.generation) { H.FencedStays(h, e, identity.generation); }
    NotRehoused(h, e, identity);
    NotRevived(h, e, identity);
  }

  lemma NotRehoused(h: H.HostState, e: H.Event, identity: Identity)
    requires Dead(h, identity)
    ensures identity.generation !in H.Step(h, e).tenants
  {}

  lemma NotRevived(h: H.HostState, e: H.Event, identity: Identity)
    requires Dead(h, identity)
    ensures var slot := H.Step(h, e).slot; !(slot.Some? && slot.value.state.Active? && slot.value.identity == identity)
  {}

  /** Processes in the container were started under a slot that the coordinator
      issued for this lane. */
  ghost predicate Tenanted(started: set<Identity>, h: H.HostState, lane: Lane) {
    && H.TenantsKnown(h)
    && (h.tenants != {} ==> h.slot.Some? && h.slot.value.identity in started && h.slot.value.identity.lane == lane)
  }

  lemma TenantedStays(started: set<Identity>, h: H.HostState, lane: Lane, e: H.Event)
    requires Tenanted(started, h, lane) && (e.Start? ==> e.identity in started && e.identity.lane == lane)
    ensures Tenanted(started, H.Step(h, e), lane)
  {
    H.TenantsKnownStays(h, e);
  }

  /** Another execution was issued for the same lane, no earlier than this one. */
  ghost predicate Rivalled(started: set<Identity>, identity: Identity) {
    exists other :: other in started && other.lane == identity.lane && other.generation >= identity.generation
        && other != identity
  }

  /** A stop that was reported has retired its execution, unless the slot already
      belonged to a rival. */
  lemma ReportedStopKills(started: set<Identity>, h: H.HostState, identity: Identity, phases: nat)
    requires phases >= 2 && Tenanted(started, h, identity.lane)
    ensures Dead(H.Step(h, H.Stop(identity, phases)), identity) || Rivalled(started, identity)
  {
    if h.tenants != {} && !H.StopKills(h, identity) && h.slot.value.identity.generation >= identity.generation {
      assert h.slot.value.identity in started;
    }
  }

  /** A host whose deletion went through refuses everything and runs nothing. */
  ghost predicate Closed(h: H.HostState) {
    h.deleting && !(h.slot.Some? && h.slot.value.state.Active?) && h.tenants == {}
  }

  lemma ClosedStays(h: H.HostState, e: H.Event)
    requires Closed(h)
    ensures Closed(H.Step(h, e))
  {}

  ghost predicate Housed(s: System) {
    forall lane :: Tenanted(s.started, Host(s, lane), lane)
  }

  ghost predicate Reported(s: System) {
    && (forall identity :: identity in s.stopped ==>
          Dead(Host(s, identity.lane), identity) || Rivalled(s.started, identity))
    && (forall lane :: lane in s.deleted ==> Closed(Host(s, lane)))
  }

  lemma HostStepKeepsReports(s: System, lane: Lane, e: H.Event)
    requires Reported(s)
    ensures Reported(HostStep(s, lane, e))
  {
    var t := HostStep(s, lane, e);
    forall identity | identity in s.stopped
      ensures Dead(Host(t, identity.lane), identity) || Rivalled(t.started, identity)
    {
      if Dead(Host(s, identity.lane), identity) { DeadStays(Host(s, identity.lane), e, identity); }
    }
    forall l | l in s.deleted ensures Closed(Host(t, l)) {
      ClosedStays(Host(s, l), e);
    }
  }

  lemma HostStepKeepsHoused(s: System, lane: Lane, e: H.Event)
    requires Housed(s) && (e.Start? ==> e.identity in s.started && e.identity.lane == lane)
    ensures Housed(HostStep(s, lane, e))
  {
    var t := HostStep(s, lane, e);
    forall l ensures Tenanted(t.started, Host(t, l), l) {
      assert Tenanted(s.started, Host(s, l), l);
      if l == lane { TenantedStays(s.started, Host(s, l), l, e); }
    }
  }

  lemma MoreStarted(s: System, event: C.Event)
    requires Reported(s) && Housed(s)
    ensures Reported(Step(s, Coordinate(event))) && Housed(Step(s, Coordinate(event)))
  {
    var t := Step(s, Coordinate(event));
    assert s.started <= t.started;
    forall identity | identity in s.stopped
      ensures Dead(Host(t, identity.lane), identity) || Rivalled(t.started, identity)
    {
      if Rivalled(s.started, identity) {
        var other :| other in s.started && other.lane == identity.lane && other.generation >= identity.generation
            && other != identity;
        assert other in t.started;
      }
    }
    forall l ensures Tenanted(t.started, Host(t, l), l) { assert Tenanted(s.started, Host(s, l), l); }
  }

  lemma SameHostsHoused(s: System, t: System)
    requires Housed(s) && t == s.(stopped := t.stopped, deleted := t.deleted)
    ensures Housed(t)
  {
    forall l ensures Tenanted(t.started, Host(t, l), l) { assert Tenanted(s.started, Host(s, l), l); }
  }

  lemma HousedStays(s: System, e: Event)
    requires Housed(s) && Reported(s) && Enabled(s, e)
    ensures Housed(Step(s, e))
  {
    match e
    case Coordinate(event) => MoreStarted(s, event);
    case DeliverStart(identity, hostNow, phases, outcome) =>
      HostStepKeepsHoused(s, identity.lane, H.Start(identity, hostNow, phases, outcome));
    case DeliverStop(identity, phases) =>
      HostStepKeepsHoused(s, identity.lane, H.Stop(identity, phases));
      SameHostsHoused(HostStep(s, identity.lane, H.Stop(identity, phases)), Step(s, e));
    case DeliverDelete(lane, phases) =>
      HostStepKeepsHoused(s, lane, H.Delete(phases));
      SameHostsHoused(HostStep(s, lane, H.Delete(phases)), Step(s, e));
    case HostFinish(lane, identity, phases) => HostStepKeepsHoused(s, lane, H.Finish(identity, phases));
    case HostExit(lane) => HostStepKeepsHoused(s, lane, H.ContainerExit);
  }

  lemma ReportsStay(s: System, e: Event)
    requires Reported(s) && Housed(s) && Enabled(s, e)
    ensures Reported(Step(s, e))
  {
    match e
    case Coordinate(event) => MoreStarted(s, event);
    case DeliverStart(identity, hostNow, phases, outcome) =>
      HostStepKeepsReports(s, identity.lane, H.Start(identity, hostNow, phases, outcome));
    case DeliverStop(identity, phases) =>
      HostStepKeepsReports(s, identity.lane, H.Stop(identity, phases));
      if phases >= 2 {
        assert Tenanted(s.started, Host(s, identity.lane), identity.lane);
        ReportedStopKills(s.started, Host(s, identity.lane), identity, phases);
      }
    case DeliverDelete(lane, phases) =>
      HostStepKeepsReports(s, lane, H.Delete(phases));
      assert Tenanted(s.started, Host(s, lane), lane);
    case HostFinish(lane, identity, phases) =>
      HostStepKeepsReports(s, lane, H.Finish(identity, phases));
    case HostExit(lane) =>
      HostStepKeepsReports(s, lane, H.ContainerExit);
  }

  lemma {:induction false} AlwaysReported(states: seq<System>, events: seq<Event>, i: nat)
    requires IsRun(states, events) && i < |states|
    ensures Reported(states[i]) && Housed(states[i])
  {
    if i > 0 {
      AlwaysReported(states, events, i - 1);
      ReportsStay(states[i - 1], events[i - 1]);
      HousedStays(states[i - 1], events[i - 1]);
    }
  }

  // ---------- The coordinator's share of a run ----------

  /** To the coordinator, host events are moments in which nothing happens. */
  ghost function CoordinatorEvent(e: Event): C.Event {
    if e.Coordinate? then e.event else C.Tick(0)
  }

  ghost function CoordinatorStates(states: seq<System>): seq<C.State> {
    seq(|states|, i requires 0 <= i < |states| => states[i].coordinator)
  }

  ghost function CoordinatorEvents(events: seq<Event>): seq<C.Event> {
    seq(|events|, i requires 0 <= i < |events| => CoordinatorEvent(events[i]))
  }

  lemma CoordinatorRun(states: seq<System>, events: seq<Event>)
    requires IsRun(states, events)
    ensures C.IsRun(CoordinatorStates(states), CoordinatorEvents(events))
  {
    var cs, ce := CoordinatorStates(states), CoordinatorEvents(events);
    forall i | 0 <= i < |ce| ensures cs[i + 1] == C.Step(cs[i], ce[i]) {
      assert states[i + 1] == Step(states[i], events[i]);
    }
  }

  // ---------- Fencing end to end ----------

  ghost predicate RevokedAt(states: seq<System>, events: seq<Event>, i: nat, identity: Identity)
    requires i < |events| < |states|
  {
    events[i] == Coordinate(C.Settle(identity, true)) && C.Settles(states[i].coordinator, identity, true)
  }

  ghost predicate IssuedAt(states: seq<System>, events: seq<Event>, j: nat, lane: Lane)
    requires j < |events| < |states|
  {
    events[j].Coordinate? && C.Issues(states[j].coordinator, events[j].event) && events[j].event.lane == lane
  }

  /** The lane of `other` shows it, or a later issue. */
  predicate Recorded(c: C.State, other: Identity) {
    && other.lane in c.lanes
    && (other == c.lanes[other.lane].identity || other.generation < c.lanes[other.lane].identity.generation)
  }

  /** Each lane's record is its latest issue. */
  ghost predicate Latest(s: System) {
    C.Counted(s.coordinator) && forall other :: other in s.started ==> Recorded(s.coordinator, other)
  }

  lemma RecordedStays(c: C.State, event: C.Event, other: Identity)
    requires C.Counted(c) && Recorded(c, other)
    ensures Recorded(C.Step(c, event), other)
  {}

  lemma LatestStays(s: System, e: Event)
    requires Latest(s)
    ensures Latest(Step(s, e))
  {
    if e.Coordinate? {
      C.CountedStays(s.coordinator, e.event);
      var t := Step(s, e);
      forall other | other in t.started ensures Recorded(t.coordinator, other) {
        if other in s.started { RecordedStays(s.coordinator, e.event, other); }
      }
    }
  }

  lemma {:induction false} AlwaysLatest(states: seq<System>, events: seq<Event>, i: nat)
    requires IsRun(states, events) && i < |states|
    ensures Latest(states[i])
  {
    if i > 0 {
      AlwaysLatest(states, events, i - 1);
      LatestStays(states[i - 1], events[i - 1]);
    }
  }

  lemma CurrentHasNoRival(s: System, identity: Identity)
    requires Latest(s) && C.Holds(s.coordinator, identity)
    ensures !Rivalled(s.started, identity)
  {}

  /** When the coordinator hands a lane on after a revocation, the host has
      already retired the revoked execution, and no process of it is left. */
  lemma RetiredBeforeSuccession(states: seq<System>, events: seq<Event>, i: nat, j: nat, identity: Identity)
    requires IsRun(states, events) && i < j < |events|
    requires RevokedAt(states, events, i, identity) && IssuedAt(states, events, j, identity.lane)
    requires forall k :: i < k < j ==> !IssuedAt(states, events, k, identity.lane)
    ensures Dead(Host(states[j], identity.lane), identity)
    ensures identity.generation !in Host(states[j], identity.lane).tenants
  {
    var cs, ce := CoordinatorStates(states), CoordinatorEvents(events);
    CoordinatorRun(states, events);
    forall k | i < k < j ensures !(C.Issues(cs[k], ce[k]) && ce[k].lane == identity.lane) {
      assert !IssuedAt(states, events, k, identity.lane);
    }
    C.SuccessorWaits(cs, ce, i, j, identity);
    var k :| i < k < j && ce[k] == C.AcknowledgeStop(identity);
    assert Enabled(states[k], events[k]);
    assert cs[i + 1] == C.Step(cs[i], ce[i]);
    C.RevokedRecordStays(cs, ce, i + 1, k, identity, cs[i].now + EXPIRED_WRITER_DRAIN_MS);
    AlwaysReported(states, events, k);
    AlwaysLatest(states, events, k);
    CurrentHasNoRival(states[k], identity);
    DeadForever(states, events, k, j, identity);
  }

  lemma {:induction false} DeadForever(states: seq<System>, events: seq<Event>, k: nat, j: nat, identity: Identity)
    requires IsRun(states, events) && k <= j < |states|
    requires Dead(Host(states[k], identity.lane), identity)
    ensures Dead(Host(states[j], identity.lane), identity)
    decreases j
  {
    if k < j {
      DeadForever(states, events, k, j - 1, identity);
      assert states[j] == Step(states[j - 1], events[j - 1]);
      SystemKeepsDead(states[j - 1], events[j - 1], identity);
    }
  }

  lemma SystemKeepsDead(s: System, e: Event, identity: Identity)
    requires Dead(Host(s, identity.lane), identity)
    ensures Dead(Host(Step(s, e), identity.lane), identity)
  {
    var h := Host(s, identity.lane);
    match e
    case Coordinate(_) =>
    case DeliverStart(other, hostNow, phases, outcome) =>
        DeadStays(h, H.Start(other, hostNow, phases, outcome), identity);
    case DeliverStop(other, phases) => DeadStays(h, H.Stop(other, phases), identity);
    case DeliverDelete(_, phases) => DeadStays(h, H.Delete(phases), identity);
    case HostFinish(_, other, phases) => DeadStays(h, H.Finish(other, phases), identity);
    case HostExit(_) => DeadStays(h, H.ContainerExit, identity);
  }

  /** However late or often the start of a revoked execution is delivered: once
      its lane has a successor, the host neither runs it nor admits it, and no
      process of it is bound to the container. */
  lemma NoZombieAfterSuccession(states: seq<System>, events: seq<Event>, i: nat, j: nat, k: nat, identity: Identity)
    requires IsRun(states, events) && i < j <= k < |events|
    requires RevokedAt(states, events, i, identity) && IssuedAt(states, events, j, identity.lane)
    requires forall m :: i < m < j ==> !IssuedAt(states, events, m, identity.lane)
    ensures var h := Host(states[k], identity.lane);
            && identity.generation !in h.tenants
            && !(h.slot.Some? && h.slot.value.state.Active? && h.slot.value.identity == identity)
            && (events[k].DeliverStart? && events[k].identity == identity ==>
                  !H.Admits(h, H.Start(identity, events[k].hostNow, events[k].phases, events[k].outcome)))
  {
    RetiredBeforeSuccession(states, events, i, j, identity);
    DeadForever(states, events, j, k, identity);
  }

  // ---------- Hosts run only what the coordinator issued ----------

  /** What the host shows active or completed came in a start for its own lane. */
  ghost predicate Sourced(started: set<Identity>, h: H.HostState, lane: Lane) {
    h.slot.Some? && !h.slot.value.state.Revoked? ==>
      h.slot.value.identity in started && h.slot.value.identity.lane == lane
  }

  ghost predicate Provenance(s: System) {
    && (forall identity :: identity in s.started ==> identity.generation <= s.coordinator.counter)
    && (forall a, b :: a in s.started && b in s.started && a.generation == b.generation ==> a == b)
    && (forall lane :: Sourced(s.started, Host(s, lane), lane))
  }

  lemma LiveSlotComesFrom(h: H.HostState, e: H.Event)
    ensures var next := H.Step(h, e);
            next.slot.Some? && !next.slot.value.state.Revoked? ==>
              || (h.slot.Some? && !h.slot.value.state.Revoked? && h.slot.value.identity == next.slot.value.identity)
              || (e.Start? && e.identity == next.slot.value.identity)
  {}

  lemma SourcedStays(s: System, lane: Lane, e: H.Event)
    requires Provenance(s)
    requires e.Start? ==> e.identity in s.started && e.identity.lane == lane
    ensures Provenance(HostStep(s, lane, e))
  {
    LiveSlotComesFrom(Host(s, lane), e);
    var t := HostStep(s, lane, e);
    forall l ensures Sourced(t.started, Host(t, l), l) {
      assert Sourced(s.started, Host(s, l), l);
    }
  }

  lemma IssueKeepsProvenance(s: System, event: C.Event)
    requires Provenance(s)
    ensures Provenance(Step(s, Coordinate(event)))
  {
    var t := Step(s, Coordinate(event));
    forall l ensures Sourced(t.started, Host(t, l), l) {
      assert Sourced(s.started, Host(s, l), l);
    }
  }

  lemma SameHostsSameProvenance(s: System, t: System)
    requires Provenance(s) && t == s.(stopped := t.stopped, deleted := t.deleted)
    ensures Provenance(t)
  {
    forall l ensures Sourced(t.started, Host(t, l), l) {
      assert Sourced(s.started, Host(s, l), l);
    }
  }

  lemma ProvenanceStays(s: System, e: Event)
    requires Provenance(s) && Enabled(s, e)
    ensures Provenance(Step(s, e))
  {
    match e
    case Coordinate(event) => IssueKeepsProvenance(s, event);
    case DeliverStart(identity, hostNow, phases, outcome) =>
      SourcedStays(s, identity.lane, H.Start(identity, hostNow, phases, outcome));
    case DeliverStop(identity, phases) =>
      SourcedStays(s, identity.lane, H.Stop(identity, phases));
      SameHostsSameProvenance(HostStep(s, identity.lane, H.Stop(identity, phases)), Step(s, e));
    case DeliverDelete(lane, phases) =>
      SourcedStays(s, lane, H.Delete(phases));
      SameHostsSameProvenance(HostStep(s, lane, H.Delete(phases)), Step(s, e));
    case HostFinish(lane, identity, phases) => SourcedStays(s, lane, H.Finish(identity, phases));
    case HostExit(lane) => SourcedStays(s, lane, H.ContainerExit);
  }

  lemma {:induction false} AlwaysProvenance(states: seq<System>, events: seq<Event>, i: nat)
    requires IsRun(states, events) && i < |states|
    ensures Provenance(states[i])
  {
    if i > 0 {
      AlwaysProvenance(states, events, i - 1);
      ProvenanceStays(states[i - 1], events[i - 1]);
    }
  }

  /** An execution active at a host was issued by the coordinator, for that lane,
      and no other issued execution has its generation. */
  lemma ActiveWasIssued(states: seq<System>, events: seq<Event>, i: nat, lane: Lane)
    requires IsRun(states, events) && i < |states|
    requires Host(states[i], lane).slot.Some? && Host(states[i], lane).slot.value.state.Active?
    ensures var active := Host(states[i], lane).slot.value.identity;
            && active in states[i].started && active.lane == lane
            && forall other :: other in states[i].started && other.generation == active.generation ==> other == active
  {
    AlwaysProvenance(states, events, i);
    assert Sourced(states[i].started, Host(states[i], lane), lane);
  }
}
