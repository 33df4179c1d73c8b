/** What the coordinator's records tell, over whole runs: how long an execution is
    authorised, when its lane is handed on, and what traffic it caused. */
module Succession {
  import opened Options
  import opened Execution
  import opened Coordinator

  // ---------- Claims ----------

  /** A claim is owned while it is stored with that operation, at work, under that
      id, and has not expired. */
  lemma OwnsClaimIff(s: State, operationId: string, claimId: string)
    ensures OwnsClaim(s, Maintenance, operationId, claimId) <==>
            !s.claims.deleting
            && exists at :: at > s.now && s.claims.gc == Some(GcClaim(operationId, true, Some(claimId), at))
    ensures OwnsClaim(s, Foreground, operationId, claimId) <==>
            !s.claims.deleting
            && exists at :: at > s.now && Stored(s.claims.receives, operationId, ReceiveClaim(true, Some(claimId), at))
  {
    if s.claims.gc.Some? {
      var gc := s.claims.gc.value;
      assert gc == GcClaim(gc.operationId, gc.indexing, gc.claimId, gc.claimExpiresAt);
    }
    if operationId in s.claims.receives {
      var r := s.claims.receives[operationId];
      assert r == ReceiveClaim(r.processing, r.claimId, r.claimExpiresAt);
      if OwnsClaim(s, Foreground, operationId, claimId) {
        assert Stored(s.claims.receives, operationId, ReceiveClaim(true, Some(claimId), r.claimExpiresAt));
      }
    }
  }

  predicate Stored(receives: map<string, ReceiveClaim>, operationId: string, claim: ReceiveClaim) {
    operationId in receives && receives[operationId] == claim
  }

  // ---------- The life of one record ----------

  ghost predicate IssuesOn(s: State, e: Event, lane: Lane) {
    Issues(s, e) && e.lane == lane
  }

  /** The lane issues nothing from `i` up to, and without, `j`. */
  ghost predicate Quiet(states: seq<State>, events: seq<Event>, i: nat, j: nat, lane: Lane)
    requires IsRun(states, events) && j < |states|
  {
    forall k :: i <= k < j ==> !IssuesOn(states[k], events[k], lane)
  }

  /** Time never runs back, and the repository keeps its id. */
  lemma {:induction false} TimeRuns(states: seq<State>, events: seq<Event>, i: nat, j: nat)
    requires IsRun(states, events) && i <= j < |states|
    ensures states[i].now <= states[j].now && states[i].repositoryId == states[j].repositoryId
    decreases j
  {
    if i < j {
      TimeRuns(states, events, i, j - 1);
      assert states[j] == Step(states[j - 1], events[j - 1]);
    }
  }

  /** A lane that issues nothing keeps its execution. */
  lemma KeepsExecution(s: State, e: Event, identity: Identity)
    requires Holds(s, identity) && !IssuesOn(s, e, identity.lane)
    ensures Holds(Step(s, e), identity)
    ensures Step(s, e).lanes[identity.lane].dispatchedAt == s.lanes[identity.lane].dispatchedAt
  {}

  /** A record shows the fields its execution was issued with, and the time. */
  lemma {:induction false} DispatchRecorded(states: seq<State>, events: seq<Event>, i: nat, j: nat)
    requires IsRun(states, events) && i < j < |states| && Issues(states[i], events[i])
    requires Quiet(states, events, i + 1, j, events[i].lane)
    ensures var e := events[i]; var s := states[i];
            && e.lane in states[j].lanes
            && states[j].lanes[e.lane].dispatchedAt == s.now
            && states[j].lanes[e.lane].identity
               == Identity(s.repositoryId, e.lane, s.counter + 1, e.operationId, e.claimId, s.now + 14 * 60 * 1000,
                           e.grantSha256)
            && IssuedBy(s, e) == states[j].lanes[e.lane].identity
    decreases j
  {
    if i + 1 < j {
      DispatchRecorded(states, events, i, j - 1);
      KeepsExecution(states[j - 1], events[j - 1], IssuedBy(states[i], events[i]));
    }
    assert states[j] == Step(states[j - 1], events[j - 1]);
  }

  // ---------- How long an execution is authorised ----------

  predicate Live(s: State, identity: Identity) {
    Holds(s, identity) && s.lanes[identity.lane].state.Active?
  }

  /** A revocation, or a completion by an execution that is still authorised. */
  predicate Ends(s: State, e: Event, identity: Identity) {
    e == Settle(identity, true) || (e == Settle(identity, false) && Authorized(s, identity))
  }

  lemma LiveUntilEnded(s: State, e: Event, identity: Identity)
    requires Live(s, identity)
    ensures !IssuesOn(s, e, identity.lane)
    ensures Live(Step(s, e), identity) <==> !Ends(s, e, identity)
  {}

  lemma SpentIsNotRevived(s: State, e: Event, identity: Identity)
    requires Counted(s) && Spent(s, identity)
    ensures !Live(Step(s, e), identity)
  {}

  lemma {:induction false} LiveIff(states: seq<State>, events: seq<Event>, i: nat, j: nat, identity: Identity)
    requires IsRun(states, events) && i <= j < |states| && Live(states[i], identity)
    ensures Live(states[j], identity) <==> forall k :: i <= k < j ==> !Ends(states[k], events[k], identity)
    decreases j
  {
    if i < j {
      var s, e := states[j - 1], events[j - 1];
      LiveIff(states, events, i, j - 1, identity);
      AlwaysCounted(states, events, 0, i);
      AlwaysCounted(states, events, i, j - 1);
      if Live(s, identity) {
        LiveUntilEnded(s, e, identity);
      } else {
        SpentIsNotRevived(s, e, identity);
      }
    }
  }

  /** An issued execution is authorised for fourteen minutes, while its claim is
      owned, until it is revoked or completes: exactly so long, whatever else
      happens. */
  lemma AuthorisedIff(states: seq<State>, events: seq<Event>, i: nat, j: nat)
    requires IsRun(states, events) && i < j < |states| && Issues(states[i], events[i])
    ensures var e := events[i]; var identity := IssuedBy(states[i], e);
            Authorized(states[j], identity) <==>
            && states[j].now < states[i].now + 14 * 60 * 1000
            && OwnsClaim(states[j], e.lane, e.operationId, e.claimId)
            && forall k :: i < k < j ==> !Ends(states[k], events[k], identity)
  {
    var identity := IssuedBy(states[i], events[i]);
    assert states[i + 1] == Step(states[i], events[i]);
    assert Live(states[i + 1], identity);
    LiveIff(states, events, i + 1, j, identity);
    TimeRuns(states, events, i, j);
  }

  // ---------- What a settlement leaves ----------

  /** The record of an execution settled at time `at`, stop acknowledged or not. */
  predicate SettledRecord(r: LaneRecord, identity: Identity, revoked: bool, at: int, acknowledged: bool) {
    && r.identity == identity
    && r.state == (if revoked then Revoked else Completed)
    && r.completedAt == Some(at)
    && r.stopPending == (revoked && !acknowledged)
    && r.drainUntil == (if revoked then at + 5 * 60 * 1000 else 0)
  }

  ghost predicate Acknowledged(events: seq<Event>, i: nat, j: nat, identity: Identity)
    requires j <= |events|
  {
    exists k :: i <= k < j && events[k] == AcknowledgeStop(identity)
  }

  lemma SettledRecordStays(s: State, e: Event, identity: Identity, revoked: bool, at: int, acknowledged: bool)
    requires identity.lane in s.lanes && SettledRecord(s.lanes[identity.lane], identity, revoked, at, acknowledged)
    requires !IssuesOn(s, e, identity.lane)
    ensures identity.lane in Step(s, e).lanes
    ensures SettledRecord(Step(s, e).lanes[identity.lane], identity, revoked, at,
                          acknowledged || e == AcknowledgeStop(identity))
  {}

  /** Until its lane issues again, a settled execution's record shows how and when
      it was settled, its stop pending until it is acknowledged. */
  lemma {:induction false} SettlementRecorded(states: seq<State>, events: seq<Event>, i: nat, j: nat,
                                              identity: Identity, revoke: bool)
    requires IsRun(states, events) && i < j < |states|
    requires events[i] == Settle(identity, revoke) && Settles(states[i], identity, revoke)
    requires Quiet(states, events, i + 1, j, identity.lane)
    ensures identity.lane in states[j].lanes
    ensures SettledRecord(states[j].lanes[identity.lane], identity, revoke, states[i].now,
                          Acknowledged(events, i + 1, j, identity))
    decreases j
  {
    if i + 1 < j {
      SettlementRecorded(states, events, i, j - 1, identity, revoke);
      var before := Acknowledged(events, i + 1, j - 1, identity);
      SettledRecordStays(states[j - 1], events[j - 1], identity, revoke, states[i].now, before);
      assert Acknowledged(events, i + 1, j, identity) <==> before || events[j - 1] == AcknowledgeStop(identity);
    }
    assert states[j] == Step(states[j - 1], events[j - 1]);
  }

  // ---------- When a lane is handed on ----------

  /** A claim that may be acted on: it is owned, and the grant is for its operation. */
  predicate Entitled(s: State, e: Event) {
    e.Begin? && e.grantOperationId == e.operationId && OwnsClaim(s, e.lane, e.operationId, e.claimId)
  }

  lemma {:induction false} UnusedLane(states: seq<State>, events: seq<Event>, j: nat, lane: Lane)
    requires IsRun(states, events) && j < |states| && Quiet(states, events, 0, j, lane)
    ensures lane !in states[j].lanes
  {
    if j > 0 {
      UnusedLane(states, events, j - 1, lane);
      assert states[j] == Step(states[j - 1], events[j - 1]);
      assert !IssuesOn(states[j - 1], events[j - 1], lane);
    }
  }

  /** A lane's first execution is issued to the first entitled caller. */
  lemma FirstIssueIff(states: seq<State>, events: seq<Event>, j: nat)
    requires IsRun(states, events) && j < |events| && events[j].Begin?
    requires Quiet(states, events, 0, j, events[j].lane)
    ensures Issues(states[j], events[j]) <==> Entitled(states[j], events[j])
  {
    UnusedLane(states, events, j, events[j].lane);
  }

  /** While an execution has not ended, expired or not, its lane issues nothing. */
  lemma UnendedBlocks(states: seq<State>, events: seq<Event>, i: nat, j: nat)
    requires IsRun(states, events) && i < j < |events| && Issues(states[i], events[i])
    requires forall k :: i < k < j ==> !Ends(states[k], events[k], IssuedBy(states[i], events[i]))
    ensures !IssuesOn(states[j], events[j], events[i].lane)
  {
    assert states[i + 1] == Step(states[i], events[i]);
    assert Live(states[i + 1], IssuedBy(states[i], events[i]));
    LiveIff(states, events, i + 1, j, IssuedBy(states[i], events[i]));
  }

  /** A completion frees its lane at once: the next issue goes to the next entitled
      caller. The clock shows a time after the epoch. */
  lemma CompletionFreesLane(states: seq<State>, events: seq<Event>, i: nat, j: nat, identity: Identity)
    requires IsRun(states, events) && i < j < |events| && states[0].now >= 0
    requires events[i] == Settle(identity, false) && Authorized(states[i], identity)
    requires events[j].Begin? && events[j].lane == identity.lane
    requires Quiet(states, events, i + 1, j, identity.lane)
    ensures Issues(states[j], events[j]) <==> Entitled(states[j], events[j])
  {
    SettlementRecorded(states, events, i, j, identity, false);
    TimeRuns(states, events, 0, j);
  }

  /** A revocation hands its lane on to the next entitled caller exactly when the
      stop has been acknowledged since and five minutes have passed. */
  lemma SuccessorIff(states: seq<State>, events: seq<Event>, i: nat, j: nat, identity: Identity)
    requires IsRun(states, events) && i < j < |events|
    requires events[i] == Settle(identity, true) && Live(states[i], identity)
    requires events[j].Begin? && events[j].lane == identity.lane
    requires Quiet(states, events, i + 1, j, identity.lane)
    ensures Issues(states[j], events[j]) <==>
            && Entitled(states[j], events[j])
            && states[j].now >= states[i].now + 5 * 60 * 1000
            && exists k :: i < k < j && events[k] == AcknowledgeStop(identity)
  {
    SettlementRecorded(states, events, i, j, identity, true);
    assert Acknowledged(events, i + 1, j, identity) <==>
           exists k :: i < k < j && events[k] == AcknowledgeStop(identity);
  }

  // ---------- Traffic ----------

  predicate Notes(e: Event, identity: Identity, read: bool) {
    e.NoteIO? && e.identity == identity && e.read == read && 0 <= e.bytes < 0x20_0000_0000_0000
  }

  /** How often, and for how many bytes, traffic was noted from `i` up to `j`. */
  function Requests(events: seq<Event>, i: nat, j: nat, identity: Identity, read: bool): nat
    requires i <= j <= |events|
  {
    if i == j then 0
    else Requests(events, i, j - 1, identity, read) + if Notes(events[j - 1], identity, read) then 1 else 0
  }

  function Volume(events: seq<Event>, i: nat, j: nat, identity: Identity, read: bool): nat
    requires i <= j <= |events|
  {
    if i == j then 0
    else
      Volume(events, i, j - 1, identity, read) + if Notes(events[j - 1], identity, read) then events[j - 1].bytes else 0
  }

  function FirstRead(states: seq<State>, events: seq<Event>, i: nat, j: nat, identity: Identity): Option<int>
    requires i <= j <= |events| < |states|
  {
    if i == j then None
    else
      var before := FirstRead(states, events, i, j - 1, identity);
      if before.None? && Notes(events[j - 1], identity, true) then Some(states[j - 1].now) else before
  }

  predicate CountersMove(s: State, e: Event, identity: Identity, t: State) {
    && identity.lane in s.lanes && identity.lane in t.lanes
    && var r, u := s.lanes[identity.lane], t.lanes[identity.lane];
    && u.readRequests == r.readRequests + (if Notes(e, identity, true) then 1 else 0)
    && u.writeRequests == r.writeRequests + (if Notes(e, identity, false) then 1 else 0)
    && u.declaredReadBytes == r.declaredReadBytes + (if Notes(e, identity, true) then e.bytes else 0)
    && u.completedWriteBytes == r.completedWriteBytes + (if Notes(e, identity, false) then e.bytes else 0)
    && u.inputReadStartedAt
       == if r.inputReadStartedAt.None? && Notes(e, identity, true) then Some(s.now) else r.inputReadStartedAt
  }

  lemma NotedOnce(s: State, e: Event, identity: Identity)
    requires Holds(s, identity) && !IssuesOn(s, e, identity.lane)
    ensures CountersMove(s, e, identity, Step(s, e))
  {}

  /** Until its lane issues again, an execution's counters are the totals of the
      reads and writes noted for it since it was issued, even after it ended, and
      nothing noted for another execution is among them. */
  lemma {:induction false} CountersAreTotals(states: seq<State>, events: seq<Event>, i: nat, j: nat)
    requires IsRun(states, events) && i < j < |states| && Issues(states[i], events[i])
    requires Quiet(states, events, i + 1, j, events[i].lane)
    ensures events[i].lane in states[j].lanes
    ensures var r := states[j].lanes[events[i].lane]; var identity := IssuedBy(states[i], events[i]);
            && r.readRequests == Requests(events, i + 1, j, identity, true)
            && r.writeRequests == Requests(events, i + 1, j, identity, false)
            && r.declaredReadBytes == Volume(events, i + 1, j, identity, true)
            && r.completedWriteBytes == Volume(events, i + 1, j, identity, false)
            && r.inputReadStartedAt == FirstRead(states, events, i + 1, j, identity)
    decreases j
  {
    var identity := IssuedBy(states[i], events[i]);
    assert states[j] == Step(states[j - 1], events[j - 1]);
    if i + 1 < j {
      CountersAreTotals(states, events, i, j - 1);
      DispatchRecorded(states, events, i, j - 1);
      NotedOnce(states[j - 1], events[j - 1], identity);
    }
  }
}
