/** The repository coordinator: it alone issues execution generations, decides
    who may use the bridge, and settles executions. */
module Coordinator {
  import opened Options
  import opened Execution

  datatype LaneRecord = LaneRecord(
    identity: Identity,
    state: ExecutionState,
    drainUntil: int,
    stopPending: bool,
    dispatchedAt: int,
    completedAt: Option<int>,
    inputReadStartedAt: Option<int>,
    readRequests: nat,
    declaredReadBytes: nat,
    writeRequests: nat,
    completedWriteBytes: nat)

  /** The claim a lane's current operation holds: one collection for maintenance,
      one record per receive operation for the foreground. */
  datatype GcClaim = GcClaim(operationId: string, indexing: bool, claimId: Option<string>, claimExpiresAt: int)

  datatype ReceiveClaim = ReceiveClaim(processing: bool, claimId: Option<string>, claimExpiresAt: int)

  datatype Claims = Claims(deleting: bool, gc: Option<GcClaim>, receives: map<string, ReceiveClaim>)

  datatype State = State(
    repositoryId: string,
    counter: int,
    lanes: map<Lane, LaneRecord>,
    claims: Claims,
    now: int)

  /** Date.now() is a time after the epoch. */
  predicate Initial(s: State) {
    s.counter == 0 && s.lanes == map[]
  }

  predicate OwnsClaim(s: State, lane: Lane, operationId: string, claimId: string) {
    && !s.claims.deleting
    && match lane {
         case Maintenance =>
           && s.claims.gc.Some?
           && var gc := s.claims.gc.value;
           && gc.operationId == operationId && gc.indexing && gc.claimId == Some(claimId) && gc.claimExpiresAt > s.now
         case Foreground =>
           && operationId in s.claims.receives
           && var receive := s.claims.receives[operationId];
           && receive.processing && receive.claimId == Some(claimId) && receive.claimExpiresAt > s.now
       }
  }

  // ---------- Transactions ----------

  /** A lane is free when its last execution is settled, its stop acknowledged
      and its writers drained. */
  predicate LaneFree(s: State, lane: Lane) {
    lane in s.lanes ==>
      && !s.lanes[lane].state.Active?
      && !s.lanes[lane].stopPending
      && s.lanes[lane].drainUntil <= s.now
  }

  predicate Begins(s: State, lane: Lane, operationId: string, claimId: string, grantOperationId: string) {
    && grantOperationId == operationId
    && OwnsClaim(s, lane, operationId, claimId)
    && LaneFree(s, lane)
  }

  function Issued(s: State, lane: Lane, operationId: string, claimId: string, grantSha256: string): Identity {
    Identity(s.repositoryId, lane, s.counter + 1, operationId, claimId, s.now + NATIVE_EXECUTION_TIMEOUT_MS,
        grantSha256)
  }

  function FreshRecord(identity: Identity, now: int): LaneRecord {
    LaneRecord(identity, Active, 0, false, now, None, None, 0, 0, 0, 0)
  }

  predicate Authorized(s: State, identity: Identity) {
    && identity.repositoryId == s.repositoryId && identity.expiresAt > s.now
    && identity.lane in s.lanes && s.lanes[identity.lane].state.Active?
    && SameExecution(s.lanes[identity.lane].identity, identity)
    && OwnsClaim(s, identity.lane, identity.operationId, identity.claimId)
  }

  predicate Holds(s: State, identity: Identity) {
    identity.lane in s.lanes && SameExecution(s.lanes[identity.lane].identity, identity)
  }

  /** Completion needs live authority; revocation only needs the record. */
  predicate Settles(s: State, identity: Identity, revoke: bool) {
    && Holds(s, identity) && s.lanes[identity.lane].state.Active?
    && (!revoke ==> Authorized(s, identity))
  }

  function Settled(s: State, r: LaneRecord, revoke: bool): LaneRecord {
    r.(state := if revoke then Revoked else Completed,
       stopPending := revoke,
       completedAt := Some(s.now),
       drainUntil := if revoke then s.now + EXPIRED_WRITER_DRAIN_MS else 0)
  }

  function Noted(s: State, r: LaneRecord, read: bool, bytes: nat): LaneRecord {
    if read then
      r.(inputReadStartedAt := if r.inputReadStartedAt.Some? then r.inputReadStartedAt else Some(s.now),
         readRequests := r.readRequests + 1,
         declaredReadBytes := r.declaredReadBytes + bytes)
    else
      r.(writeRequests := r.writeRequests + 1, completedWriteBytes := r.completedWriteBytes + bytes)
  }

  const MAX_SAFE_INTEGER := 0x1F_FFFF_FFFF_FFFF

  datatype Event =
    | Begin(lane: Lane, operationId: string, claimId: string, grantOperationId: string, grantSha256: string)
    | Settle(identity: Identity, revoke: bool)
    | NoteIO(identity: Identity, read: bool, bytes: int)
    | AcknowledgeStop(identity: Identity)
    | ChangeClaims(claims: Claims)
    | Tick(later: nat)

  function Step(s: State, e: Event): State {
    match e
    case Begin(lane, operationId, claimId, grantOperationId, grantSha256) =>
      if Begins(s, lane, operationId, claimId, grantOperationId) then
        var identity := Issued(s, lane, operationId, claimId, grantSha256);
        s.(counter := s.counter + 1, lanes := s.lanes[lane := FreshRecord(identity, s.now)])
      else s
    case Settle(identity, revoke) =>
      if Settles(s, identity, revoke)
      then s.(lanes := s.lanes[identity.lane := Settled(s, s.lanes[identity.lane], revoke)])
      else s
    case NoteIO(identity, read, bytes) =>
      if 0 <= bytes <= MAX_SAFE_INTEGER && Holds(s, identity)
      then s.(lanes := s.lanes[identity.lane := Noted(s, s.lanes[identity.lane], read, bytes)])
      else s
    case AcknowledgeStop(identity) =>
      if Holds(s, identity) && s.lanes[identity.lane].state.Revoked?
      then s.(lanes := s.lanes[identity.lane := s.lanes[identity.lane].(stopPending := false)])
      else s
    case ChangeClaims(claims) => s.(claims := claims)
    case Tick(later) => s.(now := s.now + later)
  }

  // ---------- The coordinator object ----------

  class RepositoryCoordinator {
    const repositoryId: string
    var counter: int
    var lanes: map<Lane, LaneRecord>
    var claims: Claims
    var now: int

    ghost function Snapshot(): State
      reads this
    {
      State(repositoryId, counter, lanes, claims, now)
    }

    constructor (repositoryId: string, now: int)
      ensures Initial(Snapshot()) && this.repositoryId == repositoryId && this.now == now
    {
      this.repositoryId := repositoryId;
      this.now := now;
      counter, lanes, claims := 0, map[], Claims(false, None, map[]);
    }

    method CheckClaim(lane: Lane, operationId: string, claimId: string) returns (owns: bool)
      ensures owns <==> OwnsClaim(Snapshot(), lane, operationId, claimId)
    {
      if claims.deleting {
        return false;
      }
      if lane.Maintenance? {
        if claims.gc.None? {
          return false;
        }
        var gc := claims.gc.value;
        return gc.operationId == operationId && gc.indexing && gc.claimId == Some(claimId) && gc.claimExpiresAt > now;
      }
      if operationId !in claims.receives {
        return false;
      }
      var receive := claims.receives[operationId];
      owns := receive.processing && receive.claimId == Some(claimId) && receive.claimExpiresAt > now;
    }

    method BeginExecution(lane: Lane, operationId: string, claimId: string, grantOperationId: string,
                          grantSha256: string)
      returns (identity: Option<Identity>)
      modifies this
      ensures Snapshot() == Step(old(Snapshot()), Begin(lane, operationId, claimId, grantOperationId, grantSha256))
      ensures identity.Some? <==> Begins(old(Snapshot()), lane, operationId, claimId, grantOperationId)
      ensures identity.Some? ==> Authorized(Snapshot(), identity.value)
    {
      if grantOperationId != operationId {
        return None;
      }
      var owns := CheckClaim(lane, operationId, claimId);
      if !owns {
        return None;
      }
      if lane in lanes {
        var previous := lanes[lane];
        if previous.state.Active? || previous.stopPending || previous.drainUntil > now {
          return None;
        }
      }
      var generation := counter + 1;
      var issued := Identity(repositoryId, lane, generation, operationId, claimId, now + NATIVE_EXECUTION_TIMEOUT_MS,
          grantSha256);
      counter := generation;
      lanes := lanes[lane := LaneRecord(issued, Active, 0, false, now, None, None, 0, 0, 0, 0)];
      identity := Some(issued);
    }

    method AuthorizeExecution(identity: Identity) returns (authorized: bool)
      ensures authorized <==> Authorized(Snapshot(), identity)
    {
      if identity.repositoryId != repositoryId || identity.expiresAt <= now {
        return false;
      }
      if identity.lane !in lanes {
        return false;
      }
      var record := lanes[identity.lane];
      if !record.state.Active? || !SameExecution(record.identity, identity) {
        return false;
      }
      authorized := CheckClaim(identity.lane, identity.operationId, identity.claimId);
    }

    method FinishExecution(identity: Identity, revoke: bool) returns (settled: bool)
      modifies this`lanes
      ensures Snapshot() == Step(old(Snapshot()), Settle(identity, revoke))
      ensures settled <==> Settles(old(Snapshot()), identity, revoke)
      ensures settled ==> !Authorized(Snapshot(), identity)
    {
      if identity.lane !in lanes || !SameExecution(lanes[identity.lane].identity, identity) {
        return false;
      }
      var record := lanes[identity.lane];
      if !record.state.Active? {
        return false;
      }
      if !revoke {
        if identity.repositoryId != repositoryId || identity.expiresAt <= now {
          return false;
        }
        var owns := CheckClaim(identity.lane, identity.operationId, identity.claimId);
        if !owns {
          return false;
        }
      }
      record := record.(state := if revoke then Revoked else Completed);
      record := record.(stopPending := revoke);
      record := record.(completedAt := Some(now));
      record := record.(drainUntil := if revoke then now + EXPIRED_WRITER_DRAIN_MS else 0);
      lanes := lanes[identity.lane := record];
      settled := true;
    }

    method NoteBridgeIO(identity: Identity, read: bool, bytes: int)
      modifies this`lanes
      ensures Snapshot() == Step(old(Snapshot()), NoteIO(identity, read, bytes))
    {
      if bytes > MAX_SAFE_INTEGER || bytes < 0 {
        return;
      }
      if identity.lane !in lanes || !SameExecution(lanes[identity.lane].identity, identity) {
        return;
      }
      var record := lanes[identity.lane];
      if read {
        if record.inputReadStartedAt.None? {
          record := record.(inputReadStartedAt := Some(now));
        }
        record := record.(readRequests := record.readRequests + 1);
        record := record.(declaredReadBytes := record.declaredReadBytes + bytes);
      } else {
        record := record.(writeRequests := record.writeRequests + 1);
        record := record.(completedWriteBytes := record.completedWriteBytes + bytes);
      }
      lanes := lanes[identity.lane := record];
    }

    method AcknowledgeNativeStop(identity: Identity)
      modifies this`lanes
      ensures Snapshot() == Step(old(Snapshot()), AcknowledgeStop(identity))
    {
      if identity.lane in lanes && lanes[identity.lane].state.Revoked?
          && SameExecution(lanes[identity.lane].identity, identity)
      {
        lanes := lanes[identity.lane := lanes[identity.lane].(stopPending := false)];
      }
    }
  }

  // ---------- Runs ----------

  ghost predicate IsRun(states: seq<State>, events: seq<Event>) {
    && |states| == |events| + 1
    && Initial(states[0])
    && forall i :: 0 <= i < |events| ==> states[i + 1] == Step(states[i], events[i])
  }

  ghost predicate Issues(s: State, e: Event) {
    e.Begin? && Begins(s, e.lane, e.operationId, e.claimId, e.grantOperationId)
  }

  ghost function IssuedBy(s: State, e: Event): Identity
    requires Issues(s, e)
  {
    Issued(s, e.lane, e.operationId, e.claimId, e.grantSha256)
  }

  // ---------- Generations ----------

  ghost predicate Counted(s: State) {
    && (forall l :: l in s.lanes ==> s.lanes[l].identity.generation <= s.counter && s.lanes[l].identity.lane == l)
    && (Foreground in s.lanes && Maintenance in s.lanes ==>
          s.lanes[Foreground].identity.generation != s.lanes[Maintenance].identity.generation)
  }

  lemma CountedStays(s: State, e: Event)
    requires Counted(s)
    ensures Counted(Step(s, e)) && s.counter <= Step(s, e).counter
  {}

  lemma {:induction false} AlwaysCounted(states: seq<State>, events: seq<Event>, i: nat, j: nat)
    requires IsRun(states, events) && i <= j < |states|
    ensures Counted(states[j]) && states[i].counter <= states[j].counter
    decreases j
  {
    if j > 0 {
      AlwaysCounted(states, events, if i < j then i else j - 1, j - 1);
      CountedStays(states[j - 1], events[j - 1]);
    }
  }

  /** No two issues, on whatever lanes, share a generation, and the counter bounds
      every generation ever issued. */
  lemma GenerationsUnique(states: seq<State>, events: seq<Event>, i: nat, j: nat)
    requires IsRun(states, events) && i < j < |events|
    requires Issues(states[i], events[i]) && Issues(states[j], events[j])
    ensures IssuedBy(states[i], events[i]).generation < IssuedBy(states[j], events[j]).generation
    ensures IssuedBy(states[j], events[j]).generation <= states[|states| - 1].counter
  {
    AlwaysCounted(states, events, i + 1, j);
    AlwaysCounted(states, events, j + 1, |states| - 1);
    assert states[i + 1] == Step(states[i], events[i]);
    assert states[j + 1] == Step(states[j], events[j]);
  }

  // ---------- Authority ----------

  /** At most one identity per lane is authorised at any instant, and the two
      lanes never authorise the same generation. */
  lemma AuthorityExclusive(states: seq<State>, events: seq<Event>, i: nat, a: Identity, b: Identity)
    requires IsRun(states, events) && i < |states|
    requires Authorized(states[i], a) && Authorized(states[i], b)
    requires a.lane == b.lane || a.generation == b.generation
    ensures a == b
  {
    AlwaysCounted(states, events, 0, i);
  }

  /** The identity was issued and then completed or revoked, or was superseded. */
  ghost predicate Spent(s: State, identity: Identity) {
    && identity.generation <= s.counter
    && (Holds(s, identity) ==> !s.lanes[identity.lane].state.Active?)
  }

  lemma SpentStays(s: State, e: Event, identity: Identity)
    requires Spent(s, identity)
    ensures Spent(Step(s, e), identity)
  {}

  lemma {:induction false} SpentForever(states: seq<State>, events: seq<Event>, i: nat, j: nat, identity: Identity)
    requires IsRun(states, events) && i <= j < |states| && Spent(states[i], identity)
    ensures Spent(states[j], identity)
    decreases j
  {
    if i < j {
      SpentForever(states, events, i, j - 1, identity);
      SpentStays(states[j - 1], events[j - 1], identity);
    }
  }

  /** A completed or revoked identity is never authorised in any later state. */
  lemma SettledNeverAuthorizedAgain(states: seq<State>, events: seq<Event>, i: nat, j: nat, identity: Identity)
    requires IsRun(states, events) && i <= j < |states|
    requires Holds(states[i], identity) && !states[i].lanes[identity.lane].state.Active?
    ensures !Authorized(states[j], identity)
  {
    AlwaysCounted(states, events, 0, i);
    SpentForever(states, events, i, j, identity);
  }

  /** Nor is one that the coordinator's lane has moved past. */
  lemma SupersededNeverAuthorized(states: seq<State>, events: seq<Event>, i: nat, j: nat, identity: Identity)
    requires IsRun(states, events) && i <= j < |states|
    requires identity.lane in states[i].lanes
             && states[i].lanes[identity.lane].identity.generation > identity.generation
    ensures !Authorized(states[j], identity)
  {
    AlwaysCounted(states, events, 0, i);
    SpentForever(states, events, i, j, identity);
  }

  // ---------- Succession after a revocation ----------

  /** The lane still shows the revoked execution, its stop not acknowledged, its
      drain ending no earlier than `drain`. */
  ghost predicate StillStopping(s: State, identity: Identity, drain: int) {
    && Holds(s, identity) && s.lanes[identity.lane].state.Revoked?
    && s.lanes[identity.lane].stopPending && s.lanes[identity.lane].drainUntil == drain
  }

  ghost predicate StillDraining(s: State, identity: Identity, drain: int) {
    && Holds(s, identity) && s.lanes[identity.lane].state.Revoked?
    && s.lanes[identity.lane].drainUntil == drain
  }

  lemma StoppingStays(s: State, e: Event, identity: Identity, drain: int)
    requires StillStopping(s, identity, drain)
    ensures e != AcknowledgeStop(identity) ==> StillStopping(Step(s, e), identity, drain)
    ensures StillDraining(Step(s, e), identity, drain)
    ensures !(Issues(s, e) && e.lane == identity.lane)
  {}

  lemma DrainingStays(s: State, e: Event, identity: Identity, drain: int)
    requires StillDraining(s, identity, drain)
    ensures Issues(s, e) && e.lane == identity.lane ==> drain <= s.now
    ensures !(Issues(s, e) && e.lane == identity.lane) ==> StillDraining(Step(s, e), identity, drain)
  {}

  /** Until the lane issues again, the revoked record stays, with its drain time;
      and without an acknowledgement its stop stays pending. */
  lemma {:induction false} RevokedRecordStays(states: seq<State>, events: seq<Event>, i: nat, j: nat,
                                              identity: Identity, drain: int)
    requires IsRun(states, events) && i <= j < |states|
    requires StillStopping(states[i], identity, drain)
    requires forall k :: i <= k < j ==> !(Issues(states[k], events[k]) && events[k].lane == identity.lane)
    ensures StillDraining(states[j], identity, drain)
    ensures (forall k :: i <= k < j ==> events[k] != AcknowledgeStop(identity)) ==>
            StillStopping(states[j], identity, drain)
    decreases j
  {
    if i < j {
      RevokedRecordStays(states, events, i, j - 1, identity, drain);
      assert !(Issues(states[j - 1], events[j - 1]) && events[j - 1].lane == identity.lane);
      DrainingStays(states[j - 1], events[j - 1], identity, drain);
      if forall k :: i <= k < j ==> events[k] != AcknowledgeStop(identity) {
        StoppingStays(states[j - 1], events[j - 1], identity, drain);
      }
    }
  }

  /** The lane's first issue after a revocation comes after the revoked
      execution's stop was acknowledged and its writers' drain time has passed. */
  lemma SuccessorWaits(states: seq<State>, events: seq<Event>, i: nat, j: nat, identity: Identity)
    requires IsRun(states, events) && i < j < |events|
    requires events[i] == Settle(identity, true) && Settles(states[i], identity, true)
    requires Issues(states[j], events[j]) && events[j].lane == identity.lane
    requires forall k :: i < k < j ==> !(Issues(states[k], events[k]) && events[k].lane == identity.lane)
    ensures exists k :: i < k < j && events[k] == AcknowledgeStop(identity)
    ensures states[j].now >= states[i].now + EXPIRED_WRITER_DRAIN_MS
    ensures IssuedBy(states[j], events[j]).generation > identity.generation
  {
    var drain := states[i].now + EXPIRED_WRITER_DRAIN_MS;
    assert states[i + 1] == Step(states[i], events[i]);
    assert StillStopping(states[i + 1], identity, drain);
    assert !StillStopping(states[j], identity, drain);
    RevokedRecordStays(states, events, i + 1, j, identity, drain);
    DrainingStays(states[j], events[j], identity, drain);
    AlwaysCounted(states, events, 0, j);
  }

  // ---------- I/O accounting ----------

  /** Noting bridge traffic never changes who is authorised, and bumps exactly one
      counter pair of the execution it names. */
  lemma NotingKeepsAuthority(s: State, identity: Identity, read: bool, bytes: int, other: Identity)
    ensures Authorized(Step(s, NoteIO(identity, read, bytes)), other) <==> Authorized(s, other)
    ensures forall l :: l in s.lanes && !(l == identity.lane && Holds(s, identity)) ==>
              Step(s, NoteIO(identity, read, bytes)).lanes[l] == s.lanes[l]
  {}
}
