/** The host that runs native executions in one container. Each lifecycle action
    is serialised, but the host may die between its durable effects. */
module ProcessorHost {
  import opened Options
  import opened Execution

  datatype SlotRecord = SlotRecord(identity: Identity, state: ExecutionState, drainUntil: int)

  /** How installing the bridge and starting the container went. `touched` says
      whether the container was rebound before the failure. */
  datatype Configuration = Configured | Threw(touched: bool) | Interrupted(touched: bool)

  datatype HostState = HostState(
    slot: Option<SlotRecord>,
    revokedThrough: int,
    deleting: bool,
    running: bool,
    tenants: set<int>,  // generations bound to the container since it last started
    aborts: map<int, bool>,
    alarm: Option<int>)

  const FRESH_HOST := HostState(None, 0, false, false, {}, map[], None)

  // ---------- One action, cut short after some of its durable effects ----------

  function Crashed(s: HostState): HostState {
    s.(aborts := map[])
  }

  function Destroyed(s: HostState): HostState {
    s.(running := false, tenants := {})
  }

  /** Before admission, a container left over from a revoked execution is destroyed. */
  function Cleaned(s: HostState): HostState {
    if s.slot.Some? && s.slot.value.state.Revoked? && s.running then Destroyed(s) else s
  }

  predicate Admissible(s: HostState, identity: Identity, now: int) {
    && identity.expiresAt > now
    && !s.deleting
    && s.revokedThrough < identity.generation
    && (s.slot.Some? ==> s.slot.value.identity.generation < identity.generation && !s.slot.value.state.Active?)
  }

  function Bound(s: HostState, generation: int): HostState {
    s.(running := true, tenants := s.tenants + {generation})
  }

  function Configure(s: HostState, generation: int, outcome: Configuration): HostState {
    match outcome
    case Configured => Bound(s, generation)
    case Threw(touched) =>
      var bound := if touched then Bound(s, generation) else s;
      bound.(aborts := s.aborts[generation := true])
    case Interrupted(touched) => Crashed(if touched then Bound(s, generation) else s)
  }

  function Admit(s: HostState, identity: Identity): HostState {
    s.(slot := Some(SlotRecord(identity, Active, 0)))
  }

  function StartStep(s: HostState, identity: Identity, now: int, phases: nat, outcome: Configuration): HostState {
    if phases == 0 then Crashed(s)
    else if phases == 1 then Crashed(Cleaned(s))
    else if !Admissible(Cleaned(s), identity, now) then Cleaned(s)
    else
      var admitted := Admit(Cleaned(s), identity);
      if phases == 2 then Crashed(admitted)
      else
        var armed := if identity.lane.Maintenance? then admitted.(alarm := Some(identity.expiresAt)) else admitted;
        if phases == 3 then Crashed(armed)
        else Configure(armed.(aborts := armed.aborts[identity.generation := false]), identity.generation, outcome)
  }

  function FinishStep(s: HostState, identity: Identity, phases: nat): HostState {
    if phases == 0 then Crashed(s)
    else
      var settled :=
        if s.slot.Some? && s.slot.value.state.Active? && SameExecution(s.slot.value.identity, identity)
        then s.(slot := Some(s.slot.value.(state := Completed)))
        else s;
      settled.(aborts := settled.aborts - {identity.generation})
  }

  /** A stop concerns this host unless the slot is newer, or holds another
      execution of the same generation. */
  predicate StopApplies(s: HostState, identity: Identity) {
    s.slot.None?
    || s.slot.value.identity.generation < identity.generation
    || SameExecution(s.slot.value.identity, identity)
  }

  /** Only a stop for the very execution in the slot, or for an empty slot, kills. */
  predicate StopKills(s: HostState, identity: Identity) {
    s.slot.None? || SameExecution(s.slot.value.identity, identity)
  }

  function Max(a: int, b: int): int {
    if a < b then b else a
  }

  function StopRecorded(s: HostState, identity: Identity): HostState {
    if !StopApplies(s, identity) then s
    else
      var fenced := s.(revokedThrough := Max(identity.generation, s.revokedThrough));
      if StopKills(s, identity) then fenced.(slot := Some(SlotRecord(identity, Revoked, 0))) else fenced
  }

  function StopStep(s: HostState, identity: Identity, phases: nat): HostState {
    if phases == 0 then Crashed(s)
    else
      var recorded := StopRecorded(s, identity);
      if phases == 1 then Crashed(recorded)
      else if !StopKills(s, identity) then recorded
      else
        var killed := if s.running then Destroyed(recorded) else recorded;
        killed.(aborts := killed.aborts - {identity.generation})
  }

  function DeleteRecorded(s: HostState): HostState {
    if s.slot.None? then s
    else
      var generation := s.slot.value.identity.generation;
      s.(slot := Some(s.slot.value.(state := Revoked)),
         aborts := if generation in s.aborts then s.aborts[generation := true] else s.aborts)
  }

  function DeleteStep(s: HostState, phases: nat): HostState {
    if phases == 0 then Crashed(s)
    else
      var fenced := s.(deleting := true);
      if phases == 1 then Crashed(fenced)
      else if phases == 2 then Crashed(DeleteRecorded(fenced))
      else
        var revoked := DeleteRecorded(fenced);
        if s.running then Destroyed(revoked) else revoked
  }

  datatype Event =
    | Start(identity: Identity, now: int, phases: nat, outcome: Configuration)
    | Finish(identity: Identity, phases: nat)
    | Stop(identity: Identity, phases: nat)
    | Delete(phases: nat)
    | ContainerExit

  function Step(s: HostState, e: Event): HostState {
    match e
    case Start(identity, now, phases, outcome) => StartStep(s, identity, now, phases, outcome)
    case Finish(identity, phases) => FinishStep(s, identity, phases)
    case Stop(identity, phases) => StopStep(s, identity, phases)
    case Delete(phases) => DeleteStep(s, phases)
    case ContainerExit => Destroyed(s)
  }

  // ---------- The host object ----------

  datatype StartResult = Refused | Signal | Failed | Lost

  class Host {
    var slot: Option<SlotRecord>
    var revokedThrough: int
    var deleting: bool
    var running: bool
    var tenants: set<int>
    var aborts: map<int, bool>
    var alarm: Option<int>

    ghost function State(): HostState
      reads this
    {
      HostState(slot, revokedThrough, deleting, running, tenants, aborts, alarm)
    }

    constructor ()
      ensures State() == FRESH_HOST
    {
      slot, revokedThrough, deleting := None, 0, false;
      running, tenants, aborts, alarm := false, {}, map[], None;
    }

    /** The host process dies: memory is lost, durable fields and the container are not. */
    method Crash()
      modifies this`aborts
      ensures State() == Crashed(old(State()))
    {
      aborts := map[];
    }

    method DestroyContainer()
      modifies this`running, this`tenants
      ensures State() == Destroyed(old(State()))
    {
      running, tenants := false, {};
    }

    method BindContainer(generation: int)
      modifies this`running, this`tenants
      ensures State() == Bound(old(State()), generation)
    {
      running := true;
      tenants := tenants + {generation};
    }

    method RunConfigure(generation: int, outcome: Configuration) returns (result: StartResult)
      modifies this`running, this`tenants, this`aborts
      ensures State() == Configure(old(State()), generation, outcome)
      ensures result == match outcome { case Configured => Signal case Threw(_) => Failed case Interrupted(_) => Lost }
    {
      match outcome
      case Configured =>
        BindContainer(generation);
        result := Signal;
      case Threw(touched) =>
        if touched { BindContainer(generation); }
        aborts := aborts[generation := true];
        result := Failed;
      case Interrupted(touched) =>
        if touched { BindContainer(generation); }
        Crash();
        result := Lost;
    }

    method StartSlot(identity: Identity, now: int, phases: nat, outcome: Configuration) returns (result: StartResult)
      modifies this
      ensures State() == StartStep(old(State()), identity, now, phases, outcome)
      ensures result.Refused? <==> phases >= 2 && !Admissible(Cleaned(old(State())), identity, now)
    {
      if phases == 0 {
        Crash();
        return Lost;
      }
      if slot.Some? && slot.value.state.Revoked? && running {
        DestroyContainer();
      }
      if phases == 1 {
        Crash();
        return Lost;
      }
      if identity.expiresAt <= now || deleting || revokedThrough >= identity.generation
         || (slot.Some? && (identity.generation <= slot.value.identity.generation || slot.value.state.Active?))
      {
        return Refused;
      }
      slot := Some(SlotRecord(identity, Active, 0));
      if phases == 2 {
        Crash();
        return Lost;
      }
      if identity.lane.Maintenance? {
        alarm := Some(identity.expiresAt);
      }
      if phases == 3 {
        Crash();
        return Lost;
      }
      aborts := aborts[identity.generation := false];
      result := RunConfigure(identity.generation, outcome);
    }

    method FinishSlot(identity: Identity, phases: nat)
      modifies this
      ensures State() == FinishStep(old(State()), identity, phases)
    {
      if phases == 0 {
        Crash();
        return;
      }
      if slot.Some? && slot.value.state.Active? && SameExecution(slot.value.identity, identity) {
        slot := Some(slot.value.(state := Completed));
      }
      aborts := aborts - {identity.generation};
    }

    method StopSlot(identity: Identity, phases: nat) returns (stopped: bool)
      modifies this
      ensures State() == StopStep(old(State()), identity, phases)
      ensures phases >= 2 ==> (stopped <==> StopKills(old(State()), identity))
    {
      stopped := false;
      if phases == 0 {
        Crash();
        return;
      }
      if slot.Some? && slot.value.identity.generation > identity.generation {
        if phases == 1 { Crash(); }
        return;
      }
      if slot.Some? && slot.value.identity.generation == identity.generation
          && !SameExecution(slot.value.identity, identity)
      {
        if phases == 1 { Crash(); }
        return;
      }
      revokedThrough := Max(identity.generation, revokedThrough);
      if slot.Some? && slot.value.identity.generation < identity.generation {
        if phases == 1 { Crash(); }
        return;
      }
      slot := Some(SlotRecord(identity, Revoked, 0));
      if phases == 1 {
        Crash();
        return;
      }
      if identity.generation in aborts {
        aborts := aborts[identity.generation := true];
      }
      if running {
        DestroyContainer();
      }
      aborts := aborts - {identity.generation};
      stopped := true;
    }

    method DeleteSlot(phases: nat)
      modifies this
      ensures State() == DeleteStep(old(State()), phases)
    {
      if phases == 0 {
        Crash();
        return;
      }
      deleting := true;
      if phases == 1 {
        Crash();
        return;
      }
      if slot.Some? {
        var generation := slot.value.identity.generation;
        if generation in aborts {
          aborts := aborts[generation := true];
        }
        slot := Some(slot.value.(state := Revoked));
      }
      if phases == 2 {
        Crash();
        return;
      }
      if running {
        DestroyContainer();
      }
    }
  }

  // ---------- Runs ----------

  /** Events arrive in any order and number: messages may be late, repeated or
      overtaken, and each action may be cut short. */
  ghost predicate IsRun(states: seq<HostState>, events: seq<Event>) {
    && |states| == |events| + 1
    && states[0] == FRESH_HOST
    && forall i :: 0 <= i < |events| ==> states[i + 1] == Step(states[i], events[i])
  }

  /** The event admits its execution: the admission transaction commits. */
  ghost predicate Admits(s: HostState, e: Event) {
    e.Start? && e.phases >= 2 && Admissible(Cleaned(s), e.identity, e.now)
  }

  // ---------- Fencing by generation ----------

  /** No execution of generation `g` or below can be admitted any more. */
  ghost predicate Fenced(s: HostState, g: int) {
    s.revokedThrough >= g || (s.slot.Some? && s.slot.value.identity.generation >= g)
  }

  lemma FencedRefuses(s: HostState, e: Event, g: int)
    requires Fenced(s, g) && e.Start? && e.identity.generation <= g
    ensures !Admits(s, e)
  {}

  lemma FencedStays(s: HostState, e: Event, g: int)
    requires Fenced(s, g)
    ensures Fenced(Step(s, e), g)
  {}

  lemma AdmissionFences(s: HostState, e: Event)
    requires Admits(s, e)
    ensures Fenced(Step(s, e), e.identity.generation)
  {}

  /** A recorded stop fences its generation even if it takes no other effect. */
  lemma StopFences(s: HostState, e: Event)
    requires e.Stop? && e.phases >= 1
    ensures Fenced(Step(s, e), e.identity.generation)
  {}

  lemma {:induction false} FencedForever(states: seq<HostState>, events: seq<Event>, i: nat, j: nat, g: int)
    requires IsRun(states, events) && i <= j < |states| && Fenced(states[i], g)
    ensures Fenced(states[j], g)
    decreases j
  {
    if i < j {
      FencedForever(states, events, i, j - 1, g);
      FencedStays(states[j - 1], events[j - 1], g);
    }
  }

  /** Admitted generations strictly increase over any run. */
  lemma AdmittedGenerationsIncrease(states: seq<HostState>, events: seq<Event>, i: nat, j: nat)
    requires IsRun(states, events) && i < j < |events|
    requires Admits(states[i], events[i]) && Admits(states[j], events[j])
    ensures events[i].identity.generation < events[j].identity.generation
  {
    var g := events[i].identity.generation;
    AdmissionFences(states[i], events[i]);
    FencedForever(states, events, i + 1, j, g);
    if events[j].identity.generation <= g { FencedRefuses(states[j], events[j], g); }
  }

  /** Once a stop has been recorded, its execution is never admitted afterwards,
      even if the stop came before the start. */
  lemma StoppedIsNeverAdmitted(states: seq<HostState>, events: seq<Event>, i: nat, j: nat)
    requires IsRun(states, events) && i < j < |events|
    requires events[i].Stop? && events[i].phases >= 1
    requires events[j].Start? && events[j].identity == events[i].identity
    ensures !Admits(states[j], events[j])
  {
    var g := events[i].identity.generation;
    StopFences(states[i], events[i]);
    FencedForever(states, events, i + 1, j, g);
    FencedRefuses(states[j], events[j], g);
  }

  // ---------- Deletion ----------

  lemma {:induction false} DeletionFenceStays(states: seq<HostState>, events: seq<Event>, i: nat, j: nat)
    requires IsRun(states, events) && i <= j < |states| && states[i].deleting
    ensures states[j].deleting
    decreases j
  {
    if i < j {
      DeletionFenceStays(states, events, i, j - 1);
      assert states[j] == Step(states[j - 1], events[j - 1]);
    }
  }

  /** After the deletion fence is stored, no start is ever admitted again. */
  lemma DeletedAdmitsNothing(states: seq<HostState>, events: seq<Event>, i: nat, j: nat)
    requires IsRun(states, events) && i < j < |events|
    requires events[i].Delete? && events[i].phases >= 1
    ensures !Admits(states[j], events[j])
  {
    assert states[i + 1] == Step(states[i], events[i]);
    DeletionFenceStays(states, events, i + 1, j);
  }

  // ---------- Processes left behind by a crash ----------

  /** The slot records generation `g` as revoked. */
  ghost predicate RevokedIn(s: HostState, g: int) {
    s.slot.Some? && s.slot.value.state.Revoked? && s.slot.value.identity.generation == g
  }

  /** Only generations up to the slot's live in the container, and an idle
      container hosts none. */
  ghost predicate TenantsKnown(s: HostState) {
    && (!s.running ==> s.tenants == {})
    && (forall g :: g in s.tenants ==> s.slot.Some? && g <= s.slot.value.identity.generation)
  }

  lemma TenantsKnownStays(s: HostState, e: Event)
    requires TenantsKnown(s)
    ensures TenantsKnown(Step(s, e))
  {}

  lemma {:induction false} TenantsAlwaysKnown(states: seq<HostState>, events: seq<Event>, i: nat)
    requires IsRun(states, events) && i < |states|
    ensures TenantsKnown(states[i])
  {
    if i > 0 {
      TenantsAlwaysKnown(states, events, i - 1);
      TenantsKnownStays(states[i - 1], events[i - 1]);
    }
  }

  /** Over any run: a stop that empties the container ends the execution in the
      slot, which is the one it names; the slot held no other generation, and no
      process of a later generation was in the container. */
  lemma StopDestroysOnlyItsOwn(states: seq<HostState>, events: seq<Event>, i: nat)
    requires IsRun(states, events) && i < |events| && events[i].Stop?
    requires states[i + 1].running != states[i].running || states[i + 1].tenants != states[i].tenants
    ensures states[i + 1].slot == Some(SlotRecord(events[i].identity, Revoked, 0))
    ensures states[i].slot.Some? ==> states[i].slot.value.identity == events[i].identity
    ensures forall g :: g in states[i].tenants ==> g <= events[i].identity.generation
  {
    TenantsAlwaysKnown(states, events, i);
    assert states[i + 1] == Step(states[i], events[i]);
  }

  /** A generation seen revoked can only still be in the container while the slot
      itself says that it is revoked. */
  ghost predicate Quarantined(s: HostState, g: int) {
    && s.slot.Some? && g <= s.slot.value.identity.generation
    && (g in s.tenants ==> RevokedIn(s, g))
  }

  lemma RevokedIsQuarantined(s: HostState, g: int)
    requires RevokedIn(s, g)
    ensures Quarantined(s, g)
  {}

  lemma QuarantineStays(s: HostState, e: Event, g: int)
    requires TenantsKnown(s) && Quarantined(s, g)
    ensures Quarantined(Step(s, e), g)
  {}

  lemma {:induction false} QuarantinedForever(states: seq<HostState>, events: seq<Event>, k: nat, j: nat, g: int)
    requires IsRun(states, events) && k <= j < |states| && RevokedIn(states[k], g)
    ensures Quarantined(states[j], g)
    decreases j
  {
    if k == j {
      RevokedIsQuarantined(states[j], g);
    } else {
      QuarantinedForever(states, events, k, j - 1, g);
      TenantsAlwaysKnown(states, events, j - 1);
      QuarantineStays(states[j - 1], events[j - 1], g);
    }
  }

  /** Crashes between the durable revoke and the destroy notwithstanding, when a
      generation is admitted no process of a generation ever revoked is left. */
  lemma NoRevokedProcessAtAdmission(states: seq<HostState>, events: seq<Event>, k: nat, j: nat, g: int)
    requires IsRun(states, events) && k <= j < |events|
    requires Admits(states[j], events[j]) && RevokedIn(states[k], g)
    ensures g !in Cleaned(states[j]).tenants
    ensures g < events[j].identity.generation
  {
    QuarantinedForever(states, events, k, j, g);
    TenantsAlwaysKnown(states, events, j);
  }
}
