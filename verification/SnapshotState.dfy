/** Accepted writes, snapshot pins and current pointers of one repository, with
    each durable transaction as one transition. A transaction that throws leaves
    everything as it was. */
module SnapshotState {
  import opened Commands
  import opened NetFacts
  import opened Options
  import opened Ordering
  import opened RefList

  datatype Pin = Pin(
    commitSha: string,
    treeSha: string,
    ref: string,
    beforeSha: string,
    firstSequence: int,
    acceptedAt: int,
    actor: string,
    source: Source,
    idempotencyKey: Option<string>,
    qualificationOwned: bool)

  datatype Tombstone = Tombstone(commitSha: string, releasedAt: int, qualificationOwned: bool)

  datatype Materialized = Materialized(commitSha: string, firstSequence: int, materializedAt: int)

  datatype Current = Current(ref: string, commitSha: string, sequence: int, updatedAt: int)

  datatype Head = Head(ref: string, beforeSha: string, afterSha: string, sequence: int)

  /** The journal key, as the pair it is printed from. */
  datatype JournalId = JournalId(sequence: int, ref: string)

  /** `materializedAt` is 0 until the entry is first projected. */
  datatype Entry = Entry(id: JournalId, sequence: int, fact: Fact, acceptedAt: int, materializedAt: int)

  datatype Lease = Lease(token: string, operation: string, expiresAt: int)

  datatype Repo = Repo(
    refs: seq<Ref>,
    refsVersion: int,
    deleting: bool,
    heads: map<string, Head>,
    journal: map<JournalId, Entry>,
    pins: map<string, Pin>,
    tombstones: map<string, Tombstone>,
    materialized: map<string, Materialized>,
    currents: map<string, Current>,
    pinVersion: int,
    leases: seq<Lease>)

  const EMPTY_REPO := Repo([], 0, false, map[], map[], map[], map[], map[], map[], 0, [])

  datatype PinInput = PinInput(
    commitSha: string,
    treeSha: string,
    materializedAt: int,
    advanceCurrent: bool,
    qualificationOwned: bool)

  datatype PinFact = PinFact(
    ref: string,
    beforeSha: string,
    commitSha: string,
    actor: string,
    source: Source,
    idempotencyKey: Option<string>)

  predicate ValidPinnedSha(sha: string) {
    ValidOid(sha) && sha != ZERO_OID
  }

  function PinFactOf(f: Fact): PinFact {
    PinFact(f.ref, f.beforeSha, f.afterSha, f.context.actor, f.context.source, f.context.idempotencyKey)
  }

  // ---------- The current pointer ----------

  /** Two values for one ref at one sequence: the transaction throws. */
  predicate PointerConflict(s: Repo, ref: string, commitSha: string, sequence: int) {
    ref in s.currents && s.currents[ref].sequence == sequence && s.currents[ref].commitSha != commitSha
  }

  predicate PointerMoves(s: Repo, ref: string, sequence: int) {
    ref in s.currents ==> sequence > s.currents[ref].sequence
  }

  function AdvancePointer(s: Repo, ref: string, commitSha: string, sequence: int, at: int): Repo {
    if PointerMoves(s, ref, sequence)
    then s.(currents := s.currents[ref := Current(ref, commitSha, sequence, at)])
    else s
  }

  // ---------- Pins ----------

  predicate PinRefused(s: Repo, f: PinFact, input: PinInput) {
    || f.commitSha != input.commitSha
    || !ValidPinnedSha(input.treeSha)
    || (f.commitSha in s.pins
        && (s.pins[f.commitSha].treeSha != input.treeSha || s.pins[f.commitSha].commitSha != f.commitSha))
  }

  function FreshPin(sequence: int, f: PinFact, input: PinInput): Pin {
    Pin(f.commitSha, input.treeSha, f.ref, f.beforeSha, sequence, input.materializedAt,
        f.actor, f.source, f.idempotencyKey,
        input.qualificationOwned)
  }

  /** The state after a pin is retained, pointer aside. */
  function Pinned(s: Repo, sequence: int, f: PinFact, input: PinInput): Repo {
    s.(pins := if f.commitSha in s.pins then s.pins else s.pins[f.commitSha := FreshPin(sequence, f, input)],
       pinVersion := if f.commitSha in s.pins then s.pinVersion else s.pinVersion + 1,
       tombstones := s.tombstones - {f.commitSha},
       materialized :=
         if f.commitSha in s.materialized then s.materialized
         else s.materialized[f.commitSha := Materialized(f.commitSha, sequence, input.materializedAt)])
  }

  datatype Retained = Kept | Refused | Threw

  function RetainOutcome(s: Repo, sequence: int, f: PinFact, input: PinInput): Retained {
    if PinRefused(s, f, input) then Refused
    else if input.advanceCurrent && PointerConflict(s, f.ref, f.commitSha, sequence) then Threw
    else Kept
  }

  function RetainStep(s: Repo, sequence: int, f: PinFact, input: PinInput): Repo {
    if !RetainOutcome(s, sequence, f, input).Kept? then s
    else
      var pinned := Pinned(s, sequence, f, input);
      if input.advanceCurrent
      then AdvancePointer(pinned, f.ref, f.commitSha, sequence, input.materializedAt)
      else pinned
  }

  // ---------- Recording accepted writes ----------

  datatype Recorded = Recorded(state: Repo, retained: bool, threw: bool)

  predicate PinsFact(pin: Option<PinInput>, f: Fact) {
    pin.Some? && f.afterSha == pin.value.commitSha
  }

  predicate JournalConflict(s: Repo, sequence: int, f: Fact) {
    var id := JournalId(sequence, f.ref);
    id in s.journal &&
    (s.journal[id].sequence != sequence || s.journal[id].fact.ref != f.ref
     || s.journal[id].fact.beforeSha != f.beforeSha || s.journal[id].fact.afterSha != f.afterSha)
  }

  function WithHead(s: Repo, sequence: int, f: Fact): Repo {
    s.(heads := s.heads[f.ref := Head(f.ref, f.beforeSha, f.afterSha, sequence)])
  }

  function WithEntry(s: Repo, sequence: int, f: Fact, acceptedAt: int): Repo {
    var id := JournalId(sequence, f.ref);
    if id in s.journal then s else s.(journal := s.journal[id := Entry(id, sequence, f, acceptedAt, 0)])
  }

  function RecordOne(r: Recorded, sequence: int, f: Fact, acceptedAt: int, journal: bool,
                     pin: Option<PinInput>): Recorded {
    if r.threw then r
    else
      var headed := WithHead(r.state, sequence, f);
      var outcome := if PinsFact(pin, f) then RetainOutcome(headed, sequence, PinFactOf(f), pin.value) else Kept;
      var pinned := if PinsFact(pin, f) then RetainStep(headed, sequence, PinFactOf(f), pin.value) else headed;
      var threw := outcome.Threw? || (journal && JournalConflict(pinned, sequence, f));
      Recorded(if journal && !threw then WithEntry(pinned, sequence, f, acceptedAt) else pinned,
               r.retained && !outcome.Refused?, threw)
  }

  function RecordAll(s: Repo, sequence: int, facts: seq<Fact>, acceptedAt: int, journal: bool,
                     pin: Option<PinInput>): Recorded {
    if facts == [] then Recorded(s, true, false)
    else
      RecordOne(RecordAll(s, sequence, facts[..|facts| - 1], acceptedAt, journal, pin),
                sequence, facts[|facts| - 1], acceptedAt, journal, pin)
  }

  /** A pin that names no accepted write is a caller's mistake: it throws. */
  predicate PinFits(facts: seq<Fact>, pin: Option<PinInput>) {
    pin.Some? ==>
      && ValidPinnedSha(pin.value.commitSha) && ValidPinnedSha(pin.value.treeSha)
      && exists i :: 0 <= i < |facts| && facts[i].afterSha == pin.value.commitSha
  }

  function RecordFacts(s: Repo, sequence: int, facts: seq<Fact>, acceptedAt: int, journal: bool,
                       pin: Option<PinInput>): Recorded {
    if facts == [] then Recorded(s, true, false)
    else if !PinFits(facts, pin) then Recorded(s, true, true)
    else RecordAll(s, sequence, facts, acceptedAt, journal, pin)
  }

  // ---------- Accepting a push ----------

  datatype Push = Push(
    expectedVersion: int,
    commands: seq<ReceiveCommand>,
    facts: seq<Fact>,
    acceptedAt: int,
    journal: bool,
    pin: Option<PinInput>)

  /** The push is applied once; a replay finds its own result in place. */
  predicate PushApplies(s: Repo, p: Push) {
    || s.refsVersion == p.expectedVersion
    || (s.refsVersion == p.expectedVersion + 1 && ApplyReceiveCommands(s.refs, p.commands) == s.refs)
  }

  function AcceptRecorded(s: Repo, p: Push): Recorded {
    RecordFacts(s.(refs := ApplyReceiveCommands(s.refs, p.commands), refsVersion := p.expectedVersion + 1),
                p.expectedVersion + 1, p.facts, p.acceptedAt, p.journal, p.pin)
  }

  function AcceptStep(s: Repo, p: Push): Repo {
    if PushApplies(s, p) && !AcceptRecorded(s, p).threw then AcceptRecorded(s, p).state else s
  }

  // ---------- Projections ----------

  function LiveLeases(leases: seq<Lease>, now: int): seq<Lease> {
    if leases == [] then []
    else
      var last := leases[|leases| - 1];
      LiveLeases(leases[..|leases| - 1], now) + if last.expiresAt > now then [last] else []
  }

  /** An empty token is as good as none. */
  predicate Given(token: Option<string>) {
    token.Some? && token.value != ""
  }

  predicate LeaseActive(s: Repo, token: Option<string>, now: int) {
    Given(token) && exists i :: 0 <= i < |s.leases| && s.leases[i].expiresAt > now && Projects(s.leases[i], token.value)
  }

  predicate Projects(lease: Lease, token: string) {
    lease.token == token && lease.operation == "snapshot-projection"
  }

  /** Checking a lease also drops the expired ones, for good. */
  function LeasesChecked(s: Repo, token: Option<string>, now: int): Repo {
    if Given(token) then s.(leases := LiveLeases(s.leases, now)) else s
  }

  datatype Snapshot = Snapshot(treeSha: string, at: int, token: Option<string>, now: int)

  datatype Installation = Installed(created: bool) | LeaseExpired | InvalidSnapshot

  predicate NeedsLease(s: Repo, commitSha: string) {
    commitSha != ZERO_OID && commitSha !in s.pins
  }

  function InstallInput(f: PinFact, snap: Snapshot): PinInput {
    PinInput(f.commitSha, snap.treeSha, snap.at, false, false)
  }

  /** A deletion needs no snapshot; anything else needs its pin or a live lease. */
  function InstallOutcome(s: Repo, f: PinFact, snap: Snapshot): Installation {
    if f.commitSha == ZERO_OID then Installed(false)
    else if !ValidPinnedSha(snap.treeSha) then InvalidSnapshot
    else if NeedsLease(s, f.commitSha) && !LeaseActive(s, snap.token, snap.now) then LeaseExpired
    else if PinRefused(s, f, InstallInput(f, snap)) then InvalidSnapshot
    else Installed(f.commitSha !in s.materialized)
  }

  function InstallStep(s: Repo, sequence: int, f: PinFact, snap: Snapshot): Repo {
    if f.commitSha == ZERO_OID || !ValidPinnedSha(snap.treeSha) then s
    else
      var checked := if NeedsLease(s, f.commitSha) then LeasesChecked(s, snap.token, snap.now) else s;
      if InstallOutcome(s, f, snap).Installed? then Pinned(checked, sequence, f, InstallInput(f, snap)) else checked
  }

  datatype Projection =
    | Projected(created: bool, advanced: bool, current: Current)
    | RepositoryDeleting
    | Stale
    | Expired
    | Unusable
    | ProjectionThrew

  /** What follows an installation, once the entry itself is marked. */
  function PointTo(s: Repo, ref: string, commitSha: string, sequence: int, at: int, created: bool): Projection {
    if PointerConflict(s, ref, commitSha, sequence) then ProjectionThrew
    else Projected(created, PointerMoves(s, ref, sequence),
                   AdvancePointer(s, ref, commitSha, sequence, at).currents[ref])
  }

  predicate EntryMatches(s: Repo, id: JournalId, commitSha: string) {
    id in s.journal && s.journal[id].fact.afterSha == commitSha
  }

  function Marked(s: Repo, id: JournalId, at: int): Repo
    requires id in s.journal
  {
    if s.journal[id].materializedAt == 0
    then s.(journal := s.journal[id := s.journal[id].(materializedAt := at)])
    else s
  }

  /** Projects one journal entry: the state before the pointer, if it gets there. */
  function ProjectInstalled(s: Repo, id: JournalId, snap: Snapshot): Repo
    requires id in s.journal
  {
    Marked(InstallStep(s, s.journal[id].sequence, PinFactOf(s.journal[id].fact), snap), id, snap.at)
  }

  function ProjectOutcome(s: Repo, id: JournalId, commitSha: string, snap: Snapshot): Projection {
    if s.deleting then RepositoryDeleting
    else if !EntryMatches(s, id, commitSha) then ProjectionThrew
    else
      var entry := s.journal[id];
      match InstallOutcome(s, PinFactOf(entry.fact), snap)
      case LeaseExpired => Expired
      case InvalidSnapshot => Unusable
      case Installed(created) => PointTo(s, entry.fact.ref, commitSha, entry.sequence, snap.at, created)
  }

  function ProjectStep(s: Repo, id: JournalId, commitSha: string, snap: Snapshot): Repo {
    match ProjectOutcome(s, id, commitSha, snap)
    case Projected(_, _, _) =>
      var entry := s.journal[id];
      AdvancePointer(ProjectInstalled(s, id, snap), entry.fact.ref, commitSha, entry.sequence, snap.at)
    case Expired => InstallStep(s, s.journal[id].sequence, PinFactOf(s.journal[id].fact), snap)
    case Unusable => InstallStep(s, s.journal[id].sequence, PinFactOf(s.journal[id].fact), snap)
    case _ => s
  }

  // ---------- Reconciliation ----------

  predicate SequenceMatches(s: Repo, ref: string, sequence: int) {
    if ref in s.heads && s.heads[ref].afterSha == Authoritative(s.refs, ref)
    then s.heads[ref].sequence == sequence
    else s.refsVersion == sequence
  }

  function ReconcileFact(ref: string, commitSha: string): PinFact {
    PinFact(ref, ZERO_OID, commitSha, "reconcile", Reconcile, None)
  }

  function ReconcileOutcome(s: Repo, ref: string, commitSha: string, sequence: int, snap: Snapshot): Projection {
    if s.deleting then RepositoryDeleting
    else if Authoritative(s.refs, ref) != commitSha || !SequenceMatches(s, ref, sequence) then Stale
    else
      match InstallOutcome(s, ReconcileFact(ref, commitSha), snap)
      case LeaseExpired => Expired
      case InvalidSnapshot => Unusable
      case Installed(created) => PointTo(s, ref, commitSha, sequence, snap.at, created)
  }

  function ReconcileStep(s: Repo, ref: string, commitSha: string, sequence: int, snap: Snapshot): Repo {
    match ReconcileOutcome(s, ref, commitSha, sequence, snap)
    case Projected(_, _, _) =>
      AdvancePointer(InstallStep(s, sequence, ReconcileFact(ref, commitSha), snap), ref, commitSha, sequence, snap.at)
    case Expired => InstallStep(s, sequence, ReconcileFact(ref, commitSha), snap)
    case Unusable => InstallStep(s, sequence, ReconcileFact(ref, commitSha), snap)
    case _ => s
  }

  datatype ReconcilePlan =
    | UpToDate(current: Current)
    | Deliver(entry: Entry)
    | HeadOnly(ref: string, afterSha: string, sequence: int, beforeSha: string)
    | Unborn(unbornRef: string)

  function PlanSequence(s: Repo, ref: string): int {
    if ref in s.heads && s.heads[ref].afterSha == Authoritative(s.refs, ref)
    then s.heads[ref].sequence
    else s.refsVersion
  }

  predicate Deliverable(s: Repo, id: JournalId, ref: string, sequence: int, afterSha: string) {
    && id in s.journal && s.journal[id].sequence == sequence
    && s.journal[id].fact.ref == ref && s.journal[id].fact.afterSha == afterSha
  }

  function PlanFor(s: Repo, ref: string): ReconcilePlan {
    var afterSha := Authoritative(s.refs, ref);
    var sequence := PlanSequence(s, ref);
    var id := JournalId(sequence, ref);
    if ref !in s.heads && afterSha == ZERO_OID then Unborn(ref)
    else if ref in s.currents && s.currents[ref].commitSha == afterSha && s.currents[ref].sequence == sequence
    then UpToDate(s.currents[ref])
    else if Deliverable(s, id, ref, sequence, afterSha) then Deliver(s.journal[id])
    else HeadOnly(ref, afterSha, sequence, if ref in s.currents then s.currents[ref].commitSha else ZERO_OID)
  }

  // ---------- Release ----------

  datatype Release = Released | DeletingRepository | RefReferenced

  predicate Referenced(refs: seq<Ref>, commitSha: string) {
    exists i :: 0 <= i < |refs| && refs[i].oid == commitSha
  }

  function ReleaseOutcome(s: Repo, commitSha: string): Release {
    if s.deleting then DeletingRepository
    else if Referenced(s.refs, commitSha) then RefReferenced
    else Released
  }

  function ReleaseStep(s: Repo, commitSha: string, now: int, legacyExists: bool, qualificationOwned: bool): Repo {
    if !ReleaseOutcome(s, commitSha).Released? then s
    else if commitSha in s.pins then
      var owned := s.pins[commitSha].qualificationOwned || qualificationOwned;
      s.(pins := s.pins - {commitSha},
         materialized := s.materialized - {commitSha},
         tombstones := s.tombstones[commitSha := Tombstone(commitSha, now, owned)])
    else if commitSha !in s.tombstones && legacyExists then
      s.(tombstones := s.tombstones[commitSha := Tombstone(commitSha, now, qualificationOwned)])
    else s
  }

  datatype Resolution = PinnedSnapshot(pin: Pin) | ReleasedSnapshot | Legacy

  function Resolve(s: Repo, commitSha: string): Resolution {
    if commitSha in s.pins then PinnedSnapshot(s.pins[commitSha])
    else if commitSha in s.tombstones then ReleasedSnapshot
    else Legacy
  }

  // ---------- All transitions ----------

  datatype Event =
    | Accept(push: Push)
    | SetRefs(refs: seq<Ref>)
    | Project(id: JournalId, commitSha: string, snap: Snapshot)
    | ReconcileHead(ref: string, headSha: string, sequence: int, headSnap: Snapshot)
    | ReleasePin(releasedSha: string, now: int, legacyExists: bool, qualificationOwned: bool)
    | DropEntry(dropped: JournalId)
    | SetLeases(leases: seq<Lease>)
    | BeginDeletion

  function Step(s: Repo, e: Event): Repo {
    match e
    case Accept(push) => AcceptStep(s, push)
    case SetRefs(refs) => if s.deleting then s else s.(refs := refs, refsVersion := s.refsVersion + 1)
    case Project(id, commitSha, snap) => ProjectStep(s, id, commitSha, snap)
    case ReconcileHead(ref, headSha, sequence, headSnap) => ReconcileStep(s, ref, headSha, sequence, headSnap)
    case ReleasePin(commitSha, now, legacyExists, qualificationOwned) =>
      ReleaseStep(s, commitSha, now, legacyExists, qualificationOwned)
    case DropEntry(id) => if s.deleting then s else s.(journal := s.journal - {id})
    case SetLeases(leases) => s.(leases := leases)
    case BeginDeletion => s.(deleting := true)
  }
}
