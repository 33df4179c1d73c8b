# Verified model of a Git repository host

The repository hosts Git repositories on durable objects, with a container that
runs `git` for pushes and packing. This project models the parts whose
correctness is not visible in any one function, and proves what they are for:

* **Receive planning** (`PhysicalNode`, `BaseForest`, `Topology`,
  `PlanEntries`, `PlanDependencies`, `PlanAttribution`, `PhysicalGraph`,
  `PlanOrder`, `Closure`, `ClosureMeaning`, `Manifest`, `ManifestMeaning`). A push comes with a plan: a forest of
  delta-encoded pack entries with an order, an attribution of entries to required
  objects, and counts. The validator's local checks are shown to be exactly
  global properties of the forest, and the independent walk over the logical
  object graph is shown to compute the least closure, so that an accepted plan
  and an accepted proof together leave nothing out.
* **Execution fencing** (`Execution`, `ProcessorHost`, `Admission`, `Coordinator`,
  `Succession`, `Fencing`, `SystemRuns`).
  The coordinator that issues execution generations and the host that runs them,
  each as a class whose methods make one transition, with crashes between a
  host's durable effects; then both together under a network that delays,
  repeats and reorders messages.
* **Accepted writes and snapshots** (`NetFacts`, `RefList`, `SnapshotState`,
  `SnapshotStore`, `SnapshotEffects`, `ProjectionEffects`, `PushReplay`,
  `SnapshotPlans`, `SnapshotRuns`, `SnapshotProvenance`, `SnapshotProjection`,
  `SnapshotBatches`, `SnapshotPushes`). The fold of a push into its net facts, and the durable store
  of pins, release tombstones, current pointers and journal entries.
  `SnapshotState` gives each transaction as one transition, `SnapshotStore` is the
  store itself, updated record by record and proved to make those transitions,
  `SnapshotEffects` and `ProjectionEffects` say what each transaction leaves in
  every field, and the other modules prove what holds over all runs. Lemmas there about a
  state that is `Truthful` hold in every state a run reaches
  (`SnapshotRuns.RunsStayTruthful`).
* **Formats and data structures** (`BoundaryPrefix`, `RefPaths`, `PktLine`, `Bytes`,
  `TreeEntries`, `ObjectHeaders`, `Sidecar`, `SidecarReader`, `SidecarLayout`,
  `Spelling`, `Heap`, `BoundedOutput`). `Spelling` gives the words, digits and
  separators literally.

Strings in the receive planner are compared byte by byte, as Go does;
`sort.Slice` is modelled by what it promises (a permutation without inversions,
ties in any order).

## What turned out to be conditional

Where a property holds only sometimes, the exact condition is proved, and said
where what is proved is a sufficient one.

* Reconciling a ref leaves its next plan up to date *unless* the accepted head is
  the ref's value again at a sequence that the current pointer has already
  passed (`SnapshotProjection.ReconciliationConverges`). That state is reachable
  when refs are set directly (`OvertakenIsReachable`), and unreachable while refs
  move by pushes alone (`SnapshotPushes.PushOnlyRunsConverge`).
* Delivering the same entries in another order can leave a pointer elsewhere: a
  delivery without a live lease lands only once another has pinned its commit
  (`SnapshotBatches.OrderMattersIsReachable`). All deliveries of a batch land in
  every order exactly when the batch is clean, which is decided before anything
  is delivered: every entry is there, the snapshots are usable and agree per
  commit, and every delivery of a commit that is not pinned yet holds a lease that
  outlives every check in the batch that could drop it
  (`SnapshotBatches.EveryOrderLandsIff`). Each delivery keeps its own time of
  arrival while the order varies, so every order includes those in which the clock
  runs backwards; only the necessity of the condition depends on them. Clean
  batches of the same entries leave every pointer at the same place
  (`SnapshotBatches.DeliveriesConfluent`). For that a clean batch is sufficient,
  not necessary: a lower entry may fail without any effect on the pointer. Ref by
  ref, the pointer ends at the greatest entry delivered in every order exactly when
  that entry lands in every order (`SnapshotBatches.GreatestInEveryOrderIff`).
* The fact matcher looks facts up among all transitions, changed or not, so a
  no-op fact can stand in for a changed ref (`NetFacts.NoOpFactSlipsThrough`). A
  list it accepts is a net list exactly when it holds no no-op fact
  (`NetFacts.MatchIsNetIff`), and then it rearranges the generated one.
* The sidecar counts references in 32 bits. The worker's reader accepts what the
  container wrote exactly when all references together stay below 2^32
  (`SidecarReader.ReadableIff`); a wrapped counter is always noticed.
* The manifest's check of type counts adds machine integers and can wrap
  (`Manifest.WrappedTypeCountsPass`). Counts that pass add up as integers exactly
  when their sum stays below 2^63; otherwise they are off by 2^64. The edge counts
  never wrap (`Manifest.CountsAddUpIff`). Once the walk's proof agrees too, every
  count is the true one (`Manifest.AgreedCountsAreTrue`).
* A command line is split at any Unicode white space, although the ref pattern
  forbids only bytes up to the blank and a few punctuation marks. A printed
  command list is read back as itself exactly when no id or ref holds white space
  or a NUL (`PktLine.PrintRoundTripIff`); a ref with a no-break space is cut in
  two and the push refused (`PktLine.NoBreakSpaceIsRefused`). A closing flush is allowed, not required.
* The comment on the boundary prefix counts `maxCommands + 1` candidates; the
  code tries one more than the commands given, which is enough. The search fails
  exactly when a command names the ref `refs`.
* A push sent again changes nothing, but it is accepted again exactly when applying
  its commands twice leaves the refs in the same order: not always when a ref is
  deleted and created again in one push (`PushReplay.ReplayChangesNothing`,
  `UndoneCommandsMoveRefs`).
* The depth and cycle check after the topology check can never reject
  (`Topology.BaseFirstIsShallow`), as at most 256 entries are allowed.

## Model

| member | source | states |
|---|---|---|
| Ordering.ValidateSortedUniqueOids | container/cmd/repository-git/stock_receive.go:404-416 | accepts exactly the strictly increasing lists of valid ids within the object bound |
| Ordering.SortedListingUnique | container/cmd/repository-git/stock_receive.go:404-416 | a set of ids has one such listing only, so comparing lists compares sets |
| PhysicalNode.CompareNodesSigns | container/cmd/repository-git/stock_receive.go:472-498 | the comparison is antisymmetric, and zero exactly on equal pack, offset, end and id; `PlanOrder.NodeLessIff` says which key decides first |
| PhysicalNode.IdOrder | container/cmd/repository-git/stock_receive.go:624-626 | entries compared through their nodes form a strict weak order, as sorting demands |
| PhysicalNode.DependencyOrder | container/cmd/repository-git/stock_receive.go:552-561 | so do dependencies under the three-key comparison |
| BaseForest.GreedyIsCanonical | container/cmd/repository-git/stock_receive.go:599-643 | always emitting the least available entry gives the lexicographically least base-first order |
| BaseForest.CanonicalOrderUnique | container/cmd/repository-git/stock_receive.go:641-643 | there is one canonical order only |
| BaseForest.ChainIsShort | container/cmd/repository-git/stock_receive.go:644-660 | in a base-first order a base chain is no longer than the entry's position |
| BaseForest.ChainEnds | container/cmd/repository-git/stock_receive.go:644-660 | every base chain ends at an entry without a base |
| BaseForest.LocalIffGlobalAttribution | container/cmd/repository-git/stock_receive.go:662-678 | the local attribution equations hold exactly when each entry lists the required ids found among it and all entries that depend on it, directly or not |
| BaseForest.NothingMissing | container/cmd/repository-git/stock_receive.go:565-597 | whatever an entry is decoded from is itself in the plan |
| Topology.CollectChildren | container/cmd/repository-git/stock_receive.go:614-623 | the child lists are exactly the direct dependents, each once |
| Topology.CollectReady | container/cmd/repository-git/stock_receive.go:615-620 | the first ready list holds exactly the entries without a base |
| Topology.SortTopologically | container/cmd/repository-git/stock_receive.go:614-640 | the loop emits every entry once, always the least whose base is out, whatever order maps are iterated in |
| Topology.CheckBaseFirst | container/cmd/repository-git/stock_receive.go:599-613 | accepts exactly the base-first permutations of the entries |
| Topology.CheckTopology | container/cmd/repository-git/stock_receive.go:599-643 | accepts a listed order exactly when it is the lexicographically least base-first one |
| Topology.ChainEndsInTime | container/cmd/repository-git/stock_receive.go:645-660 | following one chain succeeds exactly when it ends within 255 hops, cycles included |
| Topology.CheckDepth | container/cmd/repository-git/stock_receive.go:644-660 | accepts exactly the graphs all of whose chains end in time |
| Topology.BaseFirstIsShallow | container/cmd/repository-git/stock_receive.go:644-660 | after a base-first order over at most 256 entries the depth check never rejects |
| PlanEntries.CheckNode | container/cmd/repository-git/stock_receive.go:516-536 | one entry passes exactly when it is bound to its id, well formed and attributed within the required ids |
| PlanEntries.CollectNodes | container/cmd/repository-git/stock_receive.go:513-542 | succeeds exactly on canonical, duplicate-free entry lists and indexes them by id |
| PlanEntries.StringSetEqual | container/cmd/repository-git/stock_receive.go:460-470 | as many entries as the set and all of them in it; on a list without repeats, equal as sets |
| PlanEntries.CheckSelectedPacks | container/cmd/repository-git/stock_receive.go:543-545 | the selected packs are exactly the packs of the entries |
| PlanDependencies.CollectDependencies | container/cmd/repository-git/stock_receive.go:547-591 | succeeds exactly on canonical listings that bind each dependent to one base with the right kind |
| PlanDependencies.CheckCardinality | container/cmd/repository-git/stock_receive.go:592-597 | full entries are exactly those without a base |
| PlanAttribution.CheckAttribution | container/cmd/repository-git/stock_receive.go:662-678 | accepts exactly the locally attributed graphs |
| PlanAttribution.CheckRootsHeld | container/cmd/repository-git/stock_receive.go:679-693 | every required id is held by an entry that lists it |
| PhysicalGraph.CheckRanges | container/cmd/repository-git/stock_receive.go:695-710 | the ranges are the entries again, in topological order |
| PhysicalGraph.ValidatePhysicalGraph | container/cmd/repository-git/stock_receive.go:500-711 | accepts exactly the plans whose entries, bindings, canonical order, global attribution and ranges are right |
| PhysicalGraph.NoUselessEntry | container/cmd/repository-git/stock_receive.go:662-678 | in an accepted plan every entry supports some required object |
| PhysicalGraph.DecodesFromEarlierEntries | container/cmd/repository-git/stock_receive.go:592-613 | in an accepted plan every entry decodes from earlier entries only, ending at a full one |
| PlanOrder.StringLessIff | container/cmd/repository-git/stock_receive.go:472-498 | strings compare by the first byte in which they differ, a proper prefix before what it begins |
| PlanOrder.NodeLessIff | container/cmd/repository-git/stock_receive.go:472-498 | entries compare by pack first, then offset, then end, then object id |
| PlanOrder.EntriesAscend | container/cmd/repository-git/stock_receive.go:519-522 | the entries of an accepted plan ascend in these four keys |
| PlanOrder.PacksAreContiguous | container/cmd/repository-git/stock_receive.go:519-522 | so the entries of one pack are listed together, packs ascend across the listing, and offsets within each |
| PlanOrder.DependenciesOkIff | container/cmd/repository-git/stock_receive.go:547-591 | a dependency listing passes exactly when each dependency is bound and their dependents ascend in the entries' keys, one dependency each |
| PlanOrder.DependencyPassesIff | container/cmd/repository-git/stock_receive.go:565-591 | a dependency passes exactly when it is the one record its two entries determine |
| PlanOrder.CanonicalIff | container/cmd/repository-git/stock_receive.go:614-643 | among base-first orders the canonical one is that in which each entry has a lesser key than every later one that could have stood in its place |
| PlanOrder.EntryPassesIff | container/cmd/repository-git/stock_receive.go:516-536 | an entry passes exactly when its id binds it, its ids are ids, its range is not empty, its encoding is known and its roots are sorted and required |
| PlanOrder.RangeOkIff | container/cmd/repository-git/stock_receive.go:695-710 | a range passes exactly when it repeats its entry |
| PlanOrder.RangesAreTheEntries | container/cmd/repository-git/stock_receive.go:695-710 | the ranges of an accepted plan are its entries' own, in topological order |
| PlanOrder.SelectsPacksIff | container/cmd/repository-git/stock_receive.go:543-545 | the selected packs are those of some entry, each listed, and no others |
| PlanOrder.AcceptedOrders | container/cmd/repository-git/stock_receive.go:500-711 | an accepted plan lists dependencies by ascending dependent and its topology base first, least key first, whatever else it holds |
| Closure.ReachedIsLeast | container/cmd/repository-git/stock_receive.go:1305-1371 | what is reached from the tips by paths cut at boundaries is closed under the walk's rules and lies within every closed set |
| Closure.PushReferences | container/cmd/repository-git/stock_receive.go:1358-1370 | pushes all references and counts internal and external edges with repeats |
| Closure.Round | container/cmd/repository-git/stock_receive.go:1318-1371 | each round keeps the walk sound and either sees a new object or shortens the queue; it fails only when the closure is incomplete |
| Closure.WalkClosure | container/cmd/repository-git/stock_receive.go:1305-1371 | the walk succeeds exactly when everything reached is present, readable and within bounds, and then has seen exactly that |
| Closure.VerifyLogicalClosure | container/cmd/repository-git/stock_receive.go:1297-1380 | a proof is made exactly when the closure is complete and the advertised ids are valid, and it states the exact sets and sums |
| Closure.ProofUnique | container/cmd/repository-git/stock_receive.go:1372-1379 | the proof does not depend on the order of the visits |
| ClosureMeaning.ProofIsTheClosure | container/cmd/repository-git/stock_receive.go:1297-1380 | each incoming object of a proof is a commit, tree or tag with a known reference list, or a blob; whatever it lists is incoming or external; whatever is listed is a new tip or named by an incoming object; the edges are the lists' lengths, repeats included, and the counts those of each type |
| ClosureMeaning.SufficientIsComplete | container/cmd/repository-git/stock_receive.go:1305-1371 | any set that holds the tips and whatever its new objects list, all present, readable and within the bounds, is enough for a proof to be made |
| ClosureMeaning.CompleteIsSufficient | container/cmd/repository-git/stock_receive.go:1305-1371 | and where a proof is made there is such a set, so a missing or unreadable object fails it |
| Manifest.CheckRoots | container/cmd/repository-git/stock_receive.go:737-782 | the required roots are exactly the external, thin-base and old ids, the first two apart |
| Manifest.ValidateClosureManifest | container/cmd/repository-git/stock_receive.go:713-803 | accepts exactly the manifests bound to their request, with 64-bit counts added as the machine does |
| Manifest.ValidateClosureProof | container/cmd/repository-git/stock_receive.go:1461-1479 | accepts exactly the proofs that agree with the manifest |
| Manifest.EndToEndCompleteness | container/cmd/repository-git/stock_receive.go:1461-1479 | with manifest and proof accepted, everything reached is a readable incoming object or is held, decodably, by the plan |
| Manifest.PrerequisitesCoverTheFrontier | container/cmd/repository-git/stock_receive.go:754-782 | the prerequisite pack holds the whole frontier and every old tip, and beyond them thin bases only |
| ManifestMeaning.AcceptedManifestIff | container/cmd/repository-git/stock_receive.go:713-803 | a manifest is accepted exactly when it repeats its request field for field, lists each root for one of three reasons, counts soundly, lists ids in order, and its plan is accepted |
| ManifestMeaning.AcceptedProofIff | container/cmd/repository-git/stock_receive.go:1461-1479 | a proof is accepted exactly when the manifest determines all of it but the incoming ids, which are in order and as many as were visited |
| Manifest.RefOnlyIff | container/cmd/repository-git/stock_receive.go:1461-1479 | nothing is visited exactly when every non-zero new id was already advertised-reachable |
| Manifest.CountsAddUpIff | container/cmd/repository-git/stock_receive.go:786-797 | counts that pass add up as integers exactly when the types' sum stays below 2^63; otherwise the sum is off by 2^64; edge counts never wrap |
| Manifest.WrappedTypeCountsPass | container/cmd/repository-git/stock_receive.go:794-797 | counts that wrap around do pass the manifest's own check |
| Manifest.AgreedCountsAreTrue | container/cmd/repository-git/stock_receive.go:1461-1479 | once the proof agrees, each type count, the visited count and the edge counts are the true ones of the closure |
| ProcessorHost.Host.StartSlot | src/worker/do/nativeProcessorSlot.ts:31-73 | a start makes its transition, cut short after any of its durable effects; it is refused exactly when expired, fenced, deleted or superseded |
| ProcessorHost.Host.FinishSlot | src/worker/do/nativeProcessorSlot.ts:75-89 | a finish completes only the active execution it names |
| ProcessorHost.Host.StopSlot | src/worker/do/nativeProcessorSlot.ts:91-129 | a stop raises the fence and destroys the container exactly when the slot is its own |
| ProcessorHost.Host.DeleteSlot | src/worker/do/nativeProcessorSlot.ts:131-141 | a deletion stores its fence before it destroys |
| ProcessorHost.AdmittedGenerationsIncrease | src/worker/do/nativeProcessorSlot.ts:46-56 | over any run, crashes included, admitted generations strictly increase |
| ProcessorHost.StoppedIsNeverAdmitted | src/worker/do/nativeProcessorSlot.ts:91-129 | once a stop was processed, even before its start, that execution is never admitted |
| ProcessorHost.StopDestroysOnlyItsOwn | src/worker/do/nativeProcessorSlot.ts:96-128 | a stop never empties the container while the slot holds another generation |
| ProcessorHost.DeletedAdmitsNothing | src/worker/do/nativeProcessorSlot.ts:131-141 | after the deletion fence is stored nothing is admitted |
| ProcessorHost.NoRevokedProcessAtAdmission | src/worker/do/nativeProcessorSlot.ts:36-72 | when a generation is admitted no process of a generation ever revoked is left |
| Admission.AdmittedIff | src/worker/do/nativeProcessorSlot.ts:31-73 | over any run, crashes included, a start is admitted exactly when it has not expired, no deletion was fenced, every stop recorded and every execution admitted before was of a lesser generation, and each of these was finished, stopped or revoked |
| Admission.ActiveThroughout | src/worker/do/nativeProcessorSlot.ts:31-89 | an admitted execution keeps the slot, active, until it is settled |
| Admission.StartAchieves | src/worker/do/nativeProcessorSlot.ts:50-72 | an admitted start sets its alarm if it is maintenance, runs in a container cleared of revoked executions, and has its abort signal, raised exactly if configuring failed |
| Admission.RefusedStartAchieves | src/worker/do/nativeProcessorSlot.ts:37-59 | a refused start changes nothing but a container left over from a revoked execution |
| Admission.FinishAchieves | src/worker/do/nativeProcessorSlot.ts:75-89 | a finish completes its own active execution and forgets its signal |
| Admission.StopAchieves | src/worker/do/nativeProcessorSlot.ts:91-129 | a stop leaves its own slot, or an empty one, revoked, fenced and without container; for a later execution it raises the fence only; otherwise it does nothing |
| Admission.DeleteAchieves | src/worker/do/nativeProcessorSlot.ts:131-141 | a deletion leaves the fence, no active slot, no container, and the running execution's signal raised |
| Coordinator.RepositoryCoordinator.CheckClaim | src/worker/do/repo/nativeExecution.ts:24-46 | true exactly for the unexpired claim of the lane's own operation |
| Coordinator.RepositoryCoordinator.BeginExecution | src/worker/do/repo/nativeExecution.ts:50-88 | issues exactly when the claim is owned and the lane is free, and the issue is authorised |
| Coordinator.RepositoryCoordinator.AuthorizeExecution | src/worker/do/repo/nativeExecution.ts:90-105 | authorises exactly the lane's active, unexpired, still claimed execution |
| Coordinator.RepositoryCoordinator.FinishExecution | src/worker/do/repo/nativeExecution.ts:107-137 | settles exactly the lane's unsettled execution, and ends its authority |
| Coordinator.RepositoryCoordinator.NoteBridgeIO | src/worker/do/repo/nativeExecution.ts:139-159 | changes the counters of the lane's own execution and nothing else |
| Coordinator.RepositoryCoordinator.AcknowledgeNativeStop | src/worker/do/repo/nativeExecution.ts:161-172 | clears the pending stop of the execution it names only |
| Coordinator.GenerationsUnique | src/worker/do/repo/nativeExecution.ts:65-87 | generations are unique across lanes, increase, and are bounded by the counter |
| Coordinator.AuthorityExclusive | src/worker/do/repo/nativeExecution.ts:90-105 | at most one execution per lane is authorised at any instant |
| Coordinator.SettledNeverAuthorizedAgain | src/worker/do/repo/nativeExecution.ts:107-137 | a completed or revoked execution is never authorised again |
| Coordinator.SupersededNeverAuthorized | src/worker/do/repo/nativeExecution.ts:50-105 | nor is one whose lane has a successor |
| Coordinator.SuccessorWaits | src/worker/do/repo/nativeExecution.ts:50-88 | a revoked execution's successor is issued only after the stop was acknowledged and the drain time has passed |
| Coordinator.NotingKeepsAuthority | src/worker/do/repo/nativeExecution.ts:139-159 | counting bridge traffic changes nobody's authority |
| Succession.OwnsClaimIff | src/worker/do/repo/nativeExecution.ts:24-46 | a claim is owned exactly while the repository is not being deleted and the claim is stored for that operation, at work, under that id, and has not expired |
| Succession.AuthorisedIff | src/worker/do/repo/nativeExecution.ts:50-137 | over any run an issued execution is authorised exactly for fourteen minutes, while its claim is owned, until it is revoked or completes |
| Succession.FirstIssueIff | src/worker/do/repo/nativeExecution.ts:50-88 | a lane's first execution is issued exactly to an entitled caller |
| Succession.UnendedBlocks | src/worker/do/repo/nativeExecution.ts:62-68 | while an execution has not ended, expired or not, its lane issues nothing |
| Succession.CompletionFreesLane | src/worker/do/repo/nativeExecution.ts:107-137 | after a completion the lane issues again exactly to the next entitled caller, at once |
| Succession.SuccessorIff | src/worker/do/repo/nativeExecution.ts:50-172 | after a revocation it does so exactly once the stop was acknowledged and five minutes have passed |
| Succession.DispatchRecorded | src/worker/do/repo/nativeExecution.ts:69-85 | a record shows every field its execution was issued with, and when |
| Succession.SettlementRecorded | src/worker/do/repo/nativeExecution.ts:107-137 | a settled record shows how and when it was settled, and its stop as pending exactly if it was revoked and not acknowledged |
| Succession.CountersAreTotals | src/worker/do/repo/nativeExecution.ts:139-159 | an execution's counters are the number and the bytes of the reads and of the writes noted for it, and the time of its first read |
| Fencing.RetiredBeforeSuccession | src/worker/do/nativeProcessorSlot.ts:91-129 | when the coordinator hands a lane on, the host has retired the revoked execution and no process of it is bound to the container |
| Fencing.NoZombieAfterSuccession | src/worker/do/repo/nativeExecution.ts:50-137 | from then on the host neither runs nor admits it, nor holds a process of it, however late its start is delivered |
| Fencing.ActiveWasIssued | src/worker/do/nativeProcessorSlot.ts:31-73 | what a host runs was issued for that lane, and no other issue has its generation |
| SystemRuns.HostRun | src/worker/do/nativeProcessorSlot.ts:31-141 | each host of the system goes through a run of its own, made of the events that concern it |
| SystemRuns.DeliveredStartIff | src/worker/do/nativeProcessorSlot.ts:31-73 | a start delivered to its host, once or again, is admitted exactly when it has not expired there and nothing that reached the host before stands in its way |
| NetFacts.FirstOldIsFirst | src/worker/git/acceptedWrite.ts:28-46 | the before id of a ref is the old id of its first command |
| NetFacts.LastNewIsLast | src/worker/git/acceptedWrite.ts:28-46 | the after id is the new id of its last command |
| NetFacts.FactsForCommands | src/worker/git/acceptedWrite.ts:21-48 | one fact per changed ref and no other, in the order of first mention, with first old and last new id |
| NetFacts.NetEffect | src/worker/git/acceptedWrite.ts:21-48 | applying the facts equals applying the commands when they start from the refs they expect |
| NetFacts.FactsMatchCommands | src/worker/do/repo/acceptedWrites.ts:63-84 | accepts exactly distinct refs with their transitions, as many as there are changed refs |
| NetFacts.GeneratedFactsMatch | src/worker/do/repo/acceptedWrites.ts:63-84 | generated facts always match |
| NetFacts.MatchesExactlyPermutations | src/worker/do/repo/acceptedWrites.ts:63-84 | lists without no-op facts match exactly when they rearrange the generated ones |
| NetFacts.MatchIsNetIff | src/worker/do/repo/acceptedWrites.ts:63-84 | an accepted list is the net list exactly when it holds no no-op fact |
| NetFacts.NoOpFactSlipsThrough | src/worker/do/repo/acceptedWrites.ts:76-83 | for any valid ids, a no-op fact can stand in for a changed one |
| RefList.PushedAuthority | src/worker/git/operations/validation.ts:72-85 | after a push each commanded ref has the id of its last command |
| RefList.AsMapTakesLast | src/worker/git/operations/validation.ts:72-85 | a ref listed more than once has the id it was given last |
| SnapshotStore.Store.MovePointer | src/worker/do/repo/acceptedWrites.ts:209-222 | the pointer moves to greater sequences only; one sequence with two commits is a conflict |
| SnapshotStore.Store.RetainSnapshotPin | src/worker/do/repo/acceptedWrites.ts:170-224 | installs one root once, keeps the first provenance and clears an earlier release |
| SnapshotStore.Store.RecordFact | src/worker/do/repo/acceptedWrites.ts:104-142 | one fact: head, pin, journal entry |
| SnapshotStore.Store.RecordAcceptedWrites | src/worker/do/repo/acceptedWrites.ts:86-145 | all facts in order, or a throw |
| SnapshotStore.Store.AcceptPush | src/worker/do/repo/catalog/receive.ts:849-904 | a push is applied once; a replay finds its own refs in place; a throw undoes everything |
| SnapshotEffects.PushMovesRefs | src/worker/do/repo/catalog/receive.ts:849-904 | a committed push leaves each commanded ref at its last new id, and the version one higher than expected |
| SnapshotEffects.PushIsRecorded | src/worker/do/repo/acceptedWrites.ts:104-110 | each ref with a fact gets the head of its last fact; every other ref keeps its head |
| SnapshotEffects.PushIsJournalled | src/worker/do/repo/acceptedWrites.ts:127-142 | a committed push that journals has an entry for every fact - created, updated or deleted refs - with all the fact's fields |
| SnapshotEffects.PushKeepsEntries | src/worker/do/repo/acceptedWrites.ts:127-142 | and adds no other entry and changes none |
| SnapshotEffects.PushPins | src/worker/do/repo/acceptedWrites.ts:111-126 | a committed push leaves the commit it asks for pinned with that tree and the provenance of the first fact it fits, unless it is pinned with another tree, and says which |
| SnapshotEffects.PushWithoutPin | src/worker/do/repo/acceptedWrites.ts:86-144 | without a pin, or without facts, it leaves every root as it was |
| SnapshotEffects.PushMovesPointers | src/worker/do/repo/acceptedWrites.ts:206-222 | it moves forward the pointers of the refs whose facts its retained pin fits, if asked to, and no others |
| PushReplay.ReplayChangesNothing | src/worker/do/repo/catalog/receive.ts:849-904 | a push sent again at once changes nothing whatever, and is accepted again exactly when its commands leave the refs they made as they are |
| PushReplay.FinalCommandsReplay | src/worker/do/repo/catalog/receive.ts:849-904 | which they do if none of them is undone by a later one |
| PushReplay.UndoneCommandsMoveRefs | src/worker/git/operations/validation.ts:72-85 | others may list the same refs in another order, for any id |
| SnapshotStore.Store.HasActiveProjectionLease | src/worker/do/repo/acceptedWrites.ts:151-163 | true exactly for a live projection lease, and drops the expired ones |
| ProjectionEffects.LeaseActiveIff | src/worker/do/repo/acceptedWrites.ts:151-163 | a lease counts exactly if it names the token, which is not empty, and the projection operation, and has not expired |
| ProjectionEffects.LiveLeasesAre | src/worker/do/repo/acceptedWrites.ts:157-161 | the check drops exactly the expired leases |
| SnapshotStore.Store.ProjectAcceptedWrite | src/worker/do/repo/acceptedWrites.ts:384-458 | the whole transition of one delivery, every refusal included |
| ProjectionEffects.DeliveryAnswers | src/worker/do/repo/acceptedWrites.ts:384-456 | in a reachable state a delivery is answered case by case, and says whether the commit was new and whether the pointer moved |
| ProjectionEffects.DeliveryLeaves | src/worker/do/repo/acceptedWrites.ts:409-456 | a delivery that lands leaves its commit pinned with the entry's own provenance, the entry marked once, and nothing else but the pointer changed |
| ProjectionEffects.DeliveryRefusalLeaves | src/worker/do/repo/acceptedWrites.ts:394-432 | any other answer changes nothing; only looking in vain for a lease drops the expired ones |
| SnapshotStore.Store.ProjectReconciledHead | src/worker/do/repo/acceptedWrites.ts:466-544 | the same for a reconciled head |
| ProjectionEffects.HeadAnswers | src/worker/do/repo/acceptedWrites.ts:466-544 | so is the projection of a reconciled head |
| ProjectionEffects.HeadLeaves | src/worker/do/repo/acceptedWrites.ts:499-544 | which pins its commit as found by reconciliation, not as pushed |
| ProjectionEffects.HeadRefusalLeaves | src/worker/do/repo/acceptedWrites.ts:478-521 | and changes nothing when it does not land |
| SnapshotStore.Store.GetReconcilePlan | src/worker/do/repo/acceptedWrites.ts:546-580 | the plan, wherever in the journal the fitting entry is met first |
| SnapshotPlans.PlanIff | src/worker/do/repo/acceptedWrites.ts:546-580 | the plan is unborn exactly without head and value, up to date exactly when the pointer is at the value and its sequence, a delivery exactly when the journal has the entry, else the head as found; with all its fields |
| SnapshotPlans.HeadIffAccepted | src/worker/do/repo/acceptedWrites.ts:86-144 | over any run a ref has a head exactly when a push with a fact for it was accepted |
| SnapshotPlans.UnbornIffNeverAccepted | src/worker/do/repo/acceptedWrites.ts:554 | over any run a plan is unborn exactly when the ref has no value and no fact for it was ever accepted |
| SnapshotPlans.DeletionIsRepaired | src/worker/do/repo/acceptedWrites.ts:546-580 | an accepted deletion whose pointer is still at a commit is planned for repair, and the repair takes the pointer to the deletion |
| SnapshotStore.Store.ReleaseSnapshotPin | src/worker/do/repo/acceptedWrites.ts:264-301 | the whole transition of a release |
| ProjectionEffects.ReleaseLeaves | src/worker/do/repo/acceptedWrites.ts:240-301 | a release is granted exactly when the repository is not being deleted and no ref targets the commit; then a pin, or a known legacy snapshot, resolves as released, and an unknown commit leaves no trace |
| SnapshotRuns.CheckedFactsFit | src/worker/do/repo/acceptedWrites.ts:63-84 | generated and matched facts name commanded refs with their final ids |
| SnapshotRuns.RunsStayTruthful | src/worker/do/repo/acceptedWrites.ts:86-145 | over any run every head, entry and pointer names what its ref pointed at, at the version it carries |
| SnapshotRuns.NoPointerConflicts | src/worker/do/repo/acceptedWrites.ts:436-451 | the pointer-conflict error never fires in any run: a delivery throws only without its entry, a reconciliation never, and a push only for a pin that fits no fact or a clash in the journal |
| SnapshotRuns.PinExcludesTombstone | src/worker/do/repo/acceptedWrites.ts:170-301 | no commit ever has both a pin and a tombstone, and exactly the pinned commits are materialized |
| SnapshotRuns.LivePinIsImmutable | src/worker/do/repo/acceptedWrites.ts:165-201 | while a pin lives its tree and provenance never change |
| SnapshotProvenance.PinsHaveTrueOrigins | src/worker/do/repo/acceptedWrites.ts:190-208 | over any run a pin's provenance is true: at its first sequence its ref pointed at its commit |
| SnapshotRuns.OncePinnedNeverLegacy | src/worker/do/repo/acceptedWrites.ts:240-301 | a commit once pinned never resolves as legacy again |
| SnapshotRuns.PinGoesIffReleased | src/worker/do/repo/acceptedWrites.ts:264-301 | a step removes a pin exactly when it releases that commit, no ref targets it and the repository is not being deleted |
| SnapshotRuns.PointerNeverGoesBack | src/worker/do/repo/acceptedWrites.ts:436-451 | a pointer only moves to greater sequences, and at one sequence stays at one commit |
| SnapshotProjection.DeliveriesReachTheGreatest | src/worker/do/repo/acceptedWrites.ts:384-458 | after deliveries in any order, with repeats, each pointer is at the greatest sequence among its start and the entries that landed |
| SnapshotProjection.SameLandedSamePointers | src/worker/do/repo/acceptedWrites.ts:384-458 | the pointers depend on which entries landed, not on when |
| SnapshotBatches.CleanBatchLands | src/worker/do/repo/acceptedWrites.ts:384-458 | whatever is drawn from a clean batch, in any order and with any repeats, lands in full |
| SnapshotBatches.EveryOrderLandsIff | src/worker/do/repo/acceptedWrites.ts:384-458 | all deliveries of a batch land in every order exactly when the batch is clean, which is decided before any delivery |
| SnapshotBatches.DeliveriesConfluent | src/worker/do/repo/acceptedWrites.ts:384-458 | clean batches of the same entries, in any order and with repeats, leave every pointer at the same commit and sequence, the greatest delivered |
| SnapshotBatches.GreatestInEveryOrderIff | src/worker/do/repo/acceptedWrites.ts:384-458 | a pointer ends at its greatest delivered entry in every order exactly when that entry lands in every order, whatever becomes of the others |
| SnapshotBatches.OrderMatters | src/worker/do/repo/acceptedWrites.ts:404-409 | two deliveries of one commit, the later without a lease, end at different sequences in the two orders |
| SnapshotBatches.OrderMattersIsReachable | src/worker/do/repo/acceptedWrites.ts:404-409 | and a run reaches such a state |
| SnapshotProjection.DeliveryIsIdempotent | src/worker/do/repo/acceptedWrites.ts:384-458 | repeating at once a delivery that landed changes nothing, and reports nothing created or advanced |
| SnapshotProjection.LateRepeatChangesNothing | src/worker/do/repo/acceptedWrites.ts:384-458 | a delivery that landed may be repeated after any other deliveries: it lands again and changes nothing at all |
| SnapshotProjection.DeliverySucceedsIff | src/worker/do/repo/acceptedWrites.ts:394-429 | a matching delivery lands exactly when the repository is not being deleted and the snapshot can be installed |
| SnapshotProjection.PlannerAndProjectorAgree | src/worker/do/repo/acceptedWrites.ts:480-490 | a head is stale exactly when the planner would plan another commit or sequence |
| SnapshotProjection.PlanSucceedsIffInstallable | src/worker/do/repo/acceptedWrites.ts:546-580 | a plan on unchanged refs is never stale and never throws, and succeeds exactly when the snapshot can be installed |
| SnapshotProjection.ReconciliationConverges | src/worker/do/repo/acceptedWrites.ts:546-580 | after a plan succeeded the next one is up to date, exactly unless the accepted head was overtaken |
| SnapshotProjection.OvertakenIff | src/worker/do/repo/acceptedWrites.ts:555-558 | the plan's sequence is below the pointer's exactly then |
| SnapshotProjection.OvertakenIsReachable | src/worker/do/repo/refs.ts:51-66 | setting refs away and back reaches that state |
| SnapshotPushes.PushNamesOnce | src/worker/git/operations/validation.ts:72-85 | a push leaves each ref listed once |
| SnapshotPushes.PushOnlyRunsLead | src/worker/do/repo/catalog/receive.ts:849-904 | while refs move by pushes alone the accepted head is always the ref's value, and nothing recorded is ahead of it |
| SnapshotPushes.PushOnlyRunsConverge | src/worker/do/repo/acceptedWrites.ts:546-580 | then every plan carried out leaves its ref up to date |
| BoundaryPrefix.PaddedValue | container/cmd/repository-git/stock_receive.go:423 | the padded number format is read back as the number |
| BoundaryPrefix.BlocksOneAtMost | container/cmd/repository-git/stock_receive.go:425-430 | a ref other than "refs" is in the way of one candidate at most |
| BoundaryPrefix.PrerequisiteBoundaryRefPrefix | container/cmd/repository-git/stock_receive.go:418-436 | finds the first free candidate; fails exactly when a command names "refs", so never on validated refs |
| BoundaryPrefix.BoundaryRefsStayApart | container/cmd/repository-git/stock_receive.go:900-905 | no boundary ref equals, contains or lies under a pushed ref |
| BoundaryPrefix.BoundaryRefsDiffer | container/cmd/repository-git/stock_receive.go:900-905 | boundary refs collide with one another only when they are the same |
| RefPaths.CollidesIff | container/cmd/repository-git/stock_receive.go:425-430 | two refs collide exactly when the path of one begins with the path of the other |
| RefPaths.PrefixIs | container/cmd/repository-git/stock_receive.go:423 | a boundary ref's path is its candidate's and then its number |
| Spelling.PaddedWidth | container/cmd/repository-git/stock_receive.go:423 | a number is printed in three digits, or in as many as it needs without a leading zero |
| PktLine.ReadCommands | container/cmd/repository-git/stock_receive.go:1107-1129 | the loop decodes the prefix: it ends, and reads to the end exactly when the prefix decodes |
| PktLine.DecodesIff | container/cmd/repository-git/stock_receive.go:1107-1130 | a prefix decodes to a list exactly when it is whole lines, one per command, and at most a flush |
| PktLine.ValidateCommandPrefix | container/cmd/repository-git/stock_receive.go:1103-1139 | accepts exactly the prefixes within bounds that say the request's commands |
| PktLine.PrintRoundTripIff | container/cmd/repository-git/stock_receive.go:1110-1129 | a printed list, with any capabilities and newlines, is read back as itself exactly when its ids and refs are words |
| PktLine.AcceptedAgainstItselfOnly | container/cmd/repository-git/stock_receive.go:1130-1138 | and is accepted against that list and no other |
| PktLine.PrintableIsWord | container/cmd/repository-git/main.go:62 | printable ASCII without blanks is always safe |
| PktLine.NoBreakSpaceIsMisread | container/cmd/repository-git/stock_receive.go:1119-1127 | no line printed for a ref with a no-break space is read as printed |
| PktLine.NoBreakSpaceIsRefused | container/cmd/repository-git/stock_receive.go:1123-1126 | a ref with a no-break space passes the ref pattern, but its printed line has four fields and is refused |
| Spelling.SpaceIff | container/cmd/repository-git/stock_receive.go:1119-1127 | a line is cut exactly where the UTF-8 form of a Unicode white space begins |
| Spelling.FieldsAre | container/cmd/repository-git/stock_receive.go:1119-1127 | white space of any kind before, between and after fields is of no account |
| Spelling.LengthIs | container/cmd/repository-git/stock_receive.go:1111-1117 | a line's length is its first four hexadecimal digits, of either case, the high one first |
| Spelling.NoLength | container/cmd/repository-git/stock_receive.go:1111-1117 | anything else is no length |
| TreeEntries.ParseTreeReferences | container/cmd/repository-git/main.go:1092-1115 | succeeds exactly on printed entry lists and returns the ids of all entries but gitlinks, in order |
| TreeEntries.OneReading | container/cmd/repository-git/main.go:1092-1115 | a payload is one entry list at most |
| Spelling.TreeReferencesAre | container/cmd/repository-git/main.go:1092-1115 | the references are those of the entries whose mode is not 160000, one by one |
| ObjectHeaders.ParseCommitReferences | container/cmd/repository-git/main.go:1054-1069 | the ids of all well-formed tree and parent lines before the first empty line, in order |
| ObjectHeaders.ParseTagReferences | container/cmd/repository-git/main.go:1071-1090 | the last object line's id, if the last type line names a known type |
| ObjectHeaders.CommitRoundTrip | container/cmd/repository-git/main.go:1054-1069 | a printed commit is read back as its tree and parents, whatever its other lines and message |
| ObjectHeaders.TagRoundTripIff | container/cmd/repository-git/main.go:1071-1090 | a printed tag is read back as its target exactly when the target's type is known |
| Spelling.HeaderLinesAre | container/cmd/repository-git/main.go:1054-1062 | the header lines of any payload are cut at newlines and end at the first empty line |
| Spelling.ObjectIdIff | container/cmd/repository-git/main.go:1117-1126 | an id is read exactly off forty hexadecimal digits of either case, whatever follows |
| Spelling.CommitLineIff | container/cmd/repository-git/main.go:1054-1069 | any line refers exactly to the id that follows "tree " or "parent " |
| Spelling.TagReferencesIff | container/cmd/repository-git/main.go:1071-1090 | any tag refers exactly to the id of its last object line, if its last type line names a commit, tree, blob or tag |
| Sidecar.LogicalReferences | container/cmd/repository-git/main.go:1038-1052 | the type code and references of an object, or a failure exactly on unreadable ones |
| Sidecar.OneLogicalList | container/cmd/repository-git/main.go:1038-1052 | the objects determine what is written: they stand for one list of codes and references |
| Sidecar.StreamObjectMetadata | container/cmd/repository-git/main.go:948-1036 | fills the code table, the wrapping start table and the reference file for all objects, or fails at an unreadable one |
| Sidecar.WritePackRefHeader | container/cmd/repository-git/main.go:1128-1141 | the 60-byte header, or a refusal of other checksum sizes |
| Sidecar.BuildPackReferenceIndex | container/cmd/repository-git/main.go:861-920 | the one file the objects determine, exactly when all are readable and the checksums have their size; the final count check never fires |
| SidecarReader.ParsePackRefView | src/worker/git/pack/refIndex.ts:484-575 | accepts exactly the files with the right header, valid codes and a start table that never decreases and ends at the file's end |
| SidecarReader.GetPackRefRefsAt | src/worker/git/pack/refIndex.ts:609-632 | one object's slots, from its start up to the next one's |
| SidecarReader.ReadableIff | src/worker/git/pack/refIndex.ts:484-575 | the reader accepts what the writer wrote exactly when the references fit in 32 bits, the size is a safe integer and the index is the pack's own |
| SidecarReader.SidecarRoundTrip | src/worker/git/pack/refIndex.ts:484-632 | and then gives back each object's type and references, in index order |
| SidecarLayout.HeaderLayout | container/cmd/repository-git/main.go:1128-1141 | the file begins with PREF, 1, the object count, the pack's size and the two checksums, and is exactly as long as it must be |
| SidecarLayout.CodeLayout | container/cmd/repository-git/main.go:861-920 | an object's type code stands at its place |
| SidecarLayout.StartLayout | container/cmd/repository-git/main.go:861-1036 | its start is the number of references before its own, in 32 bits |
| SidecarLayout.ReferencesLayout | container/cmd/repository-git/main.go:861-1036 | its references stand at their places, in order |
| Spelling.CodesNameTypes | src/worker/git/object-store/support.ts:9-22 | the worker reads each code the container writes as the type the object has |
| Spelling.HighByteFirst | container/cmd/repository-git/main.go:1133-1136 | numbers have their high byte first |
| Heap.BinaryHeap.constructor | src/worker/common/heap.ts:20-27 | makes a heap of any items, conserving them |
| Heap.BinaryHeap.SiftDown | src/worker/common/heap.ts:61-73 | the loop is the specified sift |
| Heap.BinaryHeap.SiftUp | src/worker/common/heap.ts:75-85 | the loop is the specified sift |
| Heap.BinaryHeap.Peek | src/worker/common/heap.ts:37-39 | a least item, or nothing exactly when empty |
| Heap.BinaryHeap.Push | src/worker/common/heap.ts:41-44 | keeps the heap and adds the item |
| Heap.BinaryHeap.Pop | src/worker/common/heap.ts:46-55 | keeps the heap and takes out one least item |
| Heap.SiftDownRestores | src/worker/common/heap.ts:61-73 | sifting down repairs the one place where the order may fail |
| Heap.SiftUpRestores | src/worker/common/heap.ts:75-85 | so does sifting up |
| Heap.HeapifyMakesHeap | src/worker/common/heap.ts:57-59 | sifting the first half down, last first, makes a heap of any list |
| Heap.PopTakesLeast | src/worker/common/heap.ts:46-55 | for any total preorder, popping keeps the heap, conserves the items and takes a least one |
| Heap.DrainedIsSorted | src/worker/common/heap.ts:46-55 | popping until empty gives a sorted permutation |
| BoundedOutput.BoundedBuffer.Write | container/cmd/repository-git/stock_receive.go:1487-1497 | the buffer holds the first bytes of everything written, up to its bound, and knows whether any were lost |

## Left out

- Input and output: git subprocesses, files, the HTTP bridge, object storage, queues, JSON and logging. The object store is a finite map, durable storage is changed one transaction at a time, clocks and lease times are parameters.
- Cryptography: digests are compared as values. The entry id of a plan is an arbitrary function of the node; nothing is proved about collisions.
- Error texts: a refusal is one outcome per check that callers can tell apart, not its message. The sidecar reader's two kinds of refusal are one.
- PhysicalGraph.ValidatePhysicalGraph: a missing list and an empty one are the same; OFS bases in one pack and overlapping ranges are not checked by the code and not claimed.
- Manifest.ValidateClosureManifest: repository and operation names are compared as opaque request fields, and machine integers wrap only where counts are added.
- Closure.VerifyLogicalClosure: reading an object's references out of `git cat-file` and `ls-tree` text is not modelled; an object is readable or not, with its type and its references in order.
- Journal ids are the pair of sequence and ref, not the padded and percent-encoded text printed from it. A `materializedAt` of 0 stands for an entry never projected.
- SnapshotStore.Store.AcceptPush: the catalog, pack and garbage-collection records of the same transaction, and the head's symbolic ref, are not modelled.
- SnapshotStore.Store.ReleaseSnapshotPin: the current time is a parameter.
- Seeding a repository (`src/worker/do/repo/repoDO/seeding.ts:90`) writes the refs without raising their version. It is not one of the steps; after it a version may have had two ref lists, and a reconciliation at the pointer's own sequence can meet another commit and throw.
- Qualification cleanup, which deletes pins and pointers of disposable refs, is not one of the steps.
- The idle-time wipe of a repository, which resets the generation counter, is not one of the coordinator's steps.
- Qualification probes of the coordinator are not modelled.
- ProcessorHost.Host.StartSlot: what the container is told and how its process is watched is reduced to how configuring it went; processes are placed in the container only there.
- ProcessorHost.Host.DeleteSlot: other cleanup done by the deletion of a repository is not modelled.
- Liveness: retries, alarms and fairness. Loops are shown to end; runs are not shown to progress.
- The size limits on objects read back from `git cat-file` and its text protocol are not modelled; nor is building the sidecar in the worker instead of the container.
- SidecarReader.ParsePackRefView: the cache of parsed views is not modelled.
- JavaScript numbers are integers here; only the sidecar's safe-integer bound is kept.
- PktLine.ValidateCommandPrefix: a non-positive pack offset is refused before this code is called, so the offset is a natural number.
- BoundaryPrefix: installing the refs with `git update-ref` is not modelled.
- The hook that runs before a receive, the trace it leaves and the packs it produces.
- User interface, routing, sessions, tokens and administration.
