/** When the order of deliveries does not matter: exactly which batches land as a
    whole in whatever order they arrive, and where that leaves the pointers. */
module SnapshotBatches {
  import opened Commands
  import opened NetFacts
  import opened Options
  import opened RefList
  import opened SnapshotState
  import opened SnapshotRuns
  import opened SnapshotProjection

  // ---------- What a delivery needs ----------

  /** The commit is not pinned yet, so a delivery has to hold a lease. */
  predicate Needs(s: Repo, d: Delivery) {
    NeedsLease(s, d.commitSha)
  }

  /** The entry is there, and the snapshot is usable and no other than the pinned one. */
  predicate Usable(s: Repo, d: Delivery) {
    && !s.deleting
    && EntryMatches(s, d.id, d.commitSha)
    && (d.commitSha != ZERO_OID ==>
          && ValidPinnedSha(d.snap.treeSha)
          && (d.commitSha in s.pins ==> s.pins[d.commitSha].treeSha == d.snap.treeSha))
  }

  lemma LandsIff(s: Repo, past: seq<seq<Ref>>, d: Delivery)
    requires Truthful(s, past) && PinsInOrder(s)
    ensures Lands(s, d) <==> Usable(s, d) && (Needs(s, d) ==> LeaseActive(s, d.snap.token, d.snap.now))
  {
    if EntryMatches(s, d.id, d.commitSha) {
      DeliverySucceedsIff(s, past, d.id, d.commitSha, d.snap);
    }
  }

  /** A lease that outlives this delivery and every other of the batch whose check
      might drop it. */
  predicate Outlives(s: Repo, ds: seq<Delivery>, d: Delivery, lease: Lease) {
    lease.expiresAt > d.snap.now && forall e :: e in ds ==> OutlivesCheck(s, d, e, lease)
  }

  predicate OutlivesCheck(s: Repo, d: Delivery, e: Delivery, lease: Lease) {
    Needs(s, e) && e.commitSha != d.commitSha ==> lease.expiresAt > e.snap.now
  }

  ghost predicate Covered(s: Repo, ds: seq<Delivery>, d: Delivery) {
    Needs(s, d) ==>
      Given(d.snap.token) &&
      exists lease :: lease in s.leases && Projects(lease, d.snap.token.value) && Outlives(s, ds, d, lease)
  }

  /** Deliveries of a commit that is not pinned yet carry one tree. */
  predicate OneTree(s: Repo, d: Delivery, e: Delivery) {
    d.commitSha == e.commitSha && Needs(s, d) ==> d.snap.treeSha == e.snap.treeSha
  }

  ghost predicate Clean(s: Repo, ds: seq<Delivery>) {
    && (forall d :: d in ds ==> Usable(s, d) && Covered(s, ds, d))
    && (forall d, e :: d in ds && e in ds ==> OneTree(s, d, e))
  }

  // ---------- A clean batch stays clean ----------

  lemma {:induction false} LiveMember(leases: seq<Lease>, now: int, lease: Lease)
    ensures lease in LiveLeases(leases, now) <==> lease in leases && lease.expiresAt > now
  {
    if leases != [] {
      var front, last := leases[..|leases| - 1], leases[|leases| - 1];
      LiveMember(front, now, lease);
      assert leases == front + [last];
    }
  }

  /** Pins, leases and entries once a delivery landed. */
  ghost predicate After(s: Repo, d: Delivery, t: Repo) {
    && t.deleting == s.deleting
    && t.leases == (if Needs(s, d) then LiveLeases(s.leases, d.snap.now) else s.leases)
    && t.pins.Keys == (if Needs(s, d) then s.pins.Keys + {d.commitSha} else s.pins.Keys)
    && (forall c :: c in s.pins ==> t.pins[c] == s.pins[c])
    && (Needs(s, d) ==> t.pins[d.commitSha].treeSha == d.snap.treeSha)
    && (forall id :: SameEntry(s, t, id))
  }

  lemma LandedEffect(s: Repo, past: seq<seq<Ref>>, d: Delivery)
    requires Truthful(s, past) && Lands(s, d)
    ensures After(s, d, Deliver1(s, d))
  {
    LandingForm(s, d);
    DeliveryEffect(s, past, d);
    InstalledPinsAndLeases(s, d.id.sequence, PinFactOf(s.journal[d.id].fact), d.snap);
    InstallTouchesPinsOnly(s, d.id.sequence, PinFactOf(s.journal[d.id].fact), d.snap);
  }

  lemma InstalledPinsAndLeases(s: Repo, sequence: int, f: PinFact, snap: Snapshot)
    requires InstallOutcome(s, f, snap).Installed?
    ensures var t, needs := InstallStep(s, sequence, f, snap), NeedsLease(s, f.commitSha);
            && t.leases == (if needs then LiveLeases(s.leases, snap.now) else s.leases)
            && t.pins.Keys == (if needs then s.pins.Keys + {f.commitSha} else s.pins.Keys)
            && (forall c :: c in s.pins ==> t.pins[c] == s.pins[c])
            && (needs ==> t.pins[f.commitSha].treeSha == snap.treeSha)
  {}

  lemma CleanLands(s: Repo, past: seq<seq<Ref>>, ds: seq<Delivery>, d: Delivery)
    requires Truthful(s, past) && PinsInOrder(s) && Clean(s, ds) && d in ds
    ensures Lands(s, d)
  {
    LandsIff(s, past, d);
    if Needs(s, d) {
      assert Covered(s, ds, d);
      var lease :| lease in s.leases && Projects(lease, d.snap.token.value) && Outlives(s, ds, d, lease);
      var i :| 0 <= i < |s.leases| && s.leases[i] == lease;
    }
  }

  /** A reachable state in which the batch is clean. */
  ghost predicate Ready(s: Repo, past: seq<seq<Ref>>, ds: seq<Delivery>) {
    Truthful(s, past) && PinsInOrder(s) && Clean(s, ds)
  }

  lemma ReadyStays(s: Repo, past: seq<seq<Ref>>, ds: seq<Delivery>, d: Delivery)
    requires Ready(s, past, ds) && d in ds
    ensures Lands(s, d) && Ready(Deliver1(s, d), past, ds)
  {
    CleanLands(s, past, ds, d);
    LandedEffect(s, past, d);
    CleanAfter(s, ds, d, Deliver1(s, d));
    ProjectKeepsTruth(s, past, d.id, d.commitSha, d.snap);
    ProjectInOrder(s, d.id, d.commitSha, d.snap);
  }

  lemma CleanAfter(s: Repo, ds: seq<Delivery>, d: Delivery, t: Repo)
    requires Clean(s, ds) && d in ds && After(s, d, t)
    ensures Clean(t, ds)
  {
    forall e | e in ds ensures Usable(t, e) && Covered(t, ds, e) {
      assert SameEntry(s, t, e.id) && Usable(s, e) && OneTree(s, d, e);
      CoveredStays(s, t, ds, d, e);
    }
    forall e, f | e in ds && f in ds ensures OneTree(t, e, f) { assert OneTree(s, e, f); }
  }

  lemma CoveredStays(s: Repo, t: Repo, ds: seq<Delivery>, d: Delivery, e: Delivery)
    requires d in ds && Covered(s, ds, e)
    requires t.leases == (if Needs(s, d) then LiveLeases(s.leases, d.snap.now) else s.leases)
    requires t.pins.Keys == (if Needs(s, d) then s.pins.Keys + {d.commitSha} else s.pins.Keys)
    ensures Covered(t, ds, e)
  {
    if Needs(t, e) {
      assert Needs(s, e);
      var lease :| lease in s.leases && Projects(lease, e.snap.token.value) && Outlives(s, ds, e, lease);
      LiveMember(s.leases, d.snap.now, lease);
      assert OutlivesCheck(s, e, d, lease);
      forall f | f in ds ensures OutlivesCheck(t, e, f, lease) { assert OutlivesCheck(s, e, f, lease); }
    }
  }

  // ---------- The whole batch ----------

  predicate LandsAt(s: Repo, es: seq<Delivery>, i: nat)
    requires i < |es|
  {
    Lands(DeliverAll(s, es[..i]), es[i])
  }

  /** Every delivery of the list lands when its turn comes. */
  ghost predicate AllLand(s: Repo, es: seq<Delivery>) {
    forall i :: 0 <= i < |es| ==> LandsAt(s, es, i)
  }

  function Ids(ds: seq<Delivery>): set<JournalId> {
    set d | d in ds :: d.id
  }

  /** Whatever is drawn from a clean batch, in any order and with any repeats,
      lands in full. */
  lemma {:induction false} CleanBatchLands(s: Repo, past: seq<seq<Ref>>, ds: seq<Delivery>, es: seq<Delivery>)
    requires Ready(s, past, ds) && forall e :: e in es ==> e in ds
    ensures AllLand(s, es) && Landed(s, es) == Ids(es)
    ensures Ready(DeliverAll(s, es), past, ds)
  {
    if es != [] {
      var front, d := es[..|es| - 1], es[|es| - 1];
      forall e | e in front ensures e in ds { assert e in es; }
      CleanBatchLands(s, past, ds, front);
      ReadyStays(DeliverAll(s, front), past, ds, d);
      OneMoreLands(s, es);
      IdsOneMore(es);
    }
  }

  lemma IdsOneMore(es: seq<Delivery>)
    requires es != []
    ensures Ids(es) == Ids(es[..|es| - 1]) + {es[|es| - 1].id}
  {
    assert es == es[..|es| - 1] + [es[|es| - 1]];
  }

  lemma OneMoreLands(s: Repo, es: seq<Delivery>)
    requires es != [] && AllLand(s, es[..|es| - 1]) && Lands(DeliverAll(s, es[..|es| - 1]), es[|es| - 1])
    ensures AllLand(s, es)
  {
    var front := es[..|es| - 1];
    forall i | 0 <= i < |es| ensures LandsAt(s, es, i) {
      if i < |front| {
        assert LandsAt(s, front, i) && front[..i] == es[..i] && front[i] == es[i];
      }
    }
  }

  // ---------- Exactly the clean batches land in every order ----------

  /** Every delivery lands in every arrangement of the batch. A delivery keeps its
      own time of arrival wherever it is put, so the arrangements include those in
      which the clock runs backwards. */
  ghost predicate EveryOrderLands(s: Repo, ds: seq<Delivery>) {
    forall es :: multiset(es) == multiset(ds) ==> AllLand(s, es)
  }

  function Without(ds: seq<Delivery>, i: nat): seq<Delivery>
    requires i < |ds|
  {
    ds[..i] + ds[i + 1..]
  }

  lemma MoveToFront(ds: seq<Delivery>, i: nat)
    requires i < |ds|
    ensures multiset([ds[i]] + Without(ds, i)) == multiset(ds)
  {
    assert ds == ds[..i] + ([ds[i]] + ds[i + 1..]);
  }

  /** Some order begins with this delivery, so it lands where the batch starts. */
  lemma FirstLands(s: Repo, ds: seq<Delivery>, d: Delivery)
    requires EveryOrderLands(s, ds) && d in ds
    ensures Lands(s, d)
  {
    var i :| 0 <= i < |ds| && ds[i] == d;
    var es := [d] + Without(ds, i);
    MoveToFront(ds, i);
    assert AllLand(s, es) && LandsAt(s, es, 0) && es[..0] == [];
  }

  lemma TwoInFront(ds: seq<Delivery>, e: Delivery, d: Delivery) returns (es: seq<Delivery>)
    requires d in ds && e in ds && d != e
    ensures multiset(es) == multiset(ds) && |es| >= 2 && es[0] == e && es[1] == d
  {
    var i :| 0 <= i < |ds| && ds[i] == e;
    var rest := Without(ds, i);
    MoveToFront(ds, i);
    assert d in multiset([e] + rest) && [e] + rest == [e] + rest[..];
    assert multiset([e] + rest) == multiset{e} + multiset(rest);
    assert d in rest;
    var j :| 0 <= j < |rest| && rest[j] == d;
    MoveToFront(rest, j);
    es := [e] + ([d] + Without(rest, j));
    assert multiset(es) == multiset{e} + multiset([d] + Without(rest, j));
  }

  /** And some order has another right before it. */
  lemma SecondLands(s: Repo, ds: seq<Delivery>, d: Delivery, e: Delivery)
    requires EveryOrderLands(s, ds) && d in ds && e in ds && d != e
    ensures Lands(Deliver1(s, e), d)
  {
    var es := TwoInFront(ds, e, d);
    assert AllLand(s, es) && LandsAt(s, es, 1);
    assert es[..1] == [e];
    DeliverOne(s, e);
  }

  lemma DeliverOne(s: Repo, d: Delivery)
    ensures DeliverAll(s, [d]) == Deliver1(s, d)
  {
    assert [d][..0] == [];
  }

  lemma DeliverTwo(s: Repo, d: Delivery, e: Delivery)
    ensures DeliverAll(s, [d, e]) == Deliver1(Deliver1(s, d), e)
  {
    assert [d, e][..1] == [d];
    DeliverOne(s, d);
  }

  /** The latest check in the batch that could drop a lease of `d`. */
  lemma {:induction false} LatestRival(s: Repo, ds: seq<Delivery>, d: Delivery) returns (rival: Option<Delivery>)
    ensures rival.None? ==> forall e :: e in ds && Needs(s, e) ==> e.commitSha == d.commitSha
    ensures rival.Some? ==> rival.value in ds && Needs(s, rival.value) && rival.value.commitSha != d.commitSha
    ensures rival.Some? ==>
      forall e :: e in ds && Needs(s, e) && e.commitSha != d.commitSha ==> e.snap.now <= rival.value.snap.now
  {
    rival := None;
    if ds != [] {
      var front, last := ds[..|ds| - 1], ds[|ds| - 1];
      assert ds == front + [last];
      rival := LatestRival(s, front, d);
      if Needs(s, last) && last.commitSha != d.commitSha && (rival.None? || rival.value.snap.now < last.snap.now) {
        rival := Some(last);
      }
    }
  }

  lemma LandingCovers(s: Repo, past: seq<seq<Ref>>, ds: seq<Delivery>, d: Delivery)
    requires Truthful(s, past) && PinsInOrder(s) && EveryOrderLands(s, ds) && d in ds
    ensures Covered(s, ds, d)
  {
    if Needs(s, d) {
      FirstLands(s, ds, d);
      LandsIff(s, past, d);
      var rival := LatestRival(s, ds, d);
      if rival.None? {
        var i :| 0 <= i < |s.leases| && s.leases[i].expiresAt > d.snap.now && Projects(s.leases[i], d.snap.token.value);
        forall e | e in ds ensures OutlivesCheck(s, d, e, s.leases[i]) {}
        assert Outlives(s, ds, d, s.leases[i]);
      } else {
        LandingAfterRival(s, past, ds, d, rival.value);
      }
    }
  }

  lemma LandingAfterRival(s: Repo, past: seq<seq<Ref>>, ds: seq<Delivery>, d: Delivery, rival: Delivery)
    requires Truthful(s, past) && PinsInOrder(s) && EveryOrderLands(s, ds) && d in ds && Needs(s, d)
    requires rival in ds && Needs(s, rival) && rival.commitSha != d.commitSha
    requires forall e :: e in ds && Needs(s, e) && e.commitSha != d.commitSha ==> e.snap.now <= rival.snap.now
    ensures Covered(s, ds, d)
  {
    var t := Deliver1(s, rival);
    FirstLands(s, ds, rival);
    SecondLands(s, ds, d, rival);
    LandedEffect(s, past, rival);
    ProjectKeepsTruth(s, past, rival.id, rival.commitSha, rival.snap);
    ProjectInOrder(s, rival.id, rival.commitSha, rival.snap);
    LandsIff(t, past, d);
    assert Needs(t, d);
    var i :| 0 <= i < |t.leases| && t.leases[i].expiresAt > d.snap.now && Projects(t.leases[i], d.snap.token.value);
    LiveMember(s.leases, rival.snap.now, t.leases[i]);
    forall e | e in ds ensures OutlivesCheck(s, d, e, t.leases[i]) {}
    assert Outlives(s, ds, d, t.leases[i]);
  }

  lemma LandingAgrees(s: Repo, past: seq<seq<Ref>>, ds: seq<Delivery>, d: Delivery, e: Delivery)
    requires Truthful(s, past) && PinsInOrder(s) && EveryOrderLands(s, ds) && d in ds && e in ds
    ensures OneTree(s, d, e)
  {
    if d.commitSha == e.commitSha && Needs(s, d) && d != e {
      FirstLands(s, ds, d);
      SecondLands(s, ds, e, d);
      LandedEffect(s, past, d);
      ProjectKeepsTruth(s, past, d.id, d.commitSha, d.snap);
      ProjectInOrder(s, d.id, d.commitSha, d.snap);
      LandsIff(Deliver1(s, d), past, e);
    }
  }

  /** Every delivery of a batch lands in every order exactly when the batch is
      clean, which is decided before anything is delivered. That a clean batch is
      enough holds whatever the clock does; that it is needed uses arrangements in
      which the latest check comes first. */
  lemma EveryOrderLandsIff(s: Repo, past: seq<seq<Ref>>, ds: seq<Delivery>)
    requires Truthful(s, past) && PinsInOrder(s)
    ensures EveryOrderLands(s, ds) <==> Clean(s, ds)
  {
    if EveryOrderLands(s, ds) {
      forall d | d in ds ensures Usable(s, d) && Covered(s, ds, d) {
        FirstLands(s, ds, d);
        LandsIff(s, past, d);
        LandingCovers(s, past, ds, d);
      }
      forall d, e | d in ds && e in ds ensures OneTree(s, d, e) { LandingAgrees(s, past, ds, d, e); }
    }
    if Clean(s, ds) {
      forall es | multiset(es) == multiset(ds) ensures AllLand(s, es) {
        forall e | e in es ensures e in ds { assert e in multiset(es); }
        CleanBatchLands(s, past, ds, es);
      }
    }
  }

  // ---------- Confluence ----------

  /** Clean batches of the same entries, however ordered and repeated, leave every
      pointer at the same commit and sequence: the greatest delivered. */
  lemma DeliveriesConfluent(s: Repo, past: seq<seq<Ref>>, ds: seq<Delivery>, es: seq<Delivery>, ref: string)
    requires Truthful(s, past) && PinsInOrder(s)
    requires Clean(s, ds) && Clean(s, es) && Ids(ds) == Ids(es)
    ensures SamePosition(DeliverAll(s, ds), DeliverAll(s, es), ref)
    ensures AtGreatest(s, Ids(ds), DeliverAll(s, ds).currents, ref)
  {
    CleanBatchLands(s, past, ds, ds);
    CleanBatchLands(s, past, es, es);
    SameLandedSamePointers(s, past, ds, es, ref);
    DeliveriesReachTheGreatest(s, past, ds, ref);
  }

  lemma {:induction false} LandedIsDelivered(s: Repo, past: seq<seq<Ref>>, es: seq<Delivery>)
    requires Truthful(s, past)
    ensures Landed(s, es) <= Ids(es)
    ensures forall id :: id in Landed(s, es) ==> id in s.journal
  {
    if es != [] {
      var front, d := es[..|es| - 1], es[|es| - 1];
      LandedIsDelivered(s, past, front);
      DeliveriesKeepTruth(s, past, front);
      var t := DeliverAll(s, front);
      assert SameEntry(s, t, d.id);
      DeliveryEffect(t, past, d);
      IdsOneMore(es);
    }
  }

  predicate EndsAt(t: Repo, id: JournalId) {
    id.ref in t.currents && t.currents[id.ref].sequence == id.sequence
  }

  /** The greatest of these deliveries for its ref, and ahead of its pointer. */
  ghost predicate Foremost(s: Repo, es: seq<Delivery>, id: JournalId) {
    && (id.ref in s.currents ==> s.currents[id.ref].sequence < id.sequence)
    && (forall other :: other in Ids(es) && other.ref == id.ref ==> other.sequence <= id.sequence)
  }

  /** After these deliveries, the pointer is at this entry. */
  predicate EndsIn(s: Repo, es: seq<Delivery>, id: JournalId) {
    EndsAt(DeliverAll(s, es), id)
  }

  predicate LandsIn(s: Repo, es: seq<Delivery>, id: JournalId) {
    id in Landed(s, es)
  }

  lemma EndsIffLands(s: Repo, past: seq<seq<Ref>>, es: seq<Delivery>, id: JournalId)
    requires Truthful(s, past) && Foremost(s, es, id)
    ensures EndsIn(s, es, id) <==> LandsIn(s, es, id)
  {
    var currents := DeliverAll(s, es).currents;
    DeliveriesReachTheGreatest(s, past, es, id.ref);
    LandedIsDelivered(s, past, es);
    if id in Landed(s, es) {
      assert Candidate(s, Landed(s, es), id.ref, s.journal[id].fact.afterSha, id.sequence);
      assert JournalId(currents[id.ref].sequence, id.ref) in Ids(es);
    }
    if EndsIn(s, es, id) {
      assert Candidate(s, Landed(s, es), id.ref, currents[id.ref].commitSha, id.sequence);
    }
  }

  /** A ref's pointer ends at the greatest delivered entry in every order exactly
      when that entry lands in every order, whatever becomes of the others. */
  lemma GreatestInEveryOrderIff(s: Repo, past: seq<seq<Ref>>, ds: seq<Delivery>, id: JournalId)
    requires Truthful(s, past) && Foremost(s, ds, id)
    ensures (forall es :: multiset(es) == multiset(ds) ==> EndsIn(s, es, id)) <==>
            (forall es :: multiset(es) == multiset(ds) ==> LandsIn(s, es, id))
  {
    forall es | multiset(es) == multiset(ds) ensures EndsIn(s, es, id) <==> LandsIn(s, es, id) {
      forall e | e in es ensures e in ds { assert e in multiset(es); }
      EndsIffLands(s, past, es, id);
    }
    if forall es :: multiset(es) == multiset(ds) ==> EndsIn(s, es, id) {
      forall es | multiset(es) == multiset(ds) ensures LandsIn(s, es, id) { assert EndsIn(s, es, id); }
    }
    if forall es :: multiset(es) == multiset(ds) ==> LandsIn(s, es, id) {
      forall es | multiset(es) == multiset(ds) ensures EndsIn(s, es, id) { assert LandsIn(s, es, id); }
    }
  }

  lemma LaterAfterEarlier(s: Repo, past: seq<seq<Ref>>, d: Delivery, e: Delivery)
    requires Truthful(s, past) && PinsInOrder(s)
    requires Lands(s, d) && Needs(s, d) && Usable(s, e) && e.commitSha == d.commitSha
             && e.snap.treeSha == d.snap.treeSha
    ensures Truthful(Deliver1(s, d), past) && Lands(Deliver1(s, d), e)
  {
    LandedEffect(s, past, d);
    ProjectKeepsTruth(s, past, d.id, d.commitSha, d.snap);
    ProjectInOrder(s, d.id, d.commitSha, d.snap);
    assert SameEntry(s, Deliver1(s, d), e.id);
    LandsIff(Deliver1(s, d), past, e);
  }

  /** Without a lease of its own, a later entry of a commit lands only after an
      earlier one has pinned it: the two orders end at different sequences. */
  lemma OrderMatters(s: Repo, past: seq<seq<Ref>>, d: Delivery, e: Delivery)
    requires Truthful(s, past) && PinsInOrder(s)
    requires Lands(s, d) && Needs(s, d) && Usable(s, e) && !Given(e.snap.token)
    requires e.commitSha == d.commitSha && e.snap.treeSha == d.snap.treeSha
    requires e.id.ref == d.id.ref && d.id.sequence < e.id.sequence && d.id.ref !in s.currents
    ensures d.id.ref in DeliverAll(s, [d, e]).currents && d.id.ref in DeliverAll(s, [e, d]).currents
    ensures DeliverAll(s, [d, e]).currents[d.id.ref].sequence == e.id.sequence
    ensures DeliverAll(s, [e, d]).currents[d.id.ref].sequence == d.id.sequence
  {
    DeliverTwo(s, d, e);
    DeliverTwo(s, e, d);
    WithoutTokenNothing(s, e);
    LaterAfterEarlier(s, past, d, e);
    DeliveryEffect(s, past, d);
    DeliveryEffect(Deliver1(s, d), past, e);
  }

  lemma WithoutTokenNothing(s: Repo, e: Delivery)
    requires Usable(s, e) && Needs(s, e) && !Given(e.snap.token)
    ensures Deliver1(s, e) == s
  {}

  // ---------- Such a state is reachable ----------

  function CreatedTwice(a: string, context: Context, lease: Lease): seq<Event> {
    [Accept(Push(0, [ReceiveCommand(ZERO_OID, a, MAIN)], [Fact(context, MAIN, ZERO_OID, a)], 0, true, None)),
     SetRefs([]),
     Accept(Push(2, [ReceiveCommand(ZERO_OID, a, MAIN)], [Fact(context, MAIN, ZERO_OID, a)], 0, true, None)),
     SetLeases([lease])]
  }

  lemma CreatedTwiceState(a: string, context: Context, lease: Lease)
    requires a != ZERO_OID
    ensures var es := CreatedTwice(a, context, lease); var s := Run(EMPTY_REPO, es);
            && AllFitting(es)
            && !s.deleting && s.pins == map[] && s.currents == map[] && s.leases == [lease]
            && EntryMatches(s, JournalId(1, MAIN), a) && EntryMatches(s, JournalId(3, MAIN), a)
  {
    var es := CreatedTwice(a, context, lease);
    CreatingFits(es[0].push, 0, a);
    CreatingFits(es[2].push, 2, a);
    assert es[..4] == es && es[..4][..3] == es[..3] && es[..3][..2] == es[..2];
    assert es[..2][..1] == es[..1] && es[..1][..0] == [];
    CreatingPush(EMPTY_REPO, es[0].push, a);
    var s1 := AcceptStep(EMPTY_REPO, es[0].push);
    assert Run(EMPTY_REPO, es[..1]) == s1;
    var s2 := s1.(refs := [], refsVersion := 2);
    assert Run(EMPTY_REPO, es[..2]) == s2;
    CreatingPush(s2, es[2].push, a);
    assert Run(EMPTY_REPO, es[..3]) == AcceptStep(s2, es[2].push);
  }

  /** A ref created twice at one commit: its two entries are delivered, one with a
      lease and one without, and the order decides where the pointer ends. */
  lemma OrderMattersIsReachable(a: string, tree: string, context: Context, token: string)
    requires a != ZERO_OID && ValidPinnedSha(tree) && token != ""
    ensures var es := CreatedTwice(a, context, Lease(token, "snapshot-projection", 1)); var s := Run(EMPTY_REPO, es);
            var first := Delivery(JournalId(1, MAIN), a, Snapshot(tree, 0, Some(token), 0));
            var third := Delivery(JournalId(3, MAIN), a, Snapshot(tree, 0, None, 0));
            && AllFitting(es)
            && MAIN in DeliverAll(s, [first, third]).currents && MAIN in DeliverAll(s, [third, first]).currents
            && DeliverAll(s, [first, third]).currents[MAIN].sequence == 3
            && DeliverAll(s, [third, first]).currents[MAIN].sequence == 1
  {
    var lease := Lease(token, "snapshot-projection", 1);
    var es := CreatedTwice(a, context, lease);
    var s := Run(EMPTY_REPO, es);
    CreatedTwiceState(a, context, lease);
    RunsStayTruthful(es);
    PinExcludesTombstone(es);
    var first := Delivery(JournalId(1, MAIN), a, Snapshot(tree, 0, Some(token), 0));
    var third := Delivery(JournalId(3, MAIN), a, Snapshot(tree, 0, None, 0));
    assert s.leases[0] == lease && Projects(lease, token);
    LandsIff(s, History(es), first);
    OrderMatters(s, History(es), first, third);
  }
}
