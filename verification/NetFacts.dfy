/** A push as its net effect: one accepted-write fact per changed ref, and the
    independent matcher that re-checks such facts against the commands. */
module NetFacts {
  import opened Commands
  import opened Options
  import opened Ordering

  datatype Source = GitPush | Ingestion | Import | Reconcile

  datatype Context = Context(repositoryId: string, actor: string, source: Source, idempotencyKey: Option<string>)

  datatype Fact = Fact(context: Context, ref: string, beforeSha: string, afterSha: string)

  datatype Transition = Transition(beforeSha: string, afterSha: string)

  // ---------- What a command list does to one ref ----------

  ghost predicate Touched(cs: seq<ReceiveCommand>, ref: string) {
    exists i :: 0 <= i < |cs| && cs[i].ref == ref
  }

  function Last(cs: seq<ReceiveCommand>): ReceiveCommand
    requires cs != []
  {
    cs[|cs| - 1]
  }

  function Front(cs: seq<ReceiveCommand>): seq<ReceiveCommand>
    requires cs != []
  {
    cs[..|cs| - 1]
  }

  lemma TouchedByLast(cs: seq<ReceiveCommand>, ref: string)
    requires cs != []
    ensures Touched(cs, ref) <==> Last(cs).ref == ref || Touched(Front(cs), ref)
  {
    if i :| 0 <= i < |Front(cs)| && Front(cs)[i].ref == ref { assert cs[i].ref == ref; }
    if i :| 0 <= i < |cs| && cs[i].ref == ref {
      if i < |cs| - 1 { assert Front(cs)[i].ref == ref; }
    }
  }

  /** The old id of the first command for `ref`. */
  ghost function FirstOld(cs: seq<ReceiveCommand>, ref: string): string
    requires Touched(cs, ref)
  {
    TouchedByLast(cs, ref);
    if Touched(Front(cs), ref) then FirstOld(Front(cs), ref) else Last(cs).oldOid
  }

  /** The new id of the last command for `ref`. */
  ghost function LastNew(cs: seq<ReceiveCommand>, ref: string): string
    requires Touched(cs, ref)
  {
    TouchedByLast(cs, ref);
    if Last(cs).ref == ref then Last(cs).newOid else LastNew(Front(cs), ref)
  }

  /** Where `ref` is first mentioned. */
  ghost function FirstSeen(cs: seq<ReceiveCommand>, ref: string): (i: nat)
    requires Touched(cs, ref)
    ensures i < |cs| && cs[i].ref == ref && forall k :: 0 <= k < i ==> cs[k].ref != ref
  {
    TouchedByLast(cs, ref);
    if Touched(Front(cs), ref) then
      var i := FirstSeen(Front(cs), ref);
      assert forall k :: 0 <= k < |cs| - 1 ==> cs[k] == Front(cs)[k];
      i
    else
      assert forall k :: 0 <= k < |cs| - 1 ==> cs[k] == Front(cs)[k];
      |cs| - 1
  }

  /** `FirstOld` is the old id of the first command for the ref ... */
  lemma {:induction false} FirstOldIsFirst(cs: seq<ReceiveCommand>, ref: string)
    requires Touched(cs, ref)
    ensures FirstOld(cs, ref) == cs[FirstSeen(cs, ref)].oldOid
  {
    TouchedByLast(cs, ref);
    if Touched(Front(cs), ref) {
      FirstOldIsFirst(Front(cs), ref);
    }
  }

  /** ... and `LastNew` the new id of the last one. */
  lemma {:induction false} LastNewIsLast(cs: seq<ReceiveCommand>, ref: string) returns (i: nat)
    requires Touched(cs, ref)
    ensures i < |cs| && cs[i].ref == ref && cs[i].newOid == LastNew(cs, ref)
    ensures forall k :: i < k < |cs| ==> cs[k].ref != ref
  {
    TouchedByLast(cs, ref);
    if Last(cs).ref == ref {
      i := |cs| - 1;
    } else {
      i := LastNewIsLast(Front(cs), ref);
      assert forall k :: 0 <= k < |cs| - 1 ==> cs[k] == Front(cs)[k];
    }
  }

  ghost predicate Changes(cs: seq<ReceiveCommand>, ref: string) {
    Touched(cs, ref) && FirstOld(cs, ref) != LastNew(cs, ref)
  }

  ghost function ChangedRefs(cs: seq<ReceiveCommand>): (changed: set<string>)
    ensures forall ref :: ref in changed <==> Changes(cs, ref)
  {
    set i | 0 <= i < |cs| && Changes(cs, cs[i].ref) :: cs[i].ref
  }

  // ---------- The loop's map, in insertion order ----------

  /** `order` lists the refs met so far and `table` holds their net transition. */
  ghost predicate Folded(cs: seq<ReceiveCommand>, order: seq<string>, table: map<string, Transition>) {
    && Distinct(order)
    && Elements(order) == table.Keys
    && TableOf(cs, table)
  }

  ghost predicate TableOf(cs: seq<ReceiveCommand>, table: map<string, Transition>) {
    && (forall ref :: ref in table <==> Touched(cs, ref))
    && (forall ref :: ref in table ==> table[ref] == Transition(FirstOld(cs, ref), LastNew(cs, ref)))
  }

  /** Refs are listed as they were first mentioned. */
  ghost predicate InOrder(cs: seq<ReceiveCommand>, refs: seq<string>) {
    && (forall i :: 0 <= i < |refs| ==> Touched(cs, refs[i]))
    && (forall i, j :: 0 <= i < j < |refs| ==> FirstSeen(cs, refs[i]) < FirstSeen(cs, refs[j]))
  }

  lemma InOrderOneMore(cs: seq<ReceiveCommand>, refs: seq<string>)
    requires cs != [] && InOrder(Front(cs), refs)
    ensures InOrder(cs, refs)
    ensures !Touched(Front(cs), Last(cs).ref) ==> InOrder(cs, refs + [Last(cs).ref])
  {
    forall i | 0 <= i < |refs| ensures Touched(cs, refs[i]) && FirstSeen(cs, refs[i]) == FirstSeen(Front(cs), refs[i]) {
      TouchedByLast(cs, refs[i]);
    }
    TouchedByLast(cs, Last(cs).ref);
  }

  function FoldOne(c: ReceiveCommand, table: map<string, Transition>): map<string, Transition> {
    if c.ref in table then table[c.ref := table[c.ref].(afterSha := c.newOid)]
    else table[c.ref := Transition(c.oldOid, c.newOid)]
  }

  lemma FoldOneMore(cs: seq<ReceiveCommand>, order: seq<string>, table: map<string, Transition>)
    requires cs != [] && Folded(Front(cs), order, table)
    ensures Folded(cs, if Last(cs).ref in table then order else order + [Last(cs).ref], FoldOne(Last(cs), table))
  {
    var c := Last(cs);
    assert c.ref in table <==> c.ref in Elements(order);
    ElementsOfAppend(order, c.ref);
    TableOneMore(cs, table);
  }

  lemma TableOneMore(cs: seq<ReceiveCommand>, table: map<string, Transition>)
    requires cs != [] && TableOf(Front(cs), table)
    ensures TableOf(cs, FoldOne(Last(cs), table))
  {
    var c := Last(cs);
    forall ref ensures Touched(cs, ref) <==> ref == c.ref || Touched(Front(cs), ref) { TouchedByLast(cs, ref); }
  }

  method FoldCommands(cs: seq<ReceiveCommand>) returns (order: seq<string>, table: map<string, Transition>)
    ensures Folded(cs, order, table) && InOrder(cs, order)
  {
    order, table := [], map[];
    for i := 0 to |cs|
      invariant Folded(cs[..i], order, table)
      invariant InOrder(cs[..i], order)
    {
      var c := cs[i];
      assert Front(cs[..i + 1]) == cs[..i] && Last(cs[..i + 1]) == c;
      FoldOneMore(cs[..i + 1], order, table);
      InOrderOneMore(cs[..i + 1], order);
      if c.ref in table {
        table := table[c.ref := table[c.ref].(afterSha := c.newOid)];
      } else {
        table := table[c.ref := Transition(c.oldOid, c.newOid)];
        order := order + [c.ref];
      }
    }
    assert cs[..|cs|] == cs;
  }

  // ---------- Facts ----------

  function RefsOf(facts: seq<Fact>): seq<string> {
    seq(|facts|, i requires 0 <= i < |facts| => facts[i].ref)
  }

  ghost predicate DistinctRefs(facts: seq<Fact>) {
    forall i, j :: 0 <= i < j < |facts| ==> facts[i].ref != facts[j].ref
  }

  ghost predicate FactOf(cs: seq<ReceiveCommand>, f: Fact) {
    Changes(cs, f.ref) && f.beforeSha == FirstOld(cs, f.ref) && f.afterSha == LastNew(cs, f.ref)
  }

  /** One fact for each changed ref, and no other. */
  ghost predicate NetOf(cs: seq<ReceiveCommand>, facts: seq<Fact>) {
    && DistinctRefs(facts)
    && (forall i :: 0 <= i < |facts| ==> FactOf(cs, facts[i]))
    && (forall ref :: Changes(cs, ref) ==> exists i :: 0 <= i < |facts| && facts[i].ref == ref)
  }

  /** The facts of the refs in `order` whose transition changes something. */
  function Selected(context: Context, order: seq<string>, table: map<string, Transition>): seq<Fact>
    requires forall i :: 0 <= i < |order| ==> order[i] in table
  {
    if order == [] then []
    else
      var front, ref := order[..|order| - 1], order[|order| - 1];
      var t := table[ref];
      Selected(context, front, table)
      + if t.beforeSha != t.afterSha then [Fact(context, ref, t.beforeSha, t.afterSha)] else []
  }

  ghost predicate SelectedFrom(context: Context, order: seq<string>, table: map<string, Transition>, facts: seq<Fact>) {
    && (forall k :: 0 <= k < |facts| ==>
          && facts[k].context == context && facts[k].ref in order && facts[k].ref in table
          && table[facts[k].ref] == Transition(facts[k].beforeSha, facts[k].afterSha)
          && facts[k].beforeSha != facts[k].afterSha)
    && (forall m :: 0 <= m < |order| && order[m] in table && table[order[m]].beforeSha != table[order[m]].afterSha ==>
          exists k :: 0 <= k < |facts| && facts[k].ref == order[m])
    && DistinctRefs(facts)
  }

  lemma {:induction false} SelectedChanged(context: Context, order: seq<string>, table: map<string, Transition>)
    requires Distinct(order) && forall i :: 0 <= i < |order| ==> order[i] in table
    ensures SelectedFrom(context, order, table, Selected(context, order, table))
  {
    if order != [] {
      var front, ref := order[..|order| - 1], order[|order| - 1];
      SelectedChanged(context, front, table);
      var before, facts := Selected(context, front, table), Selected(context, order, table);
      SelectedOneMore(context, order, table, before, facts);
    }
  }

  lemma SelectedOneMore(context: Context, order: seq<string>, table: map<string, Transition>, before: seq<Fact>,
                        facts: seq<Fact>)
    requires Distinct(order) && order != [] && forall i :: 0 <= i < |order| ==> order[i] in table
    requires SelectedFrom(context, order[..|order| - 1], table, before)
    requires var ref := order[|order| - 1]; var t := table[ref];
             facts == before + if t.beforeSha != t.afterSha then [Fact(context, ref, t.beforeSha, t.afterSha)] else []
    ensures SelectedFrom(context, order, table, facts)
  {
    var front := order[..|order| - 1];
    assert forall k :: 0 <= k < |before| ==> facts[k] == before[k];
    assert forall m :: 0 <= m < |front| ==> front[m] == order[m];
    forall m | 0 <= m < |order| && table[order[m]].beforeSha != table[order[m]].afterSha
      ensures exists k :: 0 <= k < |facts| && facts[k].ref == order[m]
    {
      if m < |front| {
        var k :| 0 <= k < |before| && before[k].ref == front[m];
        assert facts[k].ref == order[m];
      } else {
        assert facts[|before|].ref == order[m];
      }
    }
  }

  lemma InOrderAppend(cs: seq<ReceiveCommand>, refs: seq<string>, ref: string)
    requires InOrder(cs, refs) && Touched(cs, ref)
    requires forall k :: 0 <= k < |refs| ==> FirstSeen(cs, refs[k]) < FirstSeen(cs, ref)
    ensures InOrder(cs, refs + [ref])
  {}

  lemma SelectedBefore(cs: seq<ReceiveCommand>, order: seq<string>, ref: string)
    requires InOrder(cs, order) && order != [] && ref in order[..|order| - 1]
    ensures Touched(cs, ref) && FirstSeen(cs, ref) < FirstSeen(cs, order[|order| - 1])
  {
    var m :| 0 <= m < |order| - 1 && order[..|order| - 1][m] == ref;
    assert order[m] == ref;
  }

  lemma SelectedAllBefore(cs: seq<ReceiveCommand>, context: Context, order: seq<string>,
                          table: map<string, Transition>, facts: seq<Fact>)
    requires Distinct(order) && order != [] && InOrder(cs, order) && forall i :: 0 <= i < |order| ==> order[i] in table
    requires facts == Selected(context, order[..|order| - 1], table)
    ensures forall k :: 0 <= k < |RefsOf(facts)| ==>
              Touched(cs, RefsOf(facts)[k]) && FirstSeen(cs, RefsOf(facts)[k]) < FirstSeen(cs, order[|order| - 1])
  {
    forall k | 0 <= k < |facts|
      ensures Touched(cs, facts[k].ref) && FirstSeen(cs, facts[k].ref) < FirstSeen(cs, order[|order| - 1])
    {
      SelectedChanged(context, order[..|order| - 1], table);
      SelectedBefore(cs, order, facts[k].ref);
    }
  }

  lemma InOrderFront(cs: seq<ReceiveCommand>, refs: seq<string>)
    requires InOrder(cs, refs) && refs != []
    ensures InOrder(cs, refs[..|refs| - 1])
  {
    var front := refs[..|refs| - 1];
    forall i | 0 <= i < |front| ensures Touched(cs, front[i]) { assert front[i] == refs[i]; }
    forall i, j | 0 <= i < j < |front| ensures FirstSeen(cs, front[i]) < FirstSeen(cs, front[j]) {
      assert front[i] == refs[i] && front[j] == refs[j];
    }
  }

  lemma {:induction false} SelectedInOrder(cs: seq<ReceiveCommand>, context: Context, order: seq<string>,
                                           table: map<string, Transition>)
    requires Distinct(order) && InOrder(cs, order) && forall i :: 0 <= i < |order| ==> order[i] in table
    ensures InOrder(cs, RefsOf(Selected(context, order, table)))
  {
    if order != [] {
      var front, ref := order[..|order| - 1], order[|order| - 1];
      InOrderFront(cs, order);
      SelectedInOrder(cs, context, front, table);
      var before := Selected(context, front, table);
      SelectedAllBefore(cs, context, order, table, before);
      InOrderAppend(cs, RefsOf(before), ref);
      if table[ref].beforeSha != table[ref].afterSha {
        assert RefsOf(Selected(context, order, table)) == RefsOf(before) + [ref];
      } else {
        assert Selected(context, order, table) == before;
      }
    }
  }

  method SelectChanged(context: Context, order: seq<string>, table: map<string, Transition>) returns (facts: seq<Fact>)
    requires forall i :: 0 <= i < |order| ==> order[i] in table
    ensures facts == Selected(context, order, table)
  {
    facts := [];
    for i := 0 to |order|
      invariant facts == Selected(context, order[..i], table)
    {
      var ref := order[i];
      assert order[..i + 1][..i] == order[..i];
      if table[ref].beforeSha != table[ref].afterSha {
        facts := facts + [Fact(context, ref, table[ref].beforeSha, table[ref].afterSha)];
      }
    }
    assert order[..|order|] == order;
  }

  method FactsForCommands(context: Context, cs: seq<ReceiveCommand>) returns (facts: seq<Fact>)
    ensures NetOf(cs, facts)
    ensures forall i :: 0 <= i < |facts| ==> facts[i].context == context
    ensures InOrder(cs, RefsOf(facts))
  {
    var order, table := FoldCommands(cs);
    forall i | 0 <= i < |order| ensures order[i] in table { assert order[i] in Elements(order); }
    facts := SelectChanged(context, order, table);
    SelectedChanged(context, order, table);
    SelectedInOrder(cs, context, order, table);
    SelectedIsNet(cs, context, order, table, facts);
  }

  lemma SelectedIsNet(cs: seq<ReceiveCommand>, context: Context, order: seq<string>, table: map<string, Transition>,
                      facts: seq<Fact>)
    requires Folded(cs, order, table) && SelectedFrom(context, order, table, facts)
    ensures NetOf(cs, facts)
  {
    forall ref | Changes(cs, ref) ensures exists i :: 0 <= i < |facts| && facts[i].ref == ref {
      assert ref in Elements(order);
      var m :| 0 <= m < |order| && order[m] == ref;
    }
  }

  // ---------- Facts have the commands' effect ----------

  type RefTable = map<string, string>

  function Apply(refs: RefTable, ref: string, oid: string): RefTable {
    if oid == ZERO_OID then refs - {ref} else refs[ref := oid]
  }

  /** Commands in order; the last one for a ref wins, and a zero id deletes. */
  function ApplyCommands(refs: RefTable, cs: seq<ReceiveCommand>): RefTable {
    if cs == [] then refs
    else Apply(ApplyCommands(refs, Front(cs)), Last(cs).ref, Last(cs).newOid)
  }

  function ApplyFacts(refs: RefTable, facts: seq<Fact>): RefTable {
    if facts == [] then refs
    else
      var last := facts[|facts| - 1];
      Apply(ApplyFacts(refs, facts[..|facts| - 1]), last.ref, last.afterSha)
  }

  function OidOf(refs: RefTable, ref: string): string {
    if ref in refs then refs[ref] else ZERO_OID
  }

  predicate NoZeroTargets(refs: RefTable) {
    forall ref :: ref in refs ==> refs[ref] != ZERO_OID
  }

  /** Tables without zero targets are determined by the id of each ref. */
  lemma SameTable(a: RefTable, b: RefTable)
    requires NoZeroTargets(a) && NoZeroTargets(b)
    requires forall ref :: OidOf(a, ref) == OidOf(b, ref)
    ensures a == b
  {
    forall ref ensures ref in a <==> ref in b {
      assert OidOf(a, ref) == OidOf(b, ref);
    }
    forall ref | ref in a ensures a[ref] == b[ref] {
      assert OidOf(a, ref) == OidOf(b, ref);
    }
  }

  lemma {:induction false} CommandsPointwise(refs: RefTable, cs: seq<ReceiveCommand>, ref: string)
    requires NoZeroTargets(refs)
    ensures NoZeroTargets(ApplyCommands(refs, cs))
    ensures OidOf(ApplyCommands(refs, cs), ref) == if Touched(cs, ref) then LastNew(cs, ref) else OidOf(refs, ref)
  {
    if cs != [] {
      CommandsPointwise(refs, Front(cs), ref);
      TouchedByLast(cs, ref);
    }
  }

  lemma {:induction false} FactsUntouched(refs: RefTable, facts: seq<Fact>, ref: string)
    requires forall i :: 0 <= i < |facts| ==> facts[i].ref != ref
    ensures OidOf(ApplyFacts(refs, facts), ref) == OidOf(refs, ref)
  {
    if facts != [] {
      FactsUntouched(refs, facts[..|facts| - 1], ref);
      assert facts[|facts| - 1].ref != ref;
    }
  }

  lemma {:induction false} FactWins(refs: RefTable, facts: seq<Fact>, i: nat)
    requires DistinctRefs(facts) && i < |facts|
    ensures OidOf(ApplyFacts(refs, facts), facts[i].ref) == facts[i].afterSha
  {
    if i < |facts| - 1 {
      FactWins(refs, facts[..|facts| - 1], i);
      assert facts[|facts| - 1].ref != facts[i].ref;
    }
  }

  lemma {:induction false} FactsKeepNoZero(refs: RefTable, facts: seq<Fact>)
    requires NoZeroTargets(refs)
    ensures NoZeroTargets(ApplyFacts(refs, facts))
  {
    if facts != [] {
      FactsKeepNoZero(refs, facts[..|facts| - 1]);
    }
  }

  /** Applying the facts equals applying the commands, whenever the commands were
      issued against the refs they started from. */
  lemma NetEffect(refs: RefTable, cs: seq<ReceiveCommand>, facts: seq<Fact>)
    requires NoZeroTargets(refs) && NetOf(cs, facts)
    requires forall ref :: Touched(cs, ref) ==> OidOf(refs, ref) == FirstOld(cs, ref)
    ensures ApplyFacts(refs, facts) == ApplyCommands(refs, cs)
  {
    CommandsPointwise(refs, cs, "");
    FactsKeepNoZero(refs, facts);
    forall ref ensures OidOf(ApplyFacts(refs, facts), ref) == OidOf(ApplyCommands(refs, cs), ref) {
      CommandsPointwise(refs, cs, ref);
      if Changes(cs, ref) {
        var i :| 0 <= i < |facts| && facts[i].ref == ref;
        assert FactOf(cs, facts[i]);
        FactWins(refs, facts, i);
      } else {
        forall i | 0 <= i < |facts| ensures facts[i].ref != ref { assert FactOf(cs, facts[i]); }
        FactsUntouched(refs, facts, ref);
      }
    }
    SameTable(ApplyFacts(refs, facts), ApplyCommands(refs, cs));
  }

  // ---------- The matcher ----------

  /** The matcher looks facts up among all transitions, changed or not. */
  ghost predicate Matches(cs: seq<ReceiveCommand>, facts: seq<Fact>) {
    && DistinctRefs(facts)
    && (forall i :: 0 <= i < |facts| ==>
          && Touched(cs, facts[i].ref)
          && facts[i].beforeSha == FirstOld(cs, facts[i].ref)
          && facts[i].afterSha == LastNew(cs, facts[i].ref))
    && |facts| == |ChangedRefs(cs)|
  }

  ghost function ChangedIn(table: map<string, Transition>, refs: set<string>): set<string> {
    set ref | ref in refs && ref in table && table[ref].beforeSha != table[ref].afterSha
  }

  lemma ChangedInTable(cs: seq<ReceiveCommand>, order: seq<string>, table: map<string, Transition>)
    requires Folded(cs, order, table)
    ensures ChangedIn(table, Elements(order)) == ChangedRefs(cs)
  {}

  lemma ChangedInAdd(table: map<string, Transition>, refs: set<string>, ref: string)
    requires ref !in refs && ref in table
    ensures |ChangedIn(table, refs + {ref})| ==
            |ChangedIn(table, refs)| + if table[ref].beforeSha != table[ref].afterSha then 1 else 0
  {
    assert ChangedIn(table, refs + {ref}) ==
           ChangedIn(table, refs) + if table[ref].beforeSha != table[ref].afterSha then {ref} else {};
  }

  method CountChanged(order: seq<string>, table: map<string, Transition>) returns (count: nat)
    requires Distinct(order) && Elements(order) == table.Keys
    ensures count == |ChangedIn(table, Elements(order))|
  {
    count := 0;
    for i := 0 to |order|
      invariant count == |ChangedIn(table, Elements(order[..i]))|
    {
      var ref := order[i];
      ElementsOfPrefix(order, i);
      assert ref in Elements(order);
      assert ref !in Elements(order[..i]);
      ChangedInAdd(table, Elements(order[..i]), ref);
      if table[ref].beforeSha != table[ref].afterSha {
        count := count + 1;
      }
    }
    assert order[..|order|] == order;
  }

  method FactsMatchCommands(cs: seq<ReceiveCommand>, facts: seq<Fact>) returns (ok: bool)
    ensures ok <==> Matches(cs, facts)
  {
    var order, table := FoldCommands(cs);
    ChangedInTable(cs, order, table);
    var count := CountChanged(order, table);
    if count != |facts| {
      return false;
    }
    ok := EachFactFits(table, facts);
  }

  ghost predicate Fits(table: map<string, Transition>, f: Fact) {
    f.ref in table && table[f.ref] == Transition(f.beforeSha, f.afterSha)
  }

  method EachFactFits(table: map<string, Transition>, facts: seq<Fact>) returns (ok: bool)
    ensures ok <==> DistinctRefs(facts) && forall i :: 0 <= i < |facts| ==> Fits(table, facts[i])
  {
    var seen: set<string> := {};
    for i := 0 to |facts|
      invariant seen == set k | 0 <= k < i :: facts[k].ref
      invariant DistinctRefs(facts[..i])
      invariant forall k :: 0 <= k < i ==> Fits(table, facts[k])
    {
      var f := facts[i];
      if f.ref in seen {
        return false;
      }
      seen := seen + {f.ref};
      if f.ref !in table || table[f.ref] != Transition(f.beforeSha, f.afterSha) {
        assert !Fits(table, facts[i]);
        return false;
      }
      assert facts[..i + 1] == facts[..i] + [f];
    }
    assert facts[..|facts|] == facts;
    ok := true;
  }

  lemma NetRefsAreTheChanged(cs: seq<ReceiveCommand>, net: seq<Fact>)
    requires NetOf(cs, net)
    ensures Distinct(RefsOf(net)) && |Elements(RefsOf(net))| == |net|
    ensures Elements(RefsOf(net)) == ChangedRefs(cs)
  {
    DistinctCardinality(RefsOf(net));
    forall ref ensures ref in Elements(RefsOf(net)) <==> Changes(cs, ref) {
      if Changes(cs, ref) {
        var i :| 0 <= i < |net| && net[i].ref == ref;
        assert RefsOf(net)[i] == ref;
      }
      if ref in RefsOf(net) {
        var i :| 0 <= i < |RefsOf(net)| && RefsOf(net)[i] == ref;
        assert FactOf(cs, net[i]);
      }
    }
  }

  /** Generated facts always pass. */
  lemma GeneratedFactsMatch(cs: seq<ReceiveCommand>, net: seq<Fact>)
    requires NetOf(cs, net)
    ensures Matches(cs, net)
  {
    NetRefsAreTheChanged(cs, net);
    assert forall i :: 0 <= i < |net| ==> FactOf(cs, net[i]);
  }

  datatype Key = Key(ref: string, beforeSha: string, afterSha: string)

  function Keys(facts: seq<Fact>): seq<Key> {
    seq(|facts|, i requires 0 <= i < |facts| => Key(facts[i].ref, facts[i].beforeSha, facts[i].afterSha))
  }

  predicate NoNoOps(facts: seq<Fact>) {
    forall i :: 0 <= i < |facts| ==> facts[i].beforeSha != facts[i].afterSha
  }

  /** A match without no-op facts names every changed ref. */
  lemma MatchWithoutNoOpsIsNet(cs: seq<ReceiveCommand>, facts: seq<Fact>)
    requires Matches(cs, facts) && NoNoOps(facts)
    ensures NetOf(cs, facts)
  {
    var changed := ChangedRefs(cs);
    DistinctCardinality(RefsOf(facts));
    forall ref | ref in Elements(RefsOf(facts)) ensures ref in changed {
      var i :| 0 <= i < |RefsOf(facts)| && RefsOf(facts)[i] == ref;
      assert facts[i].ref == ref;
    }
    SubsetCardinality(Elements(RefsOf(facts)), changed);
    forall ref | Changes(cs, ref) ensures exists i :: 0 <= i < |facts| && facts[i].ref == ref {
      assert ref in Elements(RefsOf(facts));
      var i :| 0 <= i < |RefsOf(facts)| && RefsOf(facts)[i] == ref;
    }
  }

  lemma NetKeys(cs: seq<ReceiveCommand>, facts: seq<Fact>)
    requires NetOf(cs, facts)
    ensures Distinct(Keys(facts))
    ensures forall k :: k in Elements(Keys(facts)) <==>
              Changes(cs, k.ref) && k.beforeSha == FirstOld(cs, k.ref) && k.afterSha == LastNew(cs, k.ref)
  {
    forall k ensures k in Elements(Keys(facts)) <==>
      Changes(cs, k.ref) && k.beforeSha == FirstOld(cs, k.ref) && k.afterSha == LastNew(cs, k.ref)
    {
      if k in Keys(facts) {
        var i :| 0 <= i < |Keys(facts)| && Keys(facts)[i] == k;
        assert FactOf(cs, facts[i]);
      }
      if Changes(cs, k.ref) && k.beforeSha == FirstOld(cs, k.ref) && k.afterSha == LastNew(cs, k.ref) {
        var i :| 0 <= i < |facts| && facts[i].ref == k.ref;
        assert FactOf(cs, facts[i]);
        assert Keys(facts)[i] == k;
      }
    }
  }

  /** The matcher accepts a list without no-op facts exactly when it is a
      rearrangement of the generated facts. */
  lemma MatchesExactlyPermutations(cs: seq<ReceiveCommand>, net: seq<Fact>, facts: seq<Fact>)
    requires NetOf(cs, net)
    ensures Matches(cs, facts) && NoNoOps(facts) <==> multiset(Keys(facts)) == multiset(Keys(net))
  {
    NetKeys(cs, net);
    if Matches(cs, facts) && NoNoOps(facts) {
      MatchWithoutNoOpsIsNet(cs, facts);
      NetKeys(cs, facts);
      SameElementsSameMultiset(Keys(facts), Keys(net));
    }
    if multiset(Keys(facts)) == multiset(Keys(net)) {
      RearrangedIsNet(cs, net, facts);
      GeneratedFactsMatch(cs, facts);
      forall i | 0 <= i < |facts| ensures facts[i].beforeSha != facts[i].afterSha { assert FactOf(cs, facts[i]); }
    }
  }

  lemma RearrangedIsNet(cs: seq<ReceiveCommand>, net: seq<Fact>, facts: seq<Fact>)
    requires NetOf(cs, net) && multiset(Keys(facts)) == multiset(Keys(net))
    ensures NetOf(cs, facts)
  {
    NetKeys(cs, net);
    MultisetElements(Keys(facts), Keys(net));
    MultisetDistinct(Keys(facts), Keys(net));
    forall i | 0 <= i < |facts| ensures FactOf(cs, facts[i]) {
      assert Keys(facts)[i] in Elements(Keys(net));
    }
    forall i, j | 0 <= i < j < |facts| ensures facts[i].ref != facts[j].ref {
      assert FactOf(cs, facts[i]) && FactOf(cs, facts[j]);
      assert Keys(facts)[i] != Keys(facts)[j];
    }
    forall ref | Changes(cs, ref) ensures exists i :: 0 <= i < |facts| && facts[i].ref == ref {
      var k := Key(ref, FirstOld(cs, ref), LastNew(cs, ref));
      assert k in Elements(Keys(facts));
      var i :| 0 <= i < |Keys(facts)| && Keys(facts)[i] == k;
      assert facts[i].ref == ref;
    }
  }

  /** Among the lists the matcher accepts, the net lists are exactly those
      without no-op facts. */
  lemma MatchIsNetIff(cs: seq<ReceiveCommand>, facts: seq<Fact>)
    requires Matches(cs, facts)
    ensures NetOf(cs, facts) <==> NoNoOps(facts)
  {
    if NoNoOps(facts) { MatchWithoutNoOpsIsNet(cs, facts); }
    if NetOf(cs, facts) {
      forall i | 0 <= i < |facts| ensures facts[i].beforeSha != facts[i].afterSha { assert FactOf(cs, facts[i]); }
    }
  }

  lemma OneCommand(a: ReceiveCommand, ref: string)
    ensures Touched([a], ref) <==> ref == a.ref
    ensures ref == a.ref ==> FirstOld([a], ref) == a.oldOid && LastNew([a], ref) == a.newOid
  {
    assert Front([a]) == [] && Last([a]) == a;
    TouchedByLast([a], ref);
  }

  lemma TwoCommands(a: ReceiveCommand, b: ReceiveCommand, ref: string)
    requires a.ref != b.ref
    ensures Touched([a, b], ref) <==> ref == a.ref || ref == b.ref
    ensures ref == a.ref ==> FirstOld([a, b], ref) == a.oldOid && LastNew([a, b], ref) == a.newOid
    ensures ref == b.ref ==> FirstOld([a, b], ref) == b.oldOid && LastNew([a, b], ref) == b.newOid
  {
    assert Front([a, b]) == [a] && Last([a, b]) == b;
    OneCommand(a, ref);
    TouchedByLast([a, b], ref);
  }

  /** A no-op fact can stand in for a changed ref: the matcher accepts it. */
  lemma NoOpFactSlipsThrough(context: Context, before: string, after: string, same: string)
    requires ValidOid(before) && ValidOid(after) && ValidOid(same) && before != after
    ensures var cs := [ReceiveCommand(before, after, "refs/heads/a"), ReceiveCommand(same, same, "refs/heads/b")];
            var facts := [Fact(context, "refs/heads/b", same, same)];
            Matches(cs, facts) && !NetOf(cs, facts)
  {
    var a, b := ReceiveCommand(before, after, "refs/heads/a"), ReceiveCommand(same, same, "refs/heads/b");
    assert "refs/heads/a"[11] != "refs/heads/b"[11];
    var cs := [a, b];
    var facts := [Fact(context, b.ref, same, same)];
    forall ref ensures Changes(cs, ref) <==> ref == a.ref { TwoCommands(a, b, ref); }
    assert ChangedRefs(cs) == {a.ref};
    TwoCommands(a, b, b.ref);
    assert Matches(cs, facts);
    assert !NoNoOps(facts) by { assert facts[0].beforeSha == facts[0].afterSha; }
    MatchIsNetIff(cs, facts);
  }
}
