/** A push applied once and sent again: nothing changes, and nothing throws. */
module PushReplay {
  import opened Commands
  import opened NetFacts
  import opened Options
  import opened RefList
  import opened SnapshotEffects
  import opened SnapshotPushes
  import opened SnapshotState

  /** Recording this fact changes nothing any more. */
  ghost predicate Absorbs(t: Repo, sequence: int, f: Fact, journal: bool, pin: Option<PinInput>) {
    && f.ref in t.heads && t.heads[f.ref] == Head(f.ref, f.beforeSha, f.afterSha, sequence)
    && (journal ==> Journalled(t, sequence, f))
    && (PinsFact(pin, f) ==>
          && RetainStep(t, sequence, PinFactOf(f), pin.value) == t
          && !RetainOutcome(t, sequence, PinFactOf(f), pin.value).Threw?)
  }

  lemma AbsorbOne(r: Recorded, sequence: int, f: Fact, at: int, journal: bool, pin: Option<PinInput>)
    requires !r.threw && Absorbs(r.state, sequence, f, journal, pin)
    ensures var u := RecordOne(r, sequence, f, at, journal, pin); !u.threw && u.state == r.state
  {
    assert WithHead(r.state, sequence, f) == r.state by {
      assert r.state.heads[f.ref := Head(f.ref, f.beforeSha, f.afterSha, sequence)] == r.state.heads;
    }
  }

  lemma {:induction false} AbsorbAll(t: Repo, sequence: int, facts: seq<Fact>, at: int, journal: bool,
                                     pin: Option<PinInput>)
    requires forall i :: 0 <= i < |facts| ==> Absorbs(t, sequence, facts[i], journal, pin)
    ensures var r := RecordAll(t, sequence, facts, at, journal, pin); !r.threw && r.state == t
  {
    if facts != [] {
      var front := facts[..|facts| - 1];
      assert forall i :: 0 <= i < |front| ==> front[i] == facts[i];
      AbsorbAll(t, sequence, front, at, journal, pin);
      AbsorbOne(RecordAll(t, sequence, front, at, journal, pin), sequence, facts[|facts| - 1], at, journal, pin);
    }
  }

  /** A pin once given, or refused, is so again at the same sequence. */
  lemma RetainAgain(s: Repo, t: Repo, retained: bool, sequence: int, first: Fact, f: Fact, pin: PinInput)
    requires PinLeft(s, t, retained, sequence, first, pin) && f.afterSha == pin.commitSha && ValidPinnedSha(pin.treeSha)
    requires retained && pin.advanceCurrent ==>
               f.ref in t.currents && t.currents[f.ref].sequence >= sequence
               && !PointerConflict(t, f.ref, f.afterSha, sequence)
    ensures RetainStep(t, sequence, PinFactOf(f), pin) == t
    ensures !RetainOutcome(t, sequence, PinFactOf(f), pin).Threw?
  {
    if retained {
      assert t.tombstones - {pin.commitSha} == t.tombstones;
      assert Pinned(t, sequence, PinFactOf(f), pin) == t;
    }
  }

  lemma PushAbsorbed(s: Repo, p: Push, i: int)
    requires Commits(s, p) && DistinctRefs(p.facts) && 0 <= i < |p.facts|
    ensures Absorbs(AcceptStep(s, p), p.expectedVersion + 1, p.facts[i], p.journal, p.pin)
  {
    var t, f, sequence := AcceptStep(s, p), p.facts[i], p.expectedVersion + 1;
    assert LastForRef(p.facts, i);
    PushIsRecorded(s, p, f.ref, i);
    if p.journal { PushIsJournalled(s, p, i); }
    if PinsFact(p.pin, f) {
      var pin := p.pin.value;
      CommittedForm(s, p);
      PushMovesPointers(s, p, f.ref);
      if k: int :| FirstWithCommit(p.facts, pin.commitSha, k) {
        PushPins(s, p, k);
        assert AsksForPointer(p.facts, p.pin, f.ref) <==> pin.advanceCurrent;
        RetainAgain(s, t, AcceptRecorded(s, p).retained, sequence, p.facts[k], f, pin);
      } else {
        NoFirst(p.facts, pin.commitSha);
      }
    }
  }

  /** The whole push again: it changes nothing whatever; it is accepted again, with
      no error, exactly when its commands leave the refs they made as they are. */
  lemma ReplayChangesNothing(s: Repo, p: Push)
    requires Commits(s, p) && DistinctRefs(p.facts)
    ensures var t := AcceptStep(s, p);
            && AcceptStep(t, p) == t
            && (Commits(t, p) <==> ApplyReceiveCommands(t.refs, p.commands) == t.refs)
  {
    var t, sequence := AcceptStep(s, p), p.expectedVersion + 1;
    PushMovesRefs(s, p, "");
    if ApplyReceiveCommands(t.refs, p.commands) == t.refs {
      assert Moved(t, p) == t;
      forall i | 0 <= i < |p.facts| ensures Absorbs(t, sequence, p.facts[i], p.journal, p.pin) {
        PushAbsorbed(s, p, i);
      }
      AbsorbAll(t, sequence, p.facts, p.acceptedAt, p.journal, p.pin);
      if p.facts != [] { CommittedForm(s, p); }
      assert PinFits(p.facts, p.pin) || p.facts == [];
    }
  }

  // ---------- Commands that may be applied twice ----------

  /** No command is undone by a later one for its ref. */
  ghost predicate AllFinal(cs: seq<ReceiveCommand>) {
    forall i :: 0 <= i < |cs| ==> Touched(cs, cs[i].ref) && cs[i].newOid == LastNew(cs, cs[i].ref)
  }

  /** The list already says what the command asks for. */
  ghost predicate Obeyed(refs: seq<Ref>, c: ReceiveCommand) {
    if c.newOid == ZERO_OID then !Named(refs, c.ref) else Named(refs, c.ref) && Authoritative(refs, c.ref) == c.newOid
  }

  lemma {:induction false} SetToSame(refs: seq<Ref>, name: string)
    requires Named(refs, name)
    ensures SetRef(refs, name, Authoritative(refs, name)) == refs
  {
    if refs[0].name != name {
      assert refs == [refs[0]] + refs[1..];
      NamedCons(refs[0], refs[1..], name);
      SetToSame(refs[1..], name);
    }
  }

  lemma {:induction false} DropAbsent(refs: seq<Ref>, name: string)
    requires !Named(refs, name)
    ensures DropRef(refs, name) == refs
  {
    if refs != [] {
      assert refs == [refs[0]] + refs[1..];
      NamedCons(refs[0], refs[1..], name);
      DropAbsent(refs[1..], name);
    }
  }

  lemma {:induction false} SetAppends(refs: seq<Ref>, name: string, oid: string)
    requires !Named(refs, name)
    ensures SetRef(refs, name, oid) == refs + [Ref(name, oid)]
  {
    if refs != [] {
      assert refs == [refs[0]] + refs[1..];
      NamedCons(refs[0], refs[1..], name);
      SetAppends(refs[1..], name, oid);
    }
  }

  lemma {:induction false} AsMapOfOnce(refs: seq<Ref>)
    requires NamedOnce(refs)
    ensures AsMap(refs) == refs
  {
    if refs != [] {
      var front, last := refs[..|refs| - 1], refs[|refs| - 1];
      AsMapOfOnce(front);
      assert !Named(front, last.name);
      SetAppends(front, last.name, last.oid);
    }
  }

  lemma {:induction false} ObeyedApplies(refs: seq<Ref>, cs: seq<ReceiveCommand>)
    requires NamedOnce(refs) && forall i :: 0 <= i < |cs| ==> Obeyed(refs, cs[i])
    ensures ApplyReceiveCommands(refs, cs) == refs
  {
    if cs == [] {
      AsMapOfOnce(refs);
    } else {
      ObeyedApplies(refs, Front(cs));
      assert Obeyed(refs, cs[|cs| - 1]);
      if Last(cs).newOid == ZERO_OID { DropAbsent(refs, Last(cs).ref); } else { SetToSame(refs, Last(cs).ref); }
    }
  }

  /** After a push a ref is listed exactly when its last command did not delete it. */
  lemma {:induction false} ListedIff(refs: seq<Ref>, cs: seq<ReceiveCommand>, name: string)
    requires Touched(cs, name)
    ensures Named(ApplyReceiveCommands(refs, cs), name) <==> LastNew(cs, name) != ZERO_OID
  {
    var c, before := Last(cs), ApplyReceiveCommands(refs, Front(cs));
    TouchedByLast(cs, name);
    SetRefNames(before, c.ref, c.newOid, name);
    DroppedIff(before, c.ref, name);
    if c.ref != name { ListedIff(refs, Front(cs), name); }
  }

  lemma {:induction false} DroppedIff(refs: seq<Ref>, name: string, other: string)
    ensures Named(DropRef(refs, name), other) <==> other != name && Named(refs, other)
  {
    if refs != [] {
      assert refs == [refs[0]] + refs[1..];
      NamedCons(refs[0], refs[1..], other);
      DroppedIff(refs[1..], name, other);
      NamedCons(refs[0], DropRef(refs[1..], name), other);
    }
  }

  /** Commands none of which is undone by a later one may be applied again without
      effect: their push is accepted again. */
  lemma FinalCommandsReplay(s: Repo, p: Push)
    requires Commits(s, p) && DistinctRefs(p.facts) && AllFinal(p.commands)
    ensures Commits(AcceptStep(s, p), p)
  {
    var t := AcceptStep(s, p);
    PushMovesRefs(s, p, "");
    PushNamesOnce(s.refs, p.commands);
    forall i | 0 <= i < |p.commands| ensures Obeyed(t.refs, p.commands[i]) {
      ListedIff(s.refs, p.commands, p.commands[i].ref);
      PushedAuthority(s.refs, p.commands, p.commands[i].ref);
    }
    ObeyedApplies(t.refs, p.commands);
    ReplayChangesNothing(s, p);
  }

  /** Others may not: deleting a ref, creating it again and creating a second one
      leaves the two in this order, and applied again in the other. */
  lemma UndoneCommandsMoveRefs(x: string)
    requires x != ZERO_OID
    ensures var cs := [ReceiveCommand(x, ZERO_OID, "a"), ReceiveCommand(ZERO_OID, x, "a"),
                       ReceiveCommand(ZERO_OID, x, "b")];
            && ApplyReceiveCommands([Ref("a", x)], cs) == [Ref("a", x), Ref("b", x)]
            && ApplyReceiveCommands([Ref("a", x), Ref("b", x)], cs) == [Ref("b", x), Ref("a", x)]
  {
    var cs := [ReceiveCommand(x, ZERO_OID, "a"), ReceiveCommand(ZERO_OID, x, "a"), ReceiveCommand(ZERO_OID, x, "b")];
    var one, two := [Ref("a", x)], [Ref("a", x), Ref("b", x)];
    ApplyThree(one, cs);
    ApplyThree(two, cs);
    AsMapOfOnce(one);
    AsMapOfOnce(two);
    assert two[1..] == [Ref("b", x)] && DropRef([Ref("b", x)], "a") == [Ref("b", x)];
  }

  lemma ApplyThree(refs: seq<Ref>, cs: seq<ReceiveCommand>)
    requires |cs| == 3
    ensures ApplyReceiveCommands(refs, cs) == ApplyOne(ApplyOne(ApplyOne(AsMap(refs), cs[0]), cs[1]), cs[2])
  {
    var two, one := cs[..2], cs[..1];
    assert Front(cs) == two && Front(two) == one && Front(one) == [];
    assert ApplyReceiveCommands(refs, []) == AsMap(refs);
    assert ApplyReceiveCommands(refs, one) == ApplyOne(AsMap(refs), cs[0]);
    assert ApplyReceiveCommands(refs, two) == ApplyOne(ApplyReceiveCommands(refs, one), cs[1]);
  }
}
