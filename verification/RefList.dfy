/** The repository's ref list and how a push rewrites it. */
module RefList {
  import opened Commands
  import opened NetFacts

  datatype Ref = Ref(name: string, oid: string)

  /** The id of the first entry with this name; the zero id if there is none. */
  function Authoritative(refs: seq<Ref>, name: string): string {
    if refs == [] then ZERO_OID
    else if refs[0].name == name then refs[0].oid
    else Authoritative(refs[1..], name)
  }

  function SetRef(refs: seq<Ref>, name: string, oid: string): seq<Ref> {
    if refs == [] then [Ref(name, oid)]
    else if refs[0].name == name then [Ref(name, oid)] + refs[1..]
    else [refs[0]] + SetRef(refs[1..], name, oid)
  }

  function DropRef(refs: seq<Ref>, name: string): seq<Ref> {
    if refs == [] then []
    else if refs[0].name == name then DropRef(refs[1..], name)
    else [refs[0]] + DropRef(refs[1..], name)
  }

  /** A map built from the list: one entry per name, the last id given. */
  function AsMap(refs: seq<Ref>): seq<Ref> {
    if refs == [] then []
    else
      var last := refs[|refs| - 1];
      SetRef(AsMap(refs[..|refs| - 1]), last.name, last.oid)
  }

  function ApplyOne(refs: seq<Ref>, c: ReceiveCommand): seq<Ref> {
    if c.newOid == ZERO_OID then DropRef(refs, c.ref) else SetRef(refs, c.ref, c.newOid)
  }

  function ApplyReceiveCommands(refs: seq<Ref>, cs: seq<ReceiveCommand>): seq<Ref> {
    if cs == [] then AsMap(refs) else ApplyOne(ApplyReceiveCommands(refs, Front(cs)), Last(cs))
  }

  lemma {:induction false} SetRefAuthority(refs: seq<Ref>, name: string, oid: string, other: string)
    ensures Authoritative(SetRef(refs, name, oid), other) == if other == name then oid else Authoritative(refs, other)
  {
    if refs != [] && refs[0].name != name {
      SetRefAuthority(refs[1..], name, oid, other);
    }
  }

  lemma {:induction false} DropRefAuthority(refs: seq<Ref>, name: string, other: string)
    ensures Authoritative(DropRef(refs, name), other) == if other == name then ZERO_OID else Authoritative(refs, other)
  {
    if refs != [] {
      DropRefAuthority(refs[1..], name, other);
    }
  }

  /** After a push each commanded ref has the id of its last command. */
  lemma {:induction false} PushedAuthority(refs: seq<Ref>, cs: seq<ReceiveCommand>, name: string)
    ensures Authoritative(ApplyReceiveCommands(refs, cs), name) ==
            if Touched(cs, name) then LastNew(cs, name) else Authoritative(AsMap(refs), name)
  {
    if cs != [] {
      var c := Last(cs);
      var before := ApplyReceiveCommands(refs, Front(cs));
      PushedAuthority(refs, Front(cs), name);
      TouchedByLast(cs, name);
      SetRefAuthority(before, c.ref, c.newOid, name);
      DropRefAuthority(before, c.ref, name);
    }
  }

  /** A name listed more than once has the id it was given last; one that is not
      listed has none. */
  lemma {:induction false} AsMapTakesLast(refs: seq<Ref>, name: string, i: int)
    requires -1 <= i < |refs| && (i >= 0 ==> refs[i].name == name)
    requires forall j :: i < j < |refs| ==> refs[j].name != name
    ensures Authoritative(AsMap(refs), name) == if i < 0 then ZERO_OID else refs[i].oid
  {
    if refs != [] {
      var front, last := refs[..|refs| - 1], refs[|refs| - 1];
      SetRefAuthority(AsMap(front), last.name, last.oid, name);
      if i < |front| {
        assert forall j :: 0 <= j < |front| ==> front[j] == refs[j];
        AsMapTakesLast(front, name, i);
      }
    }
  }
}
