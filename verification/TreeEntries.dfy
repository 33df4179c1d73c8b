/** The entries of a Git tree object, and the objects a tree refers to. */
module TreeEntries {
  import opened Options
  import opened Bytes

  const SPACE: byte := 0x20
  const NUL: byte := 0
  /** Mode 160000: a commit of another repository. */
  const GITLINK: seq<byte> := [0x31, 0x36, 0x30, 0x30, 0x30, 0x30]

  datatype Entry = Entry(mode: seq<byte>, name: seq<byte>, oid: Oid)

  predicate WellFormed(e: Entry) {
    SPACE !in e.mode && NUL !in e.name
  }

  function PrintedEntry(e: Entry): seq<byte> {
    e.mode + [SPACE] + e.name + [NUL] + e.oid
  }

  function Printed(entries: seq<Entry>): seq<byte> {
    if entries == [] then [] else PrintedEntry(entries[0]) + Printed(entries[1..])
  }

  ghost predicate IsTree(payload: seq<byte>, entries: seq<Entry>) {
    payload == Printed(entries) && AllWellFormed(entries)
  }

  /** The ids of all entries but the gitlinks, in order. */
  function References(entries: seq<Entry>): seq<Oid> {
    if entries == [] then []
    else References(entries[..|entries| - 1]) + Reference(entries[|entries| - 1])
  }

  function Reference(e: Entry): seq<Oid> {
    if e.mode == GITLINK then [] else [e.oid]
  }

  // ---------- One entry ----------

  datatype Parts = Parts(before: seq<byte>, after: seq<byte>)

  /** Cuts at the first `b`. */
  function Cut(s: seq<byte>, b: byte): (parts: Option<Parts>)
    ensures parts.None? ==> b !in s
    ensures parts.Some? ==> b !in parts.value.before && s == parts.value.before + ([b] + parts.value.after)
  {
    if s == [] then None
    else if s[0] == b then Some(Parts([], s[1..]))
    else
      match Cut(s[1..], b)
      case None => None
      case Some(parts) => Some(Parts([s[0]] + parts.before, parts.after))
  }

  /** What a payload's rest begins with: an entry, and what follows it. */
  datatype Head = Head(entry: Entry, rest: seq<byte>) | BadHead

  function HeadOf(s: seq<byte>): (head: Head)
    ensures head.Head? ==> |head.rest| < |s|
  {
    match Cut(s, SPACE)
    case None => BadHead
    case Some(mode) =>
      match Cut(mode.after, NUL)
      case None => BadHead
      case Some(name) =>
        if |name.after| < OID_BYTES then BadHead
        else Head(Entry(mode.before, name.before, name.after[..OID_BYTES]), name.after[OID_BYTES..])
  }

  lemma EntryParts(e: Entry, rest: seq<byte>)
    ensures PrintedEntry(e) + rest == e.mode + ([SPACE] + (e.name + ([NUL] + (e.oid + rest))))
  {}

  lemma HeadIsPrinted(s: seq<byte>)
    requires HeadOf(s).Head?
    ensures WellFormed(HeadOf(s).entry)
    ensures s == PrintedEntry(HeadOf(s).entry) + HeadOf(s).rest
  {
    var head := HeadOf(s);
    var mode := Cut(s, SPACE).value;
    var name := Cut(mode.after, NUL).value;
    assert name.after == head.entry.oid + head.rest;
    EntryParts(head.entry, head.rest);
  }

  lemma {:induction false} CutOf(w: seq<byte>, b: byte, rest: seq<byte>)
    requires b !in w
    ensures Cut(w + ([b] + rest), b) == Some(Parts(w, rest))
  {
    var s := w + ([b] + rest);
    if w == [] {
      assert s == [b] + rest && s[1..] == rest;
    } else {
      assert s[1..] == w[1..] + ([b] + rest);
      CutOf(w[1..], b, rest);
      assert [w[0]] + w[1..] == w;
    }
  }

  lemma PrintedHasHead(e: Entry, rest: seq<byte>)
    requires WellFormed(e)
    ensures HeadOf(PrintedEntry(e) + rest) == Head(e, rest)
  {
    var afterName := e.oid + rest;
    EntryParts(e, rest);
    CutOf(e.mode, SPACE, e.name + ([NUL] + afterName));
    CutOf(e.name, NUL, afterName);
    assert afterName[..OID_BYTES] == e.oid && afterName[OID_BYTES..] == rest;
  }

  lemma PrintedHeadsAgree(e: Entry, a: seq<byte>, f: Entry, b: seq<byte>)
    requires WellFormed(e) && WellFormed(f) && PrintedEntry(e) + a == PrintedEntry(f) + b
    ensures e == f && a == b
  {
    PrintedHasHead(e, a);
    PrintedHasHead(f, b);
  }

  // ---------- The parser ----------

  /** The prefix before `cursor` is these entries. */
  ghost predicate ReadUpTo(payload: seq<byte>, cursor: nat, entries: seq<Entry>) {
    cursor <= |payload| && IsTree(payload[..cursor], entries)
  }

  lemma PrintedAppend(entries: seq<Entry>, e: Entry)
    ensures Printed(entries + [e]) == Printed(entries) + PrintedEntry(e)
  {
    if entries == [] {
      assert Printed([]) == [] && [e][1..] == [] && entries + [e] == [e];
    } else {
      PrintedAppend(entries[1..], e);
      assert (entries + [e])[1..] == entries[1..] + [e];
    }
  }

  lemma ReadOneMore(payload: seq<byte>, cursor: nat, entries: seq<Entry>)
    requires ReadUpTo(payload, cursor, entries) && HeadOf(payload[cursor..]).Head?
    ensures var head := HeadOf(payload[cursor..]); var next := |payload| - |head.rest|;
            next > cursor && ReadUpTo(payload, next, entries + [head.entry]) && payload[next..] == head.rest
  {
    var head := HeadOf(payload[cursor..]);
    HeadIsPrinted(payload[cursor..]);
    PrintedAppend(entries, head.entry);
    assert payload == Printed(entries + [head.entry]) + head.rest by {
      assert payload == payload[..cursor] + payload[cursor..];
    }
  }

  ghost predicate AllWellFormed(entries: seq<Entry>) {
    forall i :: 0 <= i < |entries| ==> WellFormed(entries[i])
  }

  /** Two readings of a payload agree: one that stopped goes as far as any other. */
  lemma {:induction false} Agree(read: seq<Entry>, rest: seq<byte>, whole: seq<Entry>)
    requires AllWellFormed(read) && AllWellFormed(whole) && Printed(read) + rest == Printed(whole)
    ensures |read| <= |whole| && whole[..|read|] == read && Printed(whole[|read|..]) == rest
  {
    if read == [] {
      assert whole[0..] == whole && Printed(read) + rest == rest;
    } else {
      var a, b := Printed(read[1..]) + rest, Printed(whole[1..]);
      assert Printed(read) + rest == PrintedEntry(read[0]) + a;
      assert |PrintedEntry(read[0])| > 0 && whole != [];
      PrintedHeadsAgree(read[0], a, whole[0], b);
      Agree(read[1..], rest, whole[1..]);
      assert whole[..|read|] == [whole[0]] + whole[1..][..|read| - 1];
      assert whole[|read|..] == whole[1..][|read| - 1..];
    }
  }

  /** Where no entry begins, the payload is no tree. */
  lemma NoHeadNoTree(payload: seq<byte>, read: seq<Entry>, cursor: nat, whole: seq<Entry>)
    requires ReadUpTo(payload, cursor, read) && cursor < |payload| && HeadOf(payload[cursor..]).BadHead?
    ensures !IsTree(payload, whole)
  {
    if IsTree(payload, whole) {
      assert payload == payload[..cursor] + payload[cursor..];
      Agree(read, payload[cursor..], whole);
      var left := whole[|read|..];
      if left != [] {
        PrintedHasHead(left[0], Printed(left[1..]));
      }
    }
  }

  /** A payload is read as one entry list at most. */
  lemma OneReading(payload: seq<byte>, a: seq<Entry>, b: seq<Entry>)
    requires IsTree(payload, a) && IsTree(payload, b)
    ensures a == b
  {
    assert Printed(a) + [] == payload && Printed(b) + [] == payload;
    Agree(a, [], b);
    Agree(b, [], a);
  }

  lemma ReferencesAppend(entries: seq<Entry>, e: Entry)
    ensures References(entries + [e]) == References(entries) + Reference(e)
  {
    assert (entries + [e])[..|entries|] == entries;
  }

  /** Succeeds exactly on the printed form of an entry list, and returns the ids
      of its entries other than gitlinks. */
  method ParseTreeReferences(payload: seq<byte>) returns (refs: Option<seq<Oid>>, ghost entries: seq<Entry>)
    ensures refs.Some? ==> IsTree(payload, entries) && refs.value == References(entries)
    ensures refs.None? ==> forall whole :: !IsTree(payload, whole)
  {
    var cursor := 0;
    var found: seq<Oid> := [];
    entries := [];
    while cursor < |payload|
      invariant ReadUpTo(payload, cursor, entries)
      invariant found == References(entries)
      decreases |payload| - cursor
    {
      var head := HeadOf(payload[cursor..]);
      if head.BadHead? {
        forall whole ensures !IsTree(payload, whole) { NoHeadNoTree(payload, entries, cursor, whole); }
        return None, entries;
      }
      ReadOneMore(payload, cursor, entries);
      ReferencesAppend(entries, head.entry);
      if head.entry.mode != GITLINK {
        found := found + [head.entry.oid];
      }
      entries := entries + [head.entry];
      cursor := |payload| - |head.rest|;
    }
    assert payload[..cursor] == payload;
    refs := Some(found);
  }
}
