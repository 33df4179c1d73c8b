/** The header lines of commit and tag objects, and the objects they refer to. */
module ObjectHeaders {
  import opened Options
  import opened Bytes
  import opened TreeEntries

  const NEWLINE: byte := 0x0a

  const TREE_PREFIX: seq<byte> := [0x74, 0x72, 0x65, 0x65, 0x20]
  const PARENT_PREFIX: seq<byte> := [0x70, 0x61, 0x72, 0x65, 0x6e, 0x74, 0x20]
  const OBJECT_PREFIX: seq<byte> := [0x6f, 0x62, 0x6a, 0x65, 0x63, 0x74, 0x20]
  const TYPE_PREFIX: seq<byte> := [0x74, 0x79, 0x70, 0x65, 0x20]

  const COMMIT_NAME: seq<byte> := [0x63, 0x6f, 0x6d, 0x6d, 0x69, 0x74]
  const TREE_NAME: seq<byte> := [0x74, 0x72, 0x65, 0x65]
  const BLOB_NAME: seq<byte> := [0x62, 0x6c, 0x6f, 0x62]
  const TAG_NAME: seq<byte> := [0x74, 0x61, 0x67]

  predicate Starts(line: seq<byte>, prefix: seq<byte>) {
    prefix <= line
  }

  predicate KnownName(name: seq<byte>) {
    name == COMMIT_NAME || name == TREE_NAME || name == BLOB_NAME || name == TAG_NAME
  }

  // ---------- Lines ----------

  function Lines(s: seq<byte>): (lines: seq<seq<byte>>)
    ensures lines != []
    decreases |s|
  {
    match Cut(s, NEWLINE)
    case None => [s]
    case Some(parts) => [parts.before] + Lines(parts.after)
  }

  /** The lines before the first empty one. */
  function UntilEmpty(lines: seq<seq<byte>>): seq<seq<byte>> {
    if lines == [] || lines[0] == [] then [] else [lines[0]] + UntilEmpty(lines[1..])
  }

  function HeaderLines(payload: seq<byte>): seq<seq<byte>> {
    UntilEmpty(Lines(payload))
  }

  /** The header lines are those read and those that `rest` still begins with. */
  ghost predicate HeaderRead(whole: seq<seq<byte>>, header: seq<seq<byte>>, rest: seq<seq<byte>>) {
    whole == header + UntilEmpty(rest)
  }

  lemma HeaderReadMore(whole: seq<seq<byte>>, header: seq<seq<byte>>, rest: seq<seq<byte>>)
    requires HeaderRead(whole, header, rest) && rest != [] && rest[0] != []
    ensures HeaderRead(whole, header + [rest[0]], rest[1..])
  {
    assert header + ([rest[0]] + UntilEmpty(rest[1..])) == header + [rest[0]] + UntilEmpty(rest[1..]);
  }

  lemma HeaderReadAll(whole: seq<seq<byte>>, header: seq<seq<byte>>, rest: seq<seq<byte>>)
    requires HeaderRead(whole, header, rest) && (rest == [] || rest[0] == [])
    ensures header == whole
  {
    assert UntilEmpty(rest) == [] && header + [] == header;
  }

  // ---------- Hexadecimal ids ----------

  function Nibble(c: byte): (n: Option<nat>)
    ensures n.Some? ==> n.value < 16
  {
    if 0x30 <= c <= 0x39 then Some(c - 0x30)
    else if 0x61 <= c <= 0x66 then Some(c - 0x61 + 10)
    else if 0x41 <= c <= 0x46 then Some(c - 0x41 + 10)
    else None
  }

  function DecodePairs(s: seq<byte>): (r: Option<seq<byte>>)
    requires |s| % 2 == 0
    ensures r.Some? ==> |r.value| == |s| / 2
  {
    if s == [] then Some([])
    else
      match (DecodePairs(s[..|s| - 2]), Nibble(s[|s| - 2]), Nibble(s[|s| - 1]))
      case (Some(front), Some(high), Some(low)) =>
        Some(front + [high * 16 + low])
      case _ => None
  }

  /** An id at the start of `value`; whatever follows its 40 digits is ignored. */
  function DecodeObjectId(value: seq<byte>): Option<Oid> {
    if |value| < 2 * OID_BYTES then None
    else
      match DecodePairs(value[..2 * OID_BYTES])
      case None => None
      case Some(bytes) => Some(bytes)
  }

  function HexDigit(d: nat): byte
    requires d < 16
  {
    if d < 10 then 0x30 + d else 0x61 + d - 10
  }

  function Hex(bytes: seq<byte>): (s: seq<byte>)
    ensures |s| == 2 * |bytes| && NEWLINE !in s
  {
    if bytes == [] then []
    else
      var last := bytes[|bytes| - 1];
      Hex(bytes[..|bytes| - 1]) + [HexDigit(last / 16), HexDigit(last % 16)]
  }

  lemma NibbleOfDigit(d: nat)
    requires d < 16
    ensures Nibble(HexDigit(d)) == Some(d)
  {}

  lemma {:induction false} HexRoundTrip(bytes: seq<byte>)
    ensures DecodePairs(Hex(bytes)) == Some(bytes)
  {
    if bytes != [] {
      var front, last := bytes[..|bytes| - 1], bytes[|bytes| - 1];
      HexRoundTrip(front);
      var s := Hex(bytes);
      assert s[..|s| - 2] == Hex(front);
      NibbleOfDigit(last / 16);
      NibbleOfDigit(last % 16);
      assert bytes == front + [last];
    }
  }

  lemma PrintedIdDecodes(oid: Oid, rest: seq<byte>)
    ensures DecodeObjectId(Hex(oid) + rest) == Some(oid)
  {
    HexRoundTrip(oid);
    assert (Hex(oid) + rest)[..2 * OID_BYTES] == Hex(oid);
  }

  // ---------- Commits ----------

  function IdAfter(line: seq<byte>, prefix: seq<byte>): Option<Oid> {
    if Starts(line, prefix) then DecodeObjectId(line[|prefix|..]) else None
  }

  function Listed(id: Option<Oid>): seq<Oid> {
    if id.Some? then [id.value] else []
  }

  function LineRefs(line: seq<byte>): seq<Oid> {
    Listed(IdAfter(line, TREE_PREFIX)) + Listed(IdAfter(line, PARENT_PREFIX))
  }

  /** The ids of all well-formed tree and parent lines, in order. */
  function CommitRefs(lines: seq<seq<byte>>): seq<Oid> {
    if lines == [] then [] else LineRefs(lines[0]) + CommitRefs(lines[1..])
  }

  lemma CommitRefsCons(line: seq<byte>, lines: seq<seq<byte>>)
    ensures CommitRefs([line] + lines) == LineRefs(line) + CommitRefs(lines)
  {
    assert ([line] + lines)[1..] == lines;
  }

  method ReadCommitLine(line: seq<byte>) returns (refs: seq<Oid>)
    ensures refs == LineRefs(line)
  {
    refs := [];
    var tree := IdAfter(line, TREE_PREFIX);
    if tree.Some? {
      refs := refs + [tree.value];
    }
    var parent := IdAfter(line, PARENT_PREFIX);
    if parent.Some? {
      refs := refs + [parent.value];
    }
  }

  /** What the whole header refers to, once `refs` are read off and `rest` is
      still to read. */
  ghost predicate CommitRead(whole: seq<Oid>, refs: seq<Oid>, rest: seq<seq<byte>>) {
    whole == refs + CommitRefs(UntilEmpty(rest))
  }

  lemma CommitReadMore(whole: seq<Oid>, refs: seq<Oid>, rest: seq<seq<byte>>)
    requires CommitRead(whole, refs, rest) && rest != [] && rest[0] != []
    ensures CommitRead(whole, refs + LineRefs(rest[0]), rest[1..])
  {
    CommitRefsCons(rest[0], UntilEmpty(rest[1..]));
    assert refs + (LineRefs(rest[0]) + CommitRefs(UntilEmpty(rest[1..]))) ==
           refs + LineRefs(rest[0]) + CommitRefs(UntilEmpty(rest[1..]));
  }

  lemma CommitReadAll(whole: seq<Oid>, refs: seq<Oid>, rest: seq<seq<byte>>)
    requires CommitRead(whole, refs, rest) && (rest == [] || rest[0] == [])
    ensures refs == whole
  {
    assert UntilEmpty(rest) == [] && refs + [] == refs;
  }

  method ParseCommitReferences(payload: seq<byte>) returns (refs: seq<Oid>)
    ensures refs == CommitRefs(HeaderLines(payload))
  {
    refs := [];
    var lines := Lines(payload);
    ghost var whole := CommitRefs(HeaderLines(payload));
    var i := 0;
    assert lines[0..] == lines && [] + whole == whole;
    while i < |lines| && lines[i] != []
      invariant 0 <= i <= |lines|
      invariant CommitRead(whole, refs, lines[i..])
    {
      CommitReadMore(whole, refs, lines[i..]);
      assert lines[i..][1..] == lines[i + 1..];
      var found := ReadCommitLine(lines[i]);
      refs := refs + found;
      i := i + 1;
    }
    CommitReadAll(whole, refs, lines[i..]);
  }

  // ---------- Tags ----------

  /** What the last line with this prefix holds; None without such a line. */
  function LastAfter(lines: seq<seq<byte>>, prefix: seq<byte>): Option<seq<byte>> {
    if lines == [] then None
    else
      var last := lines[|lines| - 1];
      if Starts(last, prefix) then Some(last[|prefix|..]) else LastAfter(lines[..|lines| - 1], prefix)
  }

  lemma LastAfterMore(lines: seq<seq<byte>>, line: seq<byte>, prefix: seq<byte>)
    ensures LastAfter(lines + [line], prefix) ==
            if Starts(line, prefix) then Some(line[|prefix|..]) else LastAfter(lines, prefix)
  {
    assert (lines + [line])[..|lines|] == lines;
  }

  /** The target, if the last object line holds an id and the last type line a
      known type. */
  function TagRefs(lines: seq<seq<byte>>): seq<Oid> {
    match (LastAfter(lines, OBJECT_PREFIX), LastAfter(lines, TYPE_PREFIX))
    case (Some(target), Some(name)) => if KnownName(name) then Listed(DecodeObjectId(target)) else []
    case _ => []
  }

  /** The loop's two variables, once `lines` are read. */
  ghost predicate TagRead(lines: seq<seq<byte>>, target: Option<Oid>, hasType: bool) {
    && (target == match LastAfter(lines, OBJECT_PREFIX) case Some(v) => DecodeObjectId(v) case None => None)
    && (hasType <==> LastAfter(lines, TYPE_PREFIX).Some? && KnownName(LastAfter(lines, TYPE_PREFIX).value))
  }

  lemma TagReadMore(lines: seq<seq<byte>>, line: seq<byte>, target: Option<Oid>, hasType: bool)
    requires TagRead(lines, target, hasType)
    ensures TagRead(lines + [line],
                    if Starts(line, OBJECT_PREFIX) then DecodeObjectId(line[|OBJECT_PREFIX|..]) else target,
                    if Starts(line, TYPE_PREFIX) then KnownName(line[|TYPE_PREFIX|..]) else hasType)
  {
    LastAfterMore(lines, line, OBJECT_PREFIX);
    LastAfterMore(lines, line, TYPE_PREFIX);
  }

  lemma TagReadAll(lines: seq<seq<byte>>, target: Option<Oid>, hasType: bool)
    requires TagRead(lines, target, hasType)
    ensures TagRefs(lines) == if target.None? || !hasType then [] else [target.value]
  {}

  method ParseTagReferences(payload: seq<byte>) returns (refs: seq<Oid>)
    ensures refs == TagRefs(HeaderLines(payload))
  {
    var target: Option<Oid> := None;
    var hasType := false;
    var lines := Lines(payload);
    var i := 0;
    ghost var whole, header := HeaderLines(payload), [];
    assert lines[0..] == lines && [] + whole == whole;
    while i < |lines| && lines[i] != []
      invariant 0 <= i <= |lines|
      invariant HeaderRead(whole, header, lines[i..])
      invariant TagRead(header, target, hasType)
    {
      HeaderReadMore(whole, header, lines[i..]);
      assert lines[i..][1..] == lines[i + 1..];
      TagReadMore(header, lines[i], target, hasType);
      header := header + [lines[i]];
      if Starts(lines[i], OBJECT_PREFIX) {
        target := DecodeObjectId(lines[i][|OBJECT_PREFIX|..]);
      }
      if Starts(lines[i], TYPE_PREFIX) {
        hasType := KnownName(lines[i][|TYPE_PREFIX|..]);
      }
      i := i + 1;
    }
    HeaderReadAll(whole, header, lines[i..]);
    TagReadAll(header, target, hasType);
    if target.None? || !hasType {
      return [];
    }
    refs := [target.value];
  }

  // ---------- Printed headers ----------

  ghost predicate IsHeader(lines: seq<seq<byte>>) {
    forall i :: 0 <= i < |lines| ==> lines[i] != [] && NEWLINE !in lines[i]
  }

  /** The header lines, an empty line, and the message. */
  function Printed(lines: seq<seq<byte>>, message: seq<byte>): seq<byte> {
    if lines == [] then [NEWLINE] + message else lines[0] + ([NEWLINE] + Printed(lines[1..], message))
  }

  lemma FirstLine(line: seq<byte>, rest: seq<byte>)
    requires NEWLINE !in line
    ensures HeaderLines(line + ([NEWLINE] + rest)) == if line == [] then [] else [line] + HeaderLines(rest)
  {
    CutOf(line, NEWLINE, rest);
    var lines := Lines(line + ([NEWLINE] + rest));
    assert lines == [line] + Lines(rest) && lines[1..] == Lines(rest);
  }

  /** Whatever the message holds, the header lines are read back. */
  lemma {:induction false} HeaderReadsBack(lines: seq<seq<byte>>, message: seq<byte>)
    requires IsHeader(lines)
    ensures HeaderLines(Printed(lines, message)) == lines
  {
    if lines == [] {
      FirstLine([], message);
      assert [] + ([NEWLINE] + message) == [NEWLINE] + message;
    } else {
      HeaderReadsBack(lines[1..], message);
      FirstLine(lines[0], Printed(lines[1..], message));
      assert lines == [lines[0]] + lines[1..];
    }
  }

  function TreeLine(oid: Oid): seq<byte> {
    TREE_PREFIX + Hex(oid)
  }

  function ParentLines(parents: seq<Oid>): seq<seq<byte>> {
    if parents == [] then [] else [PARENT_PREFIX + Hex(parents[0])] + ParentLines(parents[1..])
  }

  ghost predicate NoReference(lines: seq<seq<byte>>) {
    forall i :: 0 <= i < |lines| ==> !Starts(lines[i], TREE_PREFIX) && !Starts(lines[i], PARENT_PREFIX)
  }

  lemma PrefixedId(prefix: seq<byte>, oid: Oid)
    ensures Starts(prefix + Hex(oid), prefix) && IdAfter(prefix + Hex(oid), prefix) == Some(oid)
  {
    assert (prefix + Hex(oid))[|prefix|..] == Hex(oid) + [];
    PrintedIdDecodes(oid, []);
  }

  lemma {:induction false} OtherLinesAddNothing(others: seq<seq<byte>>)
    requires NoReference(others)
    ensures CommitRefs(others) == []
  {
    if others != [] {
      OtherLinesAddNothing(others[1..]);
    }
  }

  lemma ParentLineRefs(oid: Oid)
    ensures LineRefs(PARENT_PREFIX + Hex(oid)) == [oid]
  {
    PrefixedId(PARENT_PREFIX, oid);
    assert (PARENT_PREFIX + Hex(oid))[0] != TREE_PREFIX[0];
  }

  lemma TreeLineRefs(oid: Oid)
    ensures LineRefs(TreeLine(oid)) == [oid]
  {
    PrefixedId(TREE_PREFIX, oid);
    assert TreeLine(oid)[0] != PARENT_PREFIX[0];
  }

  lemma {:induction false} ParentsAreHeader(parents: seq<Oid>, others: seq<seq<byte>>)
    requires IsHeader(others)
    ensures IsHeader(ParentLines(parents) + others)
  {
    if parents == [] {
      assert ParentLines(parents) + others == others;
    } else {
      ParentsAreHeader(parents[1..], others);
      var line, tail := PARENT_PREFIX + Hex(parents[0]), ParentLines(parents[1..]) + others;
      assert ParentLines(parents) + others == [line] + tail;
      assert IsHeader([line] + tail);
    }
  }

  lemma {:induction false} ParentsAreAdded(parents: seq<Oid>, others: seq<seq<byte>>)
    ensures CommitRefs(ParentLines(parents) + others) == parents + CommitRefs(others)
  {
    if parents == [] {
      assert ParentLines(parents) + others == others && parents + CommitRefs(others) == CommitRefs(others);
    } else {
      ParentsAreAdded(parents[1..], others);
      OneParentMore(parents[0], parents[1..], ParentLines(parents[1..]) + others, CommitRefs(others));
      FirstParentLine(parents, others);
      assert parents == [parents[0]] + parents[1..];
    }
  }

  lemma FirstParentLine(parents: seq<Oid>, others: seq<seq<byte>>)
    requires parents != []
    ensures ParentLines(parents) + others == [PARENT_PREFIX + Hex(parents[0])] + (ParentLines(parents[1..]) + others)
  {}

  lemma OneParentMore(parent: Oid, parents: seq<Oid>, tail: seq<seq<byte>>, rest: seq<Oid>)
    requires CommitRefs(tail) == parents + rest
    ensures CommitRefs([PARENT_PREFIX + Hex(parent)] + tail) == [parent] + parents + rest
  {
    ParentLineRefs(parent);
    CommitRefsCons(PARENT_PREFIX + Hex(parent), tail);
    assert [parent] + (parents + rest) == [parent] + parents + rest;
  }

  /** A commit printed with a tree, parents, other header lines and a message is
      read back as its tree and parents, in order. */
  lemma CommitRoundTrip(tree: Oid, parents: seq<Oid>, others: seq<seq<byte>>, message: seq<byte>)
    requires NoReference(others) && IsHeader(others)
    ensures var lines := [TreeLine(tree)] + (ParentLines(parents) + others);
            CommitRefs(HeaderLines(Printed(lines, message))) == [tree] + parents
  {
    var tail := ParentLines(parents) + others;
    ParentsAreHeader(parents, others);
    ParentsAreAdded(parents, others);
    OtherLinesAddNothing(others);
    HeaderReadsBack([TreeLine(tree)] + tail, message);
    TreeLineRefs(tree);
    CommitRefsCons(TreeLine(tree), tail);
    assert parents + [] == parents;
  }

  lemma {:induction false} LastAfterSkips(lines: seq<seq<byte>>, others: seq<seq<byte>>, prefix: seq<byte>)
    requires forall i :: 0 <= i < |others| ==> !Starts(others[i], prefix)
    ensures LastAfter(lines + others, prefix) == LastAfter(lines, prefix)
    decreases |others|
  {
    if others == [] {
      assert lines + others == lines;
    } else {
      LastAfterSkips(lines, others[..|others| - 1], prefix);
      assert (lines + others)[..|lines + others| - 1] == lines + others[..|others| - 1];
    }
  }

  /** A tag printed with its target, its target's type and other lines is read
      back as its target exactly when the type is one that Git knows. */
  lemma TagRoundTripIff(target: Oid, name: seq<byte>, others: seq<seq<byte>>, message: seq<byte>)
    requires NEWLINE !in name && IsHeader(others)
    requires forall i :: 0 <= i < |others| ==> !Starts(others[i], OBJECT_PREFIX) && !Starts(others[i], TYPE_PREFIX)
    ensures var lines := [OBJECT_PREFIX + Hex(target), TYPE_PREFIX + name] + others;
            TagRefs(HeaderLines(Printed(lines, message))) == if KnownName(name) then [target] else []
  {
    var object_, type_ := OBJECT_PREFIX + Hex(target), TYPE_PREFIX + name;
    var two := [object_, type_];
    forall i | 0 <= i < |two + others| ensures (two + others)[i] != [] && NEWLINE !in (two + others)[i] {
      if i >= 2 { assert (two + others)[i] == others[i - 2]; }
    }
    HeaderReadsBack(two + others, message);
    LastAfterSkips(two, others, OBJECT_PREFIX);
    LastAfterSkips(two, others, TYPE_PREFIX);
    assert type_[0] != OBJECT_PREFIX[0];
    assert two[..1] == [object_];
    PrefixedId(OBJECT_PREFIX, target);
    assert type_[|TYPE_PREFIX|..] == name;
    assert LastAfter([object_], OBJECT_PREFIX) == Some(object_[|OBJECT_PREFIX|..]);
    assert LastAfter(two, OBJECT_PREFIX) == Some(object_[|OBJECT_PREFIX|..]);
  }
}
