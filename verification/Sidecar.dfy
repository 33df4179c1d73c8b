/** The reference sidecar of a pack: type codes, a compressed table of where each
    object's references start, and the references themselves, as the container
    writes it. */
module Sidecar {
  import opened Options
  import opened Bytes
  import opened TreeEntries
  import opened ObjectHeaders

  const MAGIC := 0x5052_4546
  const VERSION := 1
  const HEADER_BYTES := 60
  const SPAN32 := 0x1_0000_0000

  type u32 = x: int | 0 <= x < SPAN32

  // ---------- Logical references ----------

  /** An object as it is read back: its type and, except for blobs, its bytes. */
  datatype ObjectData =
    | CommitData(commit: seq<byte>)
    | TreeData(tree: seq<byte>)
    | BlobData
    | TagData(tag: seq<byte>)
    | OtherData

  datatype Logical = Logical(code: byte, refs: seq<Oid>)

  ghost predicate Means(o: ObjectData, l: Logical) {
    match o
    case CommitData(payload) => l == Logical(1, CommitRefs(HeaderLines(payload)))
    case TreeData(payload) => l.code == 2 && exists entries :: IsTree(payload, entries) && l.refs == References(entries)
    case BlobData => l == Logical(3, [])
    case TagData(payload) => l == Logical(4, TagRefs(HeaderLines(payload)))
    case OtherData => false
  }

  /** An object stands for one type code and one reference list at most. */
  lemma OneMeaning(o: ObjectData, a: Logical, b: Logical)
    requires Means(o, a) && Means(o, b)
    ensures a == b
  {
    if o.TreeData? {
      var x :| IsTree(o.tree, x) && a.refs == References(x);
      var y :| IsTree(o.tree, y) && b.refs == References(y);
      OneReading(o.tree, x, y);
    }
  }

  ghost predicate Unreadable(o: ObjectData) {
    forall l :: !Means(o, l)
  }

  method LogicalReferences(o: ObjectData) returns (r: Option<Logical>)
    ensures r.Some? ==> Means(o, r.value)
    ensures r.None? ==> Unreadable(o)
  {
    match o
    case CommitData(payload) =>
      var refs := ParseCommitReferences(payload);
      r := Some(Logical(1, refs));
    case TreeData(payload) =>
      var refs, entries := ParseTreeReferences(payload);
      if refs.None? {
        return None;
      }
      assert IsTree(payload, entries) && refs.value == References(entries);
      r := Some(Logical(2, refs.value));
    case BlobData => r := Some(Logical(3, []));
    case TagData(payload) =>
      var refs := ParseTagReferences(payload);
      r := Some(Logical(4, refs));
    case OtherData => r := None;
  }

  // ---------- The tables ----------

  /** All references, object after object. */
  function AllRefs(objects: seq<Logical>): seq<Oid> {
    if objects == [] then [] else AllRefs(objects[..|objects| - 1]) + objects[|objects| - 1].refs
  }

  function Total(objects: seq<Logical>): nat {
    |AllRefs(objects)|
  }

  /** The 32-bit counter when object `i` is reached. */
  function Start(objects: seq<Logical>, i: nat): u32
    requires i <= |objects|
  {
    Total(objects[..i]) % SPAN32
  }

  function Codes(objects: seq<Logical>): seq<byte> {
    seq(|objects|, i requires 0 <= i < |objects| => objects[i].code)
  }

  function Starts(objects: seq<Logical>): seq<u32> {
    seq(|objects| + 1, i requires 0 <= i <= |objects| => Start(objects, i))
  }

  function StartRecords(starts: seq<u32>): (records: seq<seq<byte>>)
    ensures |records| == |starts| && AllOfWidth(records, 4)
  {
    seq(|starts|, i requires 0 <= i < |starts| => BigEndian(starts[i], 4))
  }

  datatype PackInfo = PackInfo(packBytes: nat, packChecksum: seq<byte>, idxChecksum: seq<byte>)

  function Header(count: nat, info: PackInfo): seq<byte> {
    BigEndian(MAGIC, 4) + BigEndian(VERSION, 4) + BigEndian(count, 4) + BigEndian(info.packBytes, 8)
    + info.packChecksum + info.idxChecksum
  }

  function Encoded(objects: seq<Logical>, info: PackInfo): seq<byte> {
    Header(|objects|, info) + Codes(objects) + Concat(StartRecords(Starts(objects))) + Concat(AllRefs(objects))
  }

  // ---------- Writing ----------

  lemma AllRefsMore(objects: seq<Logical>, o: Logical)
    ensures AllRefs(objects + [o]) == AllRefs(objects) + o.refs
  {
    assert (objects + [o])[..|objects|] == objects;
  }

  lemma ConcatMore(records: seq<seq<byte>>, r: seq<byte>)
    ensures Concat(records + [r]) == Concat(records) + r
  {
    assert (records + [r])[..|records|] == records;
  }

  /** The counter is 32 bits wide and wraps. */
  function NextCount(count: u32, ghost total: nat): (next: u32)
    requires total > 0 && count == (total - 1) % SPAN32
    ensures next == total % SPAN32
  {
    (count + 1) % SPAN32
  }

  /** Appends the references of one object, counting them in 32 bits. */
  method WriteReferences(refs: seq<Oid>, file: seq<byte>, count: u32, ghost written: seq<Oid>)
    returns (file': seq<byte>, count': u32)
    requires file == Concat(written) && count == |written| % SPAN32
    ensures file' == Concat(written + refs) && count' == |written + refs| % SPAN32
  {
    file', count' := file, count;
    ghost var all := written;
    for k := 0 to |refs|
      invariant all == written + refs[..k]
      invariant file' == Concat(all) && count' == |all| % SPAN32
    {
      ConcatMore(all, refs[k]);
      all := all + [refs[k]];
      file' := file' + refs[k];
      count' := NextCount(count', |all|);
    }
    assert all == written + refs;
  }

  ghost predicate AllMean(objects: seq<ObjectData>, logical: seq<Logical>) {
    |objects| == |logical| && forall i :: 0 <= i < |objects| ==> Means(objects[i], logical[i])
  }

  /** The objects determine what is written: there is one list they mean. */
  lemma OneLogicalList(objects: seq<ObjectData>, a: seq<Logical>, b: seq<Logical>)
    requires AllMean(objects, a) && AllMean(objects, b)
    ensures a == b
  {
    forall i | 0 <= i < |objects| ensures a[i] == b[i] { OneMeaning(objects[i], a[i], b[i]); }
  }

  /** The state of the tables once `logical` is written. */
  ghost predicate Tabled(codes: seq<byte>, starts: seq<u32>, logical: seq<Logical>)
    requires |logical| <= |codes| && |logical| <= |starts|
  {
    && (forall k :: 0 <= k < |logical| ==> codes[k] == logical[k].code)
    && (forall k :: 0 <= k < |logical| ==> starts[k] == Start(logical, k))
  }

  lemma StartsStay(logical: seq<Logical>, l: Logical, k: nat)
    requires k <= |logical|
    ensures Start(logical + [l], k) == Start(logical, k)
  {
    assert (logical + [l])[..k] == logical[..k];
  }

  lemma TabledMore(codes: seq<byte>, starts: seq<u32>, logical: seq<Logical>, l: Logical)
    requires |logical| < |codes| && |logical| < |starts| && Tabled(codes, starts, logical)
    ensures Tabled(codes[|logical| := l.code], starts[|logical| := Total(logical) % SPAN32], logical + [l])
  {
    assert logical[..|logical|] == logical;
    forall k | 0 <= k <= |logical| ensures Start(logical + [l], k) == Start(logical, k) { StartsStay(logical, l, k); }
  }

  lemma TablesDone(codes: seq<byte>, starts: seq<u32>, logical: seq<Logical>)
    requires |codes| == |logical| && |starts| == |logical| + 1 && Tabled(codes, starts, logical)
    ensures codes == Codes(logical) && starts[|logical| := Total(logical) % SPAN32] == Starts(logical)
  {
    assert logical[..|logical|] == logical;
  }

  /** Fills both tables and the reference file, or fails at an unreadable object. */
  method StreamObjectMetadata(objects: seq<ObjectData>, typeCodes: array<byte>, refStarts: array<u32>)
    returns (ok: bool, refCount: u32, file: seq<byte>, ghost logical: seq<Logical>)
    requires typeCodes.Length == |objects| && refStarts.Length == |objects| + 1
    modifies typeCodes, refStarts
    ensures ok <==> forall i :: 0 <= i < |objects| ==> !Unreadable(objects[i])
    ensures ok ==>
      && AllMean(objects, logical)
      && typeCodes[..] == Codes(logical) && refStarts[..] == Starts(logical)
      && refCount == Total(logical) % SPAN32 && file == Concat(AllRefs(logical))
  {
    refCount, file, logical := 0, [], [];
    for index := 0 to |objects|
      invariant |logical| == index
      invariant forall i :: 0 <= i < index ==> Means(objects[i], logical[i])
      invariant Tabled(typeCodes[..], refStarts[..], logical)
      invariant refCount == Total(logical) % SPAN32 && file == Concat(AllRefs(logical))
    {
      var read := LogicalReferences(objects[index]);
      if read.None? {
        assert Unreadable(objects[index]);
        return false, refCount, file, logical;
      }
      var l := read.value;
      ghost var codes, starts := typeCodes[..], refStarts[..];
      TabledMore(codes, starts, logical, l);
      typeCodes[index] := l.code;
      refStarts[index] := refCount;
      assert typeCodes[..] == codes[index := l.code] && refStarts[..] == starts[index := refCount];
      file, refCount := WriteReferences(l.refs, file, refCount, AllRefs(logical));
      AllRefsMore(logical, l);
      logical := logical + [l];
    }
    ghost var starts := refStarts[..];
    refStarts[|objects|] := refCount;
    assert refStarts[..] == starts[|objects| := refCount];
    TablesDone(typeCodes[..], starts, logical);
    ok := true;
  }

  /** Writes `value` into the buffer from `at` on. */
  method Put(buffer: array<byte>, at: nat, value: seq<byte>)
    requires at + |value| <= buffer.Length
    modifies buffer
    ensures buffer[..at + |value|] == old(buffer[..at]) + value
    ensures buffer[at + |value|..] == old(buffer[at + |value|..])
  {
    for k := 0 to |value|
      invariant buffer[..at + k] == old(buffer[..at]) + value[..k]
      invariant buffer[at + k..] == old(buffer[at + k..])
    {
      ghost var done := buffer[..at + k];
      buffer[at + k] := value[k];
      assert buffer[..at + k + 1] == done + [value[k]];
    }
  }

  method WritePackRefHeader(count: nat, info: PackInfo) returns (header: Option<seq<byte>>)
    ensures header.Some? <==> |info.packChecksum| == OID_BYTES && |info.idxChecksum| == OID_BYTES
    ensures header.Some? ==> header.value == Header(count, info)
  {
    if |info.packChecksum| != OID_BYTES || |info.idxChecksum| != OID_BYTES {
      return None;
    }
    var buffer := new byte[HEADER_BYTES](i => 0);
    Put(buffer, 0, BigEndian(MAGIC, 4));
    assert buffer[..4] == BigEndian(MAGIC, 4);
    Put(buffer, 4, BigEndian(VERSION, 4));
    Put(buffer, 8, BigEndian(count, 4));
    Put(buffer, 12, BigEndian(info.packBytes, 8));
    Put(buffer, 20, info.packChecksum);
    Put(buffer, 40, info.idxChecksum);
    assert buffer[..60] == buffer[..];
    header := Some(buffer[..]);
  }

  method BuildPackReferenceIndex(objects: seq<ObjectData>, info: PackInfo)
    returns (output: Option<seq<byte>>, ghost logical: seq<Logical>)
    ensures output.Some? <==>
            && |info.packChecksum| == OID_BYTES && |info.idxChecksum| == OID_BYTES
            && forall i :: 0 <= i < |objects| ==> !Unreadable(objects[i])
    ensures output.Some? ==> AllMean(objects, logical) && output.value == Encoded(logical, info)
    ensures output.Some? ==> forall other :: AllMean(objects, other) ==> output.value == Encoded(other, info)
  {
    var typeCodes := new byte[|objects|](i => 0);
    var refStarts := new u32[|objects| + 1](i => 0);
    var ok, refCount, refsFile;
    ok, refCount, refsFile, logical := StreamObjectMetadata(objects, typeCodes, refStarts);
    if !ok {
      return None, logical;
    }
    var header := WritePackRefHeader(|objects|, info);
    if header.None? {
      return None, logical;
    }
    var bytes := header.value + typeCodes[..];
    var table := WriteStarts(refStarts[..]);
    bytes := bytes + table + refsFile;
    assert logical[..|objects|] == logical;
    if refCount != refStarts[|objects|] {
      return None, logical;
    }
    output := Some(bytes);
    forall other | AllMean(objects, other) ensures other == logical { OneLogicalList(objects, other, logical); }
  }

  method WriteStarts(starts: seq<u32>) returns (table: seq<byte>)
    ensures table == Concat(StartRecords(starts))
  {
    table := [];
    for i := 0 to |starts|
      invariant table == Concat(StartRecords(starts[..i]))
    {
      ConcatMore(StartRecords(starts[..i]), BigEndian(starts[i], 4));
      assert StartRecords(starts[..i + 1]) == StartRecords(starts[..i]) + [BigEndian(starts[i], 4)];
      table := table + BigEndian(starts[i], 4);
    }
    assert starts[..|starts|] == starts;
  }
}
