/** The worker's reader of reference sidecars, and the round trip between the two. */
module SidecarReader {
  import opened Options
  import opened Bytes
  import opened Sidecar

  const MAX_SAFE := 0x1F_FFFF_FFFF_FFFF

  datatype IdxView = IdxView(count: nat, packSize: nat, packChecksum: seq<byte>, idxChecksum: seq<byte>)

  datatype View = View(
    objectCount: nat,
    packBytes: nat,
    packChecksum: seq<byte>,
    idxChecksum: seq<byte>,
    typeCodes: seq<byte>,
    refStarts: seq<byte>,
    rawRefs: seq<byte>)

  function StartAt(refStarts: seq<byte>, i: nat): nat
    requires i * 4 + 4 <= |refStarts|
  {
    FromBigEndian(refStarts[i * 4..i * 4 + 4])
  }

  /** The start table never decreases and ends at the number of references. */
  ghost predicate GoodTable(view: View) {
    && |view.typeCodes| == view.objectCount && |view.refStarts| == (view.objectCount + 1) * 4
    && (forall i :: 0 <= i < view.objectCount ==> StartAt(view.refStarts, i) <= StartAt(view.refStarts, i + 1))
    && StartAt(view.refStarts, view.objectCount) * OID_BYTES == |view.rawRefs|
  }

  ghost predicate GoodCodes(codes: seq<byte>) {
    forall i :: 0 <= i < |codes| ==> 1 <= codes[i] <= 4
  }

  /** The header is whole and agrees with the pack's own index. */
  ghost predicate GoodHeader(bytes: seq<byte>, idx: IdxView) {
    && |bytes| >= HEADER_BYTES
    && FromBigEndian(bytes[0..4]) == MAGIC && FromBigEndian(bytes[4..8]) == VERSION
    && FromBigEndian(bytes[8..12]) == idx.count
    && FromBigEndian(bytes[12..20]) == idx.packSize <= MAX_SAFE
    && bytes[20..40] == idx.packChecksum && bytes[40..60] == idx.idxChecksum
  }

  function TableStart(count: nat): nat {
    HEADER_BYTES + count
  }

  function RefsStart(count: nat): nat {
    HEADER_BYTES + count + (count + 1) * 4
  }

  function ViewOf(bytes: seq<byte>, idx: IdxView): View
    requires RefsStart(idx.count) <= |bytes|
  {
    View(idx.count, idx.packSize, idx.packChecksum, idx.idxChecksum, bytes[HEADER_BYTES..TableStart(idx.count)],
         bytes[TableStart(idx.count)..RefsStart(idx.count)], bytes[RefsStart(idx.count)..])
  }

  ghost predicate Readable(bytes: seq<byte>, idx: IdxView) {
    && GoodHeader(bytes, idx) && RefsStart(idx.count) <= |bytes|
    && GoodCodes(ViewOf(bytes, idx).typeCodes) && GoodTable(ViewOf(bytes, idx))
  }

  method HeaderAgrees(bytes: seq<byte>, idx: IdxView) returns (ok: bool)
    ensures ok <==> GoodHeader(bytes, idx)
  {
    if |bytes| < HEADER_BYTES {
      return false;
    }
    if FromBigEndian(bytes[0..4]) != MAGIC || FromBigEndian(bytes[4..8]) != VERSION
        || FromBigEndian(bytes[8..12]) != idx.count
    {
      return false;
    }
    var packBytes := FromBigEndian(bytes[12..20]);
    if packBytes > MAX_SAFE || packBytes != idx.packSize {
      return false;
    }
    ok := bytes[20..40] == idx.packChecksum && bytes[40..60] == idx.idxChecksum;
  }

  method CodesValid(codes: seq<byte>) returns (ok: bool)
    ensures ok <==> GoodCodes(codes)
  {
    for i := 0 to |codes|
      invariant forall k :: 0 <= k < i ==> 1 <= codes[k] <= 4
    {
      if !(1 <= codes[i] <= 4) {
        return false;
      }
    }
    ok := true;
  }

  method StartsMonotonic(starts: seq<byte>, count: nat) returns (ok: bool)
    requires |starts| == (count + 1) * 4
    ensures ok <==> forall i :: 0 <= i < count ==> StartAt(starts, i) <= StartAt(starts, i + 1)
  {
    var previous := 0;
    for index := 0 to count + 1
      invariant index > 0 ==> previous == StartAt(starts, index - 1)
      invariant forall i :: 0 <= i < index - 1 ==> StartAt(starts, i) <= StartAt(starts, i + 1)
    {
      var value := StartAt(starts, index);
      if index > 0 && value < previous {
        assert StartAt(starts, index - 1) > StartAt(starts, index - 1 + 1);
        return false;
      }
      previous := value;
    }
    ok := true;
  }

  method ParsePackRefView(bytes: seq<byte>, idx: IdxView) returns (view: Option<View>)
    ensures view.Some? <==> Readable(bytes, idx)
    ensures view.Some? ==> view.value == ViewOf(bytes, idx)
  {
    var agrees := HeaderAgrees(bytes, idx);
    if !agrees || TableStart(idx.count) > |bytes| {
      return None;
    }
    var typeCodes := bytes[HEADER_BYTES..TableStart(idx.count)];
    var valid := CodesValid(typeCodes);
    if !valid {
      return None;
    }
    var pos := TableStart(idx.count);
    if pos + (idx.count + 1) * 4 > |bytes| {
      return None;
    }
    var refStarts := bytes[pos..pos + (idx.count + 1) * 4];
    var monotonic := StartsMonotonic(refStarts, idx.count);
    if !monotonic {
      return None;
    }
    var rawRefs := bytes[pos + (idx.count + 1) * 4..];
    if StartAt(refStarts, idx.count) * OID_BYTES != |rawRefs| {
      return None;
    }
    view := Some(View(idx.count, idx.packSize, idx.packChecksum, idx.idxChecksum, typeCodes, refStarts, rawRefs));
  }

  // ---------- One object's references ----------

  lemma {:induction false} StartBelow(view: View, i: nat, j: nat)
    requires GoodTable(view) && i <= j <= view.objectCount
    ensures StartAt(view.refStarts, i) <= StartAt(view.refStarts, j)
    decreases j - i
  {
    if i < j {
      StartBelow(view, i + 1, j);
    }
  }

  function RefAt(view: View, slot: nat): seq<byte>
    requires slot * OID_BYTES + OID_BYTES <= |view.rawRefs|
  {
    view.rawRefs[slot * OID_BYTES..slot * OID_BYTES + OID_BYTES]
  }

  /** The slots from the object's start up to the next one's. */
  function RefsAt(view: View, index: nat): seq<seq<byte>>
    requires GoodTable(view) && index < view.objectCount
  {
    StartBelow(view, index + 1, view.objectCount);
    var from, to := StartAt(view.refStarts, index), StartAt(view.refStarts, index + 1);
    seq(to - from, k requires 0 <= k < to - from => RefAt(view, from + k))
  }

  method GetPackRefRefsAt(view: View, index: int) returns (refs: seq<seq<byte>>)
    requires GoodTable(view)
    ensures refs == if 0 <= index < view.objectCount then RefsAt(view, index) else []
  {
    refs := [];
    if !(0 <= index < view.objectCount) {
      return;
    }
    var from, to := StartAt(view.refStarts, index), StartAt(view.refStarts, index + 1);
    StartBelow(view, index + 1, view.objectCount);
    for slot := from to to
      invariant refs == RefsAt(view, index)[..slot - from]
    {
      refs := refs + [RefAt(view, slot)];
    }
  }

  // ---------- Round trip ----------

  ghost predicate Writable(objects: seq<Logical>, info: PackInfo) {
    && |objects| < SPAN32 && GoodCodes(Codes(objects))
    && |info.packChecksum| == OID_BYTES && |info.idxChecksum| == OID_BYTES
    && info.packBytes < 0x1_0000_0000_0000_0000
  }

  function IndexFor(objects: seq<Logical>, info: PackInfo): IdxView {
    IdxView(|objects|, info.packBytes, info.packChecksum, info.idxChecksum)
  }

  lemma SixFields(a: seq<byte>, b: seq<byte>, c: seq<byte>, d: seq<byte>, e: seq<byte>, f: seq<byte>, rest: seq<byte>)
    requires |a| == |b| == |c| == 4 && |d| == 8 && |e| == |f| == OID_BYTES
    ensures var bytes := a + b + c + d + e + f + rest;
      && bytes[0..4] == a && bytes[4..8] == b && bytes[8..12] == c
      && bytes[12..20] == d && bytes[20..40] == e && bytes[40..60] == f
  {}

  lemma HeaderFields(count: nat, info: PackInfo, rest: seq<byte>)
    requires count < SPAN32 && info.packBytes < 0x1_0000_0000_0000_0000
    requires |info.packChecksum| == OID_BYTES && |info.idxChecksum| == OID_BYTES
    ensures var bytes := Header(count, info) + rest;
      && |Header(count, info)| == HEADER_BYTES
      && FromBigEndian(bytes[0..4]) == MAGIC && FromBigEndian(bytes[4..8]) == VERSION
      && FromBigEndian(bytes[8..12]) == count && FromBigEndian(bytes[12..20]) == info.packBytes
      && bytes[20..40] == info.packChecksum && bytes[40..60] == info.idxChecksum
  {
    Widths();
    BigEndianRoundTrip(MAGIC, 4);
    BigEndianRoundTrip(VERSION, 4);
    BigEndianRoundTrip(count, 4);
    BigEndianRoundTrip(info.packBytes, 8);
    SixFields(BigEndian(MAGIC, 4), BigEndian(VERSION, 4), BigEndian(count, 4), BigEndian(info.packBytes, 8),
              info.packChecksum, info.idxChecksum, rest);
  }

  /** The sections are found at their places. */
  lemma FourParts(a: seq<byte>, b: seq<byte>, c: seq<byte>, d: seq<byte>)
    ensures var s := a + b + c + d;
      s[|a|..|a| + |b|] == b && s[|a| + |b|..|a| + |b| + |c|] == c && s[|a| + |b| + |c|..] == d
  {}

  /** The sections are found at their places. */
  lemma Sections(objects: seq<Logical>, info: PackInfo)
    requires Writable(objects, info)
    ensures var bytes, idx := Encoded(objects, info), IndexFor(objects, info);
      && RefsStart(|objects|) <= |bytes|
      && ViewOf(bytes, idx).typeCodes == Codes(objects)
      && ViewOf(bytes, idx).refStarts == Concat(StartRecords(Starts(objects)))
      && ViewOf(bytes, idx).rawRefs == Concat(AllRefs(objects))
  {
    ConcatWidth(StartRecords(Starts(objects)), 4);
    assert |Header(|objects|, info)| == HEADER_BYTES;
    FourParts(Header(|objects|, info), Codes(objects), Concat(StartRecords(Starts(objects))), Concat(AllRefs(objects)));
  }

  /** The bytes of a start table, read back. */
  ghost predicate TableOf(objects: seq<Logical>, table: seq<byte>) {
    |table| == (|objects| + 1) * 4 && forall i :: 0 <= i <= |objects| ==> StartAt(table, i) == Start(objects, i)
  }

  lemma StartsReadBack(objects: seq<Logical>)
    ensures TableOf(objects, Concat(StartRecords(Starts(objects))))
  {
    var records := StartRecords(Starts(objects));
    ConcatWidth(records, 4);
    forall i | 0 <= i <= |objects| ensures StartAt(Concat(records), i) == Start(objects, i) {
      ConcatAt(records, 4, i);
      Widths();
      BigEndianRoundTrip(Start(objects, i), 4);
    }
  }

  /** The bytes of the references, read back. */
  ghost predicate RefsIn(refs: seq<Oid>, raw: seq<byte>) {
    |raw| == |refs| * OID_BYTES &&
    forall slot :: 0 <= slot < |refs| ==> raw[slot * OID_BYTES..slot * OID_BYTES + OID_BYTES] == refs[slot]
  }

  lemma RefsReadIn(refs: seq<Oid>)
    ensures RefsIn(refs, Concat(refs))
  {
    ConcatWidth(refs, OID_BYTES);
    forall slot | 0 <= slot < |refs|
      ensures Concat(refs)[slot * OID_BYTES..slot * OID_BYTES + OID_BYTES] == refs[slot]
    {
      ConcatAt(refs, OID_BYTES, slot);
    }
  }

  lemma {:induction false} AllRefsPrefix(objects: seq<Logical>, i: nat)
    requires i <= |objects|
    ensures AllRefs(objects[..i]) <= AllRefs(objects)
  {
    if i == |objects| {
      assert objects[..i] == objects;
    } else {
      var front := objects[..|objects| - 1];
      AllRefsPrefix(front, i);
      assert front[..i] == objects[..i];
    }
  }

  /** The references of object `i` lie between its start and the next one's. */
  lemma AllRefsAt(objects: seq<Logical>, i: nat)
    requires i < |objects|
    ensures Total(objects[..i + 1]) == Total(objects[..i]) + |objects[i].refs| <= Total(objects)
    ensures AllRefs(objects)[Total(objects[..i])..Total(objects[..i + 1])] == objects[i].refs
  {
    assert objects[..i + 1][..i] == objects[..i];
    AllRefsPrefix(objects, i + 1);
    assert AllRefs(objects[..i + 1]) == AllRefs(objects[..i]) + objects[i].refs;
  }

  /** Below 2^32 the counter is the true number of references so far. */
  lemma TrueStart(objects: seq<Logical>, i: nat)
    requires Total(objects) < SPAN32 && i < |objects|
    ensures Start(objects, i) == Total(objects[..i])
    ensures Start(objects, i + 1) == Start(objects, i) + |objects[i].refs| <= Total(objects)
    ensures AllRefs(objects)[Start(objects, i)..Start(objects, i + 1)] == objects[i].refs
  {
    AllRefsAt(objects, i);
    var here, next := Total(objects[..i]), Total(objects[..i + 1]);
    assert here <= next < SPAN32;
  }

  lemma LastStart(objects: seq<Logical>)
    ensures Start(objects, |objects|) == Total(objects) % SPAN32
  {
    assert objects[..|objects|] == objects;
  }

  lemma GoodTableIff(objects: seq<Logical>, view: View)
    requires view.objectCount == |view.typeCodes| == |objects|
    requires TableOf(objects, view.refStarts) && |view.rawRefs| == Total(objects) * OID_BYTES
    ensures GoodTable(view) <==> Total(objects) < SPAN32
  {
    LastStart(objects);
    if Total(objects) < SPAN32 {
      forall i | 0 <= i < |objects| ensures StartAt(view.refStarts, i) <= StartAt(view.refStarts, i + 1) {
        TrueStart(objects, i);
      }
    }
  }

  /** The start table read back is good exactly when the 32-bit counter never
      wrapped. */
  lemma TableGoodIff(objects: seq<Logical>, info: PackInfo)
    requires Writable(objects, info)
    ensures RefsStart(|objects|) <= |Encoded(objects, info)|
    ensures GoodTable(ViewOf(Encoded(objects, info), IndexFor(objects, info))) <==> Total(objects) < SPAN32
  {
    Sections(objects, info);
    StartsReadBack(objects);
    RefsReadIn(AllRefs(objects));
    GoodTableIff(objects, ViewOf(Encoded(objects, info), IndexFor(objects, info)));
  }

  /** The reader accepts what the writer wrote exactly when all references
      together fit in 32 bits, the pack's size is a safe integer, and the pack's
      index is the one the sidecar was made for. */
  lemma ReadableIff(objects: seq<Logical>, info: PackInfo, idx: IdxView)
    requires Writable(objects, info)
    ensures Readable(Encoded(objects, info), idx) <==>
            Total(objects) < SPAN32 && info.packBytes <= MAX_SAFE && idx == IndexFor(objects, info)
  {
    var rest := Codes(objects) + Concat(StartRecords(Starts(objects))) + Concat(AllRefs(objects));
    assert Encoded(objects, info) == Header(|objects|, info) + rest;
    HeaderFields(|objects|, info, rest);
    Sections(objects, info);
    TableGoodIff(objects, info);
  }

  lemma RefInAt(refs: seq<Oid>, view: View, slot: nat)
    requires RefsIn(refs, view.rawRefs) && slot < |refs|
    ensures slot * OID_BYTES + OID_BYTES <= |view.rawRefs| && RefAt(view, slot) == refs[slot]
  {}

  lemma RefsBetween(refs: seq<Oid>, view: View, i: nat, from: nat, to: nat)
    requires GoodTable(view) && i < view.objectCount && RefsIn(refs, view.rawRefs) && from <= to <= |refs|
    requires StartAt(view.refStarts, i) == from && StartAt(view.refStarts, i + 1) == to
    ensures RefsAt(view, i) == refs[from..to]
  {
    forall k | 0 <= k < to - from ensures RefsAt(view, i)[k] == refs[from..to][k] {
      RefInAt(refs, view, from + k);
    }
  }

  lemma RefsReadBack(objects: seq<Logical>, view: View, i: nat)
    requires i < |objects| && Total(objects) < SPAN32 && GoodTable(view) && view.objectCount == |objects|
    requires TableOf(objects, view.refStarts) && RefsIn(AllRefs(objects), view.rawRefs)
    ensures RefsAt(view, i) == objects[i].refs
  {
    TrueStart(objects, i);
    RefsBetween(AllRefs(objects), view, i, Start(objects, i), Start(objects, i + 1));
  }

  /** What the writer wrote and the reader accepts gives back each object's type
      and reference list, in index order. */
  lemma SidecarRoundTrip(objects: seq<Logical>, info: PackInfo, idx: IdxView, i: nat)
    requires Writable(objects, info) && Readable(Encoded(objects, info), idx) && i < |objects|
    ensures var view := ViewOf(Encoded(objects, info), idx);
            view.objectCount == |objects| && view.typeCodes[i] == objects[i].code && RefsAt(view, i) == objects[i].refs
  {
    ReadableIff(objects, info, idx);
    Sections(objects, info);
    StartsReadBack(objects);
    RefsReadIn(AllRefs(objects));
    RefsReadBack(objects, ViewOf(Encoded(objects, info), idx), i);
  }
}
