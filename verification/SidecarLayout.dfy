/** The sidecar file byte by byte: what is found at which offset. */
module SidecarLayout {
  import opened Options
  import opened Bytes
  import opened Sidecar
  import opened SidecarReader
  import Spelling

  /** How many references the first `i` objects have. */
  function References(objects: seq<Logical>, i: nat): nat
    requires i <= |objects|
  {
    if i == 0 then 0 else References(objects, i - 1) + |objects[i - 1].refs|
  }

  lemma {:induction false} ReferencesAreTotal(objects: seq<Logical>, i: nat)
    requires i <= |objects|
    ensures Total(objects[..i]) == References(objects, i)
  {
    if i > 0 {
      ReferencesAreTotal(objects, i - 1);
      assert objects[..i][..i - 1] == objects[..i - 1];
    }
  }

  /** What is found in a section is found in the file. */
  lemma Inner(bytes: seq<byte>, from: nat, section: seq<byte>, i: nat, j: nat)
    requires from + |section| <= |bytes| && bytes[from..from + |section|] == section && i <= j <= |section|
    ensures from + j <= |bytes| && section[i..j] == bytes[from + i..from + j]
  {
    var a, b := section[i..j], bytes[from + i..from + j];
    assert |a| == |b| && forall k :: 0 <= k < |a| ==> a[k] == b[k];
  }

  lemma SectionsAre(objects: seq<Logical>, info: PackInfo)
    requires Writable(objects, info)
    ensures var b, n := Encoded(objects, info), |objects|;
            var codes, table, refs := Codes(objects), Concat(StartRecords(Starts(objects))), Concat(AllRefs(objects));
            && |codes| == n && |table| == (n + 1) * 4 && |b| == 60 + n + |table| + |refs|
            && b[60..60 + n] == codes && b[60 + n..60 + n + |table|] == table
            && b[60 + n + |table|..60 + n + |table| + |refs|] == refs
  {
    ConcatWidth(StartRecords(Starts(objects)), 4);
    FourParts(Header(|objects|, info), Codes(objects), Concat(StartRecords(Starts(objects))), Concat(AllRefs(objects)));
  }

  /** Where the file says what it is. */
  lemma HeaderLayout(objects: seq<Logical>, info: PackInfo)
    requires Writable(objects, info)
    ensures var b := Encoded(objects, info);
            && |b| == 60 + |objects| + (|objects| + 1) * 4 + References(objects, |objects|) * 20
            && b[0..4] == Spelling.Ascii("PREF") && FromBigEndian(b[4..8]) == 1
            && FromBigEndian(b[8..12]) == |objects| && FromBigEndian(b[12..20]) == info.packBytes
            && b[20..40] == info.packChecksum && b[40..60] == info.idxChecksum
  {
    var rest := Codes(objects) + Concat(StartRecords(Starts(objects))) + Concat(AllRefs(objects));
    assert Encoded(objects, info) == Header(|objects|, info) + rest;
    HeaderFields(|objects|, info, rest);
    Spelling.MagicWord();
    ConcatWidth(StartRecords(Starts(objects)), 4);
    ConcatWidth(AllRefs(objects), OID_BYTES);
    assert objects[..|objects|] == objects;
    ReferencesAreTotal(objects, |objects|);
    SixFields(BigEndian(MAGIC, 4), BigEndian(VERSION, 4), BigEndian(|objects|, 4), BigEndian(info.packBytes, 8),
              info.packChecksum, info.idxChecksum, rest);
  }

  /** Where it says the type code of an object. */
  lemma CodeLayout(objects: seq<Logical>, info: PackInfo, i: nat)
    requires Writable(objects, info) && i < |objects|
    ensures 60 + i < |Encoded(objects, info)| && Encoded(objects, info)[60 + i] == objects[i].code
  {
    SectionsAre(objects, info);
    assert Encoded(objects, info)[60..60 + |objects|][i] == Codes(objects)[i];
  }

  /** The number stands at this slot of the start table, which begins at `from`. */
  predicate CountsAt(bytes: seq<byte>, from: nat, slot: nat, count: nat) {
    from + slot * 4 + 4 <= |bytes| && FromBigEndian(bytes[from + slot * 4..from + slot * 4 + 4]) == count
  }

  lemma StartIn(bytes: seq<byte>, from: nat, table: seq<byte>, slot: nat)
    requires from + |table| <= |bytes| && bytes[from..from + |table|] == table && slot * 4 + 4 <= |table|
    ensures CountsAt(bytes, from, slot, StartAt(table, slot))
  {
    Inner(bytes, from, table, slot * 4, slot * 4 + 4);
  }

  /** It says how many references come before an object's own, in 32 bits. */
  lemma StartLayout(objects: seq<Logical>, info: PackInfo, i: nat)
    requires Writable(objects, info) && i <= |objects|
    ensures CountsAt(Encoded(objects, info), 60 + |objects|, i, References(objects, i) % 0x1_0000_0000)
  {
    SectionsAre(objects, info);
    StartsReadBack(objects);
    ReferencesAreTotal(objects, i);
    StartIn(Encoded(objects, info), 60 + |objects|, Concat(StartRecords(Starts(objects))), i);
  }

  /** The slot of an object's reference among all. */
  predicate IsSlotOf(objects: seq<Logical>, i: nat, k: nat, slot: nat) {
    i < |objects| && k < |objects[i].refs| && slot == References(objects, i) + k
  }

  lemma SlotOf(objects: seq<Logical>, i: nat, k: nat, slot: nat)
    requires IsSlotOf(objects, i, k, slot)
    ensures slot < |AllRefs(objects)| && AllRefs(objects)[slot] == objects[i].refs[k]
  {
    AllRefsAt(objects, i);
    ReferencesAreTotal(objects, i);
    var from, to := Total(objects[..i]), Total(objects[..i + 1]);
    assert AllRefs(objects)[from..to][k] == AllRefs(objects)[from + k];
  }

  /** Where the references begin. */
  function RefsFrom(objects: seq<Logical>): nat {
    60 + |objects| + (|objects| + 1) * 4
  }

  lemma RefsSection(objects: seq<Logical>, info: PackInfo)
    requires Writable(objects, info)
    ensures var b, refs, from := Encoded(objects, info), Concat(AllRefs(objects)), RefsFrom(objects);
            from + |refs| <= |b| && b[from..from + |refs|] == refs
  {
    SectionsAre(objects, info);
  }

  lemma RecordIn(bytes: seq<byte>, from: nat, section: seq<byte>, offset: nat, record: seq<byte>)
    requires from + |section| <= |bytes| && bytes[from..from + |section|] == section
    requires offset + |record| <= |section| && section[offset..offset + |record|] == record
    ensures from + offset + |record| <= |bytes|
    ensures bytes[from + offset..from + offset + |record|] == record
  {
    Inner(bytes, from, section, offset, offset + |record|);
  }

  /** The record stands at this slot of the records that begin at `from`. */
  predicate StandsAt(bytes: seq<byte>, from: nat, slot: nat, record: Oid) {
    from + slot * 20 + 20 <= |bytes| && bytes[from + slot * 20..from + slot * 20 + 20] == record
  }

  lemma SlotLayout(bytes: seq<byte>, from: nat, refs: seq<Oid>, slot: nat)
    requires from + |Concat(refs)| <= |bytes| && bytes[from..from + |Concat(refs)|] == Concat(refs)
    requires slot < |refs|
    ensures StandsAt(bytes, from, slot, refs[slot])
  {
    RefAtSlot(refs, slot);
    RecordIn(bytes, from, Concat(refs), slot * 20, refs[slot]);
  }

  lemma AllRefsLayout(objects: seq<Logical>, info: PackInfo, slot: nat)
    requires Writable(objects, info) && slot < |AllRefs(objects)|
    ensures StandsAt(Encoded(objects, info), RefsFrom(objects), slot, AllRefs(objects)[slot])
  {
    RefsSection(objects, info);
    SlotLayout(Encoded(objects, info), RefsFrom(objects), AllRefs(objects), slot);
  }

  /** An object's references are there, in order, after those of the objects before. */
  lemma ReferencesLayout(objects: seq<Logical>, info: PackInfo, i: nat, k: nat, slot: nat)
    requires Writable(objects, info) && IsSlotOf(objects, i, k, slot)
    ensures StandsAt(Encoded(objects, info), RefsFrom(objects), slot, objects[i].refs[k])
  {
    SlotOf(objects, i, k, slot);
    AllRefsLayout(objects, info, slot);
  }

  lemma RefAtSlot(refs: seq<Oid>, slot: nat)
    requires slot < |refs|
    ensures slot * 20 + 20 <= |Concat(refs)| && Concat(refs)[slot * 20..slot * 20 + 20] == refs[slot]
  {
    ConcatAt(refs, OID_BYTES, slot);
  }
}
