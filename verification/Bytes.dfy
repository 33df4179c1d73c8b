/** Bytes, and the big-endian integers and fixed-width records made of them. */
module Bytes {
  type byte = x: int | 0 <= x < 256

  const OID_BYTES := 20

  type Oid = s: seq<byte> | |s| == OID_BYTES witness seq(OID_BYTES, i => 0)

  /** The records of a list, one after the other. */
  function Concat(records: seq<seq<byte>>): seq<byte> {
    if records == [] then [] else Concat(records[..|records| - 1]) + records[|records| - 1]
  }

  ghost predicate AllOfWidth(records: seq<seq<byte>>, width: nat) {
    forall i :: 0 <= i < |records| ==> |records[i]| == width
  }

  lemma {:induction false} ConcatWidth(records: seq<seq<byte>>, width: nat)
    requires AllOfWidth(records, width)
    ensures |Concat(records)| == |records| * width
  {
    if records != [] {
      var n := |records| - 1;
      ConcatWidth(records[..n], width);
      assert (n + 1) * width == n * width + width;
    }
  }

  /** A record is found again at its place. */
  lemma {:induction false} ConcatAt(records: seq<seq<byte>>, width: nat, i: nat)
    requires AllOfWidth(records, width) && i < |records|
    ensures 0 <= i * width <= i * width + width <= |Concat(records)|
    ensures Concat(records)[i * width..i * width + width] == records[i]
  {
    var front := records[..|records| - 1];
    ConcatWidth(front, width);
    if i < |front| {
      ConcatAt(front, width, i);
      assert Concat(records)[..|Concat(front)|] == Concat(front);
      assert Concat(records)[i * width..i * width + width] == Concat(front)[i * width..i * width + width];
    }
  }

  /** Big-endian, as many bytes as asked for; higher bytes are cut off. */
  function BigEndian(n: nat, width: nat): (s: seq<byte>)
    ensures |s| == width
  {
    if width == 0 then [] else BigEndian(n / 256, width - 1) + [n % 256]
  }

  function FromBigEndian(s: seq<byte>): nat {
    if s == [] then 0 else FromBigEndian(s[..|s| - 1]) * 256 + s[|s| - 1]
  }

  function Power256(width: nat): nat {
    if width == 0 then 1 else 256 * Power256(width - 1)
  }

  lemma {:induction false} BigEndianRoundTrip(n: nat, width: nat)
    requires n < Power256(width)
    ensures FromBigEndian(BigEndian(n, width)) == n
  {
    if width > 0 {
      BigEndianRoundTrip(n / 256, width - 1);
      assert BigEndian(n, width)[..width - 1] == BigEndian(n / 256, width - 1);
    }
  }

  lemma Widths()
    ensures Power256(4) == 0x1_0000_0000 && Power256(8) == 0x1_0000_0000_0000_0000
  {
    assert Power256(1) == 256 && Power256(2) == 0x1_0000 && Power256(3) == 0x100_0000;
    assert Power256(5) == 0x100_0000_0000 && Power256(6) == 0x1_0000_0000_0000 && Power256(7) == 0x100_0000_0000_0000;
  }
}
