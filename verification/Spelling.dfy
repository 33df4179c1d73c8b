/** What the formats' words, digits and bytes are, spelled out, and what the readers
    make of any input, printed by a writer or not. */
module Spelling {
  import opened Options
  import opened Bytes
  import TreeEntries
  import ObjectHeaders
  import Sidecar
  import PktLine
  import BoundaryPrefix

  type Id = Bytes.Oid

  /** The bytes of an ASCII text. */
  function Ascii(s: string): (b: seq<byte>)
    requires forall i :: 0 <= i < |s| ==> s[i] as int < 128
  {
    seq(|s|, i requires 0 <= i < |s| => s[i] as int)
  }

  // ---------- Words ----------

  lemma HeaderWords(name: seq<byte>)
    ensures ObjectHeaders.TREE_PREFIX == Ascii("tree ") && ObjectHeaders.PARENT_PREFIX == Ascii("parent ")
    ensures ObjectHeaders.OBJECT_PREFIX == Ascii("object ") && ObjectHeaders.TYPE_PREFIX == Ascii("type ")
    ensures ObjectHeaders.KnownName(name) <==> NamesType(name)
  {}

  lemma GitlinkMode()
    ensures TreeEntries.GITLINK == Ascii("160000")
  {}

  // ---------- Trees ----------

  /** A tree refers to the objects of its entries, in order, except those whose mode
      is 160000: this says what a list made of single entries refers to. */
  lemma TreeReferencesAre(front: seq<TreeEntries.Entry>, e: TreeEntries.Entry)
    ensures TreeEntries.References([]) == []
    ensures TreeEntries.References(front + [e])
            == TreeEntries.References(front) + if e.mode == Ascii("160000") then [] else [e.oid]
    ensures TreeEntries.PrintedEntry(e) == e.mode + Ascii(" ") + e.name + [0] + e.oid
  {
    GitlinkMode();
    TreeEntries.ReferencesAppend(front, e);
  }

  // ---------- Hexadecimal ids ----------

  const LOWER := "0123456789abcdef"
  const UPPER := "0123456789ABCDEF"

  predicate IsHexOf(c: int, d: int) {
    0 <= d < 16 && (c == LOWER[d] as int || c == UPPER[d] as int)
  }

  lemma NibbleIff(c: byte, d: nat)
    ensures ObjectHeaders.Nibble(c) == Some(d) <==> IsHexOf(c, d)
  {}

  /** Byte for byte, two digits each, upper or lower case, the high one first. */
  predicate SpellsByte(digits: seq<byte>, i: int, b: byte) {
    0 <= i && 2 * i + 1 < |digits| && IsHexOf(digits[2 * i], b / 16) && IsHexOf(digits[2 * i + 1], b % 16)
  }

  lemma {:induction false} PairsIff(s: seq<byte>, bytes: seq<byte>)
    requires |s| == 2 * |bytes|
    ensures ObjectHeaders.DecodePairs(s) == Some(bytes) <==> forall i :: 0 <= i < |bytes| ==> SpellsByte(s, i, bytes[i])
  {
    if bytes != [] {
      var n := |bytes| - 1;
      var front, last := bytes[..n], bytes[n];
      PairsIff(s[..|s| - 2], front);
      NibbleIff(s[|s| - 2], last / 16);
      NibbleIff(s[|s| - 1], last % 16);
      assert forall i :: 0 <= i < n ==>
        (front[i] == bytes[i] && (SpellsByte(s[..|s| - 2], i, front[i]) <==> SpellsByte(s, i, bytes[i])));
      LastPair(s, bytes);
    }
  }

  lemma LastPair(s: seq<byte>, bytes: seq<byte>)
    requires bytes != [] && |s| == 2 * |bytes|
    ensures ObjectHeaders.DecodePairs(s) == Some(bytes) <==>
            && ObjectHeaders.DecodePairs(s[..|s| - 2]) == Some(bytes[..|bytes| - 1])
            && ObjectHeaders.Nibble(s[|s| - 2]) == Some(bytes[|bytes| - 1] / 16)
            && ObjectHeaders.Nibble(s[|s| - 1]) == Some(bytes[|bytes| - 1] % 16)
  {
    var front, last := bytes[..|bytes| - 1], bytes[|bytes| - 1];
    assert bytes == front + [last];
    match (ObjectHeaders.DecodePairs(s[..|s| - 2]), ObjectHeaders.Nibble(s[|s| - 2]), ObjectHeaders.Nibble(s[|s| - 1]))
    case (Some(f), Some(high), Some(low)) =>
      assert ObjectHeaders.DecodePairs(s) == Some(f + [high * 16 + low]);
      assert (f + [high * 16 + low])[..|f|] == f;
    case _ =>
  }

  /** An id is read off the first forty bytes, if they are its digits, and whatever
      follows is ignored. */
  lemma ObjectIdIff(value: seq<byte>, oid: Id)
    ensures ObjectHeaders.DecodeObjectId(value) == Some(oid) <==> SpellsId(value, oid)
  {
    if |value| >= 40 {
      PairsIff(value[..40], oid);
      assert forall i :: 0 <= i < 20 ==> (SpellsByte(value[..40], i, oid[i]) <==> SpellsByte(value, i, oid[i]));
    }
  }

  ghost predicate SpellsId(value: seq<byte>, oid: Id) {
    |value| >= 40 && forall i :: 0 <= i < 20 ==> SpellsByte(value, i, oid[i])
  }

  // ---------- Commits and tags ----------

  /** The line is this word and then an id. */
  ghost predicate SaysId(line: seq<byte>, word: seq<byte>, oid: Id) {
    exists value :: line == word + value && SpellsId(value, oid)
  }

  lemma IdAfterIff(line: seq<byte>, word: seq<byte>, oid: Id)
    ensures ObjectHeaders.IdAfter(line, word) == Some(oid) <==> SaysId(line, word, oid)
  {
    if word <= line {
      ObjectIdIff(line[|word|..], oid);
      assert line == word + line[|word|..];
    }
    if value :| line == word + value && SpellsId(value, oid) {
      assert line[|word|..] == value;
    }
  }

  /** A header line of a commit refers to the id that a tree or a parent line says. */
  lemma CommitLineIff(line: seq<byte>, oid: Id)
    ensures ObjectHeaders.LineRefs(line) == [oid] <==>
            SaysId(line, Ascii("tree "), oid) || SaysId(line, Ascii("parent "), oid)
    ensures |ObjectHeaders.LineRefs(line)| <= 1
  {
    HeaderWords([]);
    IdAfterIff(line, Ascii("tree "), oid);
    IdAfterIff(line, Ascii("parent "), oid);
    assert Ascii("tree ")[0] != Ascii("parent ")[0];
    var tree := ObjectHeaders.IdAfter(line, ObjectHeaders.TREE_PREFIX);
    var parent := ObjectHeaders.IdAfter(line, ObjectHeaders.PARENT_PREFIX);
    assert tree.None? || parent.None?;
    assert ObjectHeaders.LineRefs(line) == ObjectHeaders.Listed(if tree.Some? then tree else parent);
  }

  lemma {:induction false} NoCut(s: seq<byte>, b: byte)
    requires b !in s
    ensures TreeEntries.Cut(s, b).None?
  {
    if s != [] { NoCut(s[1..], b); }
  }

  /** A payload's header lines: what stands before the first empty line, cut at the
      newlines. */
  lemma HeaderLinesAre(line: seq<byte>, rest: seq<byte>)
    requires 10 !in line
    ensures ObjectHeaders.HeaderLines(line) == if line == [] then [] else [line]
    ensures ObjectHeaders.HeaderLines(line + ([10] + rest)) ==
            if line == [] then [] else [line] + ObjectHeaders.HeaderLines(rest)
  {
    NoCut(line, 10);
    assert ObjectHeaders.Lines(line) == [line];
    assert [line][1..] == [] && ObjectHeaders.UntilEmpty([]) == [];
    ObjectHeaders.FirstLine(line, rest);
  }

  /** Line number `i` is the last that begins with the word, and goes on like this. */
  ghost predicate LastWith(lines: seq<seq<byte>>, word: seq<byte>, i: int, value: seq<byte>) {
    && 0 <= i < |lines| && lines[i] == word + value
    && forall k :: i < k < |lines| ==> !(word <= lines[k])
  }

  lemma {:induction false} LastAfterIff(lines: seq<seq<byte>>, word: seq<byte>, value: seq<byte>)
    ensures ObjectHeaders.LastAfter(lines, word) == Some(value) <==> exists i :: LastWith(lines, word, i, value)
  {
    if lines != [] {
      var front, n := lines[..|lines| - 1], |lines| - 1;
      LastAfterIff(front, word, value);
      assert forall i :: 0 <= i < n ==> front[i] == lines[i];
      if word <= lines[n] {
        assert lines[n] == word + lines[n][|word|..];
        if ObjectHeaders.LastAfter(lines, word) == Some(value) { assert LastWith(lines, word, n, value); }
        if i :| LastWith(lines, word, i, value) { assert i == n && lines[n][|word|..] == value; }
      } else {
        if i :| LastWith(front, word, i, value) { assert LastWith(lines, word, i, value); }
        if i :| LastWith(lines, word, i, value) { assert LastWith(front, word, i, value); }
      }
    }
  }

  /** The target, as the last object line spells it; the type, as the last type line
      names it. */
  ghost predicate SaysTarget(lines: seq<seq<byte>>, oid: Id) {
    exists i, value :: LastWith(lines, Ascii("object "), i, value) && SpellsId(value, oid)
  }

  ghost predicate SaysKnownType(lines: seq<seq<byte>>) {
    exists i, name :: LastWith(lines, Ascii("type "), i, name) && NamesType(name)
  }

  predicate NamesType(name: seq<byte>) {
    name == Ascii("commit") || name == Ascii("tree") || name == Ascii("blob") || name == Ascii("tag")
  }

  /** A tag refers to the target its last object line spells, provided that its last
      type line names one of the four types; to nothing else. */
  lemma TagReferencesIff(lines: seq<seq<byte>>, oid: Id)
    ensures ObjectHeaders.TagRefs(lines) == [oid] <==> SaysTarget(lines, oid) && SaysKnownType(lines)
    ensures |ObjectHeaders.TagRefs(lines)| <= 1
  {
    SaysTargetIff(lines, oid);
    SaysTypeIff(lines);
  }

  lemma SaysTargetIff(lines: seq<seq<byte>>, oid: Id)
    ensures SaysTarget(lines, oid) <==>
            match ObjectHeaders.LastAfter(lines, ObjectHeaders.OBJECT_PREFIX)
            case Some(value) => ObjectHeaders.DecodeObjectId(value) == Some(oid)
            case None => false
  {
    HeaderWords([]);
    var last := ObjectHeaders.LastAfter(lines, Ascii("object "));
    if last.Some? {
      LastAfterIff(lines, Ascii("object "), last.value);
      ObjectIdIff(last.value, oid);
    }
    if i, value :| LastWith(lines, Ascii("object "), i, value) && SpellsId(value, oid) {
      LastAfterIff(lines, Ascii("object "), value);
    }
  }

  lemma SaysTypeIff(lines: seq<seq<byte>>)
    ensures SaysKnownType(lines) <==>
            match ObjectHeaders.LastAfter(lines, ObjectHeaders.TYPE_PREFIX)
            case Some(name) => ObjectHeaders.KnownName(name)
            case None => false
  {
    HeaderWords([]);
    var last := ObjectHeaders.LastAfter(lines, Ascii("type "));
    if last.Some? {
      LastAfterIff(lines, Ascii("type "), last.value);
      HeaderWords(last.value);
    }
    if i, name :| LastWith(lines, Ascii("type "), i, name) && NamesType(name) {
      LastAfterIff(lines, Ascii("type "), name);
      HeaderWords(name);
    }
  }

  // ---------- Sidecar numbers and codes ----------

  /** The high byte comes first. */
  lemma {:induction false} HighByteFirst(s: seq<byte>)
    requires s != []
    ensures FromBigEndian(s) == s[0] * Power256(|s| - 1) + FromBigEndian(s[1..])
  {
    if |s| > 1 {
      var front := s[..|s| - 1];
      HighByteFirst(front);
      assert s[1..][..|s| - 2] == front[1..] && s[1..][|s| - 2] == s[|s| - 1];
      var power, low := Power256(|s| - 2), FromBigEndian(front[1..]);
      assert FromBigEndian(s) == FromBigEndian(front) * 256 + s[|s| - 1];
      assert FromBigEndian(s[1..]) == low * 256 + s[|s| - 1];
      OnePlaceUp(s[0], power, low);
    } else {
      assert s[1..] == [] && s[..0] == [] && FromBigEndian([]) == 0;
    }
  }

  lemma OnePlaceUp(high: nat, power: nat, low: nat)
    ensures (high * power + low) * 256 == high * (256 * power) + low * 256
  {}

  lemma MagicWord()
    ensures BigEndian(Sidecar.MAGIC, 4) == Ascii("PREF")
  {
    assert BigEndian(0x50, 1) == [0x50];
    assert BigEndian(0x5052, 2) == [0x50, 0x52];
    assert BigEndian(0x50_5245, 3) == [0x50, 0x52, 0x45];
    assert BigEndian(0x5052_4546, 4) == [0x50, 0x52, 0x45, 0x46];
  }

  /** The worker's name for a type code. */
  function ObjectTypeOf(code: int): Option<string> {
    match code
    case 1 => Some("commit")
    case 2 => Some("tree")
    case 3 => Some("blob")
    case 4 => Some("tag")
    case _ => None
  }

  /** The type the container reports for an object, as Git names it. */
  function ReportedType(o: Sidecar.ObjectData): Option<string> {
    match o
    case CommitData(_) => Some("commit")
    case TreeData(_) => Some("tree")
    case BlobData => Some("blob")
    case TagData(_) => Some("tag")
    case OtherData => None
  }

  /** The code the container writes is the one the worker reads as that type. */
  lemma CodesNameTypes(o: Sidecar.ObjectData, l: Sidecar.Logical)
    requires Sidecar.Means(o, l)
    ensures ObjectTypeOf(l.code).Some? && ObjectTypeOf(l.code) == ReportedType(o)
    ensures l.code == 3 ==> l.refs == []
  {}

  // ---------- Command lines ----------

  lemma LengthDigitIff(c: char, d: nat)
    ensures PktLine.HexDigit(c) == Some(d) <==> IsHexOf(c as int, d)
  {}

  /** Four digits, the high one first. */
  lemma LengthIs(s: string, a: nat, b: nat, c: nat, d: nat)
    requires |s| == 4
    requires IsHexOf(s[0] as int, a) && IsHexOf(s[1] as int, b) && IsHexOf(s[2] as int, c) && IsHexOf(s[3] as int, d)
    ensures PktLine.HexValue(s) == Some(4096 * a + 256 * b + 16 * c + d)
  {
    LengthDigitIff(s[0], a);
    LengthDigitIff(s[1], b);
    LengthDigitIff(s[2], c);
    LengthDigitIff(s[3], d);
    Shorter(s);
    assert PktLine.HexValue(s[..1]) == Some(a);
    assert PktLine.HexValue(s[..2]) == Some(16 * a + b);
  }

  lemma Shorter(s: string)
    requires |s| == 4
    ensures PktLine.HexValue(s[..1]) == PktLine.HexDigit(s[0])
    ensures Continues(s, 2) && Continues(s, 3) && Continues(s, 4) && s[..4] == s
  {
    assert s[..0] == [] && PktLine.HexValue([]) == Some(0);
    Continued(s, 1);
    Continued(s, 2);
    Continued(s, 3);
    Continued(s, 4);
  }

  predicate Continues(s: string, n: nat) {
    0 < n <= |s| &&
    PktLine.HexValue(s[..n]) ==
    match (PktLine.HexValue(s[..n - 1]), PktLine.HexDigit(s[n - 1]))
    case (Some(high), Some(low)) => Some(high * 16 + low)
    case _ => None
  }

  lemma Continued(s: string, n: nat)
    requires 0 < n <= |s|
    ensures Continues(s, n)
  {
    HexValueMore(s[..n]);
    assert s[..n][..n - 1] == s[..n - 1];
  }

  /** Anything else is no length. */
  lemma NoLength(s: string, i: nat)
    requires i < |s| && s[i] !in LOWER && s[i] !in UPPER
    ensures PktLine.HexValue(s).None?
  {
    HexValueMore(s);
    if i == |s| - 1 {
      if PktLine.HexDigit(s[i]).Some? { LengthDigitIff(s[i], PktLine.HexDigit(s[i]).value); }
    } else {
      NoLength(s[..|s| - 1], i);
    }
  }

  lemma HexValueMore(s: string)
    requires s != []
    ensures PktLine.HexValue(s) ==
            match (PktLine.HexValue(s[..|s| - 1]), PktLine.HexDigit(s[|s| - 1]))
            case (Some(high), Some(low)) => Some(high * 16 + low)
            case _ => None
  {}

  // ---------- White space ----------

  /** A code point below 0x10000 in UTF-8, each byte as a char. */
  function Utf8(code: int): (s: string)
    requires 0 <= code < 0x1_0000 && !(0xD800 <= code < 0xE000)
    ensures s != []
  {
    if code < 0x80 then [code as char]
    else if code < 0x800 then [(0xC0 + code / 64) as char, (0x80 + code % 64) as char]
    else [(0xE0 + code / 4096) as char, (0x80 + code / 64 % 64) as char, (0x80 + code % 64) as char]
  }

  /** The code points that Unicode calls white space. */
  predicate UnicodeSpace(code: int) {
    || 0x09 <= code <= 0x0D || code == 0x20 || code == 0x85 || code == 0xA0 || code == 0x1680
    || 0x2000 <= code <= 0x200A || code == 0x2028 || code == 0x2029 || code == 0x202F
    || code == 0x205F || code == 0x3000
  }

  predicate BeginsWithSpace(s: string, code: int) {
    UnicodeSpace(code) && Utf8(code) <= s
  }

  /** A line is cut where the UTF-8 form of a Unicode white space begins, and there
      only; all of its bytes are taken. */
  lemma SpaceIff(s: string)
    ensures PktLine.SpaceWidth(s) > 0 <==> exists code :: BeginsWithSpace(s, code)
    ensures forall code :: BeginsWithSpace(s, code) ==> PktLine.SpaceWidth(s) == |Utf8(code)|
  {
    if PktLine.SpaceWidth(s) > 0 { var code := SpaceFound(s); }
    forall code | BeginsWithSpace(s, code) ensures PktLine.SpaceWidth(s) == |Utf8(code)| { SpaceTaken(s, code); }
  }

  lemma SpaceFound(s: string) returns (code: int)
    requires PktLine.SpaceWidth(s) > 0
    ensures BeginsWithSpace(s, code)
  {
    if PktLine.SpaceWidth(s) == 1 {
      code := s[0] as int;
    } else if PktLine.SpaceWidth(s) == 2 {
      code := s[1] as int;
    } else {
      code := (s[0] as int - 0xE0) * 4096 + (s[1] as int - 0x80) * 64 + (s[2] as int - 0x80);
    }
  }

  lemma SpaceTaken(s: string, code: int)
    requires BeginsWithSpace(s, code)
    ensures PktLine.SpaceWidth(s) == |Utf8(code)|
  {}

  /** Blanks before, between and after fields are of no account, however many and
      of whatever kind. */
  lemma FieldsAre(w: string, space: string, rest: string)
    requires PktLine.Solid(w) && space != [] && PktLine.SpaceWidth(space + rest) == |space| && PktLine.Fresh(space)
    ensures PktLine.Fields([]) == []
    ensures PktLine.Fields(space + rest) == PktLine.Fields(rest)
    ensures w != [] ==> PktLine.Fields(w) == [w] && PktLine.Fields(w + (space + rest)) == [w] + PktLine.Fields(rest)
  {
    assert (space + rest)[|space|..] == rest;
    PktLine.FieldsRun(w, [], []);
    PktLine.FieldsRun(w, space + rest, []);
    assert w + [] == w && [] + w == w;
  }

  // ---------- Numbers ----------

  /** Three digits, or as many as the number needs, and then no leading zero. */
  lemma PaddedWidth(n: nat)
    ensures n < 1000 ==> |BoundaryPrefix.Padded(n)| == 3
    ensures n >= 1000 ==> |BoundaryPrefix.Padded(n)| > 3 && BoundaryPrefix.Padded(n)[0] != '0'
  {
    DecimalWidth(n);
    DecimalWidth(n / 10);
    if n >= 1000 { LongDecimal(n); }
  }

  lemma DecimalWidth(n: nat)
    ensures n < 10 ==> |BoundaryPrefix.Decimal(n)| == 1
    ensures 10 <= n < 100 ==> |BoundaryPrefix.Decimal(n)| == 2
    ensures 100 <= n < 1000 ==> |BoundaryPrefix.Decimal(n)| == 3
  {
    assert 100 <= n < 1000 ==> 10 <= n / 10 < 100 && n / 10 / 10 < 10;
  }

  lemma {:induction false} LongDecimal(n: nat)
    requires n >= 100
    ensures |BoundaryPrefix.Decimal(n)| > 2 && BoundaryPrefix.Decimal(n)[0] != '0'
    ensures n >= 1000 ==> |BoundaryPrefix.Decimal(n)| > 3
  {
    if n >= 1000 {
      LongDecimal(n / 10);
    } else {
      assert 10 <= n / 10 < 100 && 1 <= n / 10 / 10 < 10;
      var two := BoundaryPrefix.Decimal(n / 10);
      assert two[0] == BoundaryPrefix.Decimal(n / 10 / 10)[0] == BoundaryPrefix.Digit(n / 10 / 10);
    }
  }
}
