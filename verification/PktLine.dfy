/** The command prefix of a push: pkt-lines, each carrying one ref command, up to
    an optional flush. Each char stands for one byte. */
module PktLine {
  import opened Commands
  import opened Options
  import BoundaryPrefix

  const MAX_PREFIX := 256 * 1024
  const FLUSH := "0000"

  // ---------- Splitting a line into fields ----------

  /** The number of bytes of the white space `s` begins with: ASCII white space,
      or the UTF-8 form of another Unicode space. */
  function SpaceWidth(s: string): (w: nat)
    ensures w <= |s| && (s == [] ==> w == 0)
  {
    if s == [] then 0
    else if '\t' <= s[0] <= '\r' || s[0] == ' ' then 1
    else if |s| >= 2 && s[0] == '\U{c2}' && (s[1] == '\U{85}' || s[1] == '\U{a0}') then 2
    else if |s| >= 3 && WideSpace(s[0], s[1], s[2]) then 3
    else 0
  }

  predicate WideSpace(a: char, b: char, c: char) {
    || (a == '\U{e1}' && b == '\U{9a}' && c == '\U{80}')
    || (a == '\U{e2}' && b == '\U{80}'
       && ('\U{80}' <= c <= '\U{8a}' || c == '\U{a8}' || c == '\U{a9}' || c == '\U{af}'))
    || (a == '\U{e2}' && b == '\U{81}' && c == '\U{9f}')
    || (a == '\U{e3}' && b == '\U{80}' && c == '\U{80}')
  }

  function Flushed(field: string): seq<string> {
    if field == [] then [] else [field]
  }

  /** The maximal runs without white space; `field` is the run so far. */
  function FieldsFrom(s: string, field: string): seq<string>
    decreases |s|
  {
    if s == [] then Flushed(field)
    else if SpaceWidth(s) > 0 then Flushed(field) + FieldsFrom(s[SpaceWidth(s)..], [])
    else FieldsFrom(s[1..], field + [s[0]])
  }

  function Fields(s: string): seq<string> {
    FieldsFrom(s, [])
  }

  /** No white space begins anywhere in it. */
  ghost predicate Solid(s: string) {
    forall i :: 0 <= i < |s| ==> SpaceWidth(s[i..]) == 0
  }

  ghost predicate Word(s: string) {
    s != [] && Solid(s) && '\0' !in s
  }

  // ---------- One line ----------

  function TrimNewline(s: string): string {
    if s != [] && s[|s| - 1] == '\n' then s[..|s| - 1] else s
  }

  /** Everything before the first NUL. */
  function CutAtNul(s: string): string {
    if s == [] || s[0] == '\0' then [] else [s[0]] + CutAtNul(s[1..])
  }

  function CommandOf(payload: string): Option<ReceiveCommand> {
    var fields := Fields(CutAtNul(TrimNewline(payload)));
    if |fields| == 3 then Some(ReceiveCommand(fields[0], fields[1], fields[2])) else None
  }

  // ---------- The length field ----------

  function HexDigit(c: char): Option<nat> {
    if '0' <= c <= '9' then Some(c as nat - '0' as nat)
    else if 'a' <= c <= 'f' then Some(c as nat - 'a' as nat + 10)
    else if 'A' <= c <= 'F' then Some(c as nat - 'A' as nat + 10)
    else None
  }

  function HexValue(s: string): Option<nat> {
    if s == [] then Some(0)
    else
      match (HexValue(s[..|s| - 1]), HexDigit(s[|s| - 1]))
      case (Some(high), Some(low)) => Some(high * 16 + low)
      case _ => None
  }

  // ---------- What a prefix says ----------

  /** A whole pkt-line: its first four bytes are its own length. */
  predicate Framed(line: string) {
    |line| >= 4 && HexValue(line[..4]) == Some(|line|)
  }

  function Joined(lines: seq<string>): string {
    if lines == [] then [] else lines[0] + Joined(lines[1..])
  }

  /** The prefix is exactly these lines, one for each command, and at most a
      flush after them. */
  ghost predicate Says(prefix: string, commands: seq<ReceiveCommand>, lines: seq<string>, flush: bool) {
    && prefix == Joined(lines) + (if flush then FLUSH else "")
    && |lines| == |commands|
    && forall k :: 0 <= k < |lines| ==> Framed(lines[k]) && CommandOf(lines[k][4..]) == Some(commands[k])
  }

  function Cons(c: ReceiveCommand, rest: Option<seq<ReceiveCommand>>): Option<seq<ReceiveCommand>> {
    match rest
    case Some(commands) => Some([c] + commands)
    case None => None
  }

  /** What the bytes from a line's start on begin with. */
  datatype Line = FlushLine | CommandLine(command: ReceiveCommand, length: nat) | BadLine

  function LineAt(s: string): (line: Line)
    ensures line.CommandLine? ==> 4 <= line.length <= |s|
  {
    if |s| < 4 then BadLine
    else if s[..4] == FLUSH then FlushLine
    else
      match HexValue(s[..4])
      case None => BadLine
      case Some(length) =>
        if length < 4 || length > |s| then BadLine
        else
          match CommandOf(s[4..length])
          case None => BadLine
          case Some(c) => CommandLine(c, length)
  }

  function Decode(s: string): Option<seq<ReceiveCommand>> {
    if s == [] then Some([])
    else
      match LineAt(s)
      case FlushLine => if |s| == 4 then Some([]) else None
      case CommandLine(c, length) => Cons(c, Decode(s[length..]))
      case BadLine => None
  }

  lemma SaysOneMore(line: string, rest: string, c: ReceiveCommand, commands: seq<ReceiveCommand>, lines: seq<string>,
                    flush: bool)
    requires Says(rest, commands, lines, flush) && Framed(line) && CommandOf(line[4..]) == Some(c)
    ensures Says(line + rest, [c] + commands, [line] + lines, flush)
  {
    assert ([line] + lines)[1..] == lines;
    assert line + (Joined(lines) + (if flush then FLUSH else "")) ==
        line + Joined(lines) + (if flush then FLUSH else "");
  }

  lemma SaysOneLess(s: string, commands: seq<ReceiveCommand>, lines: seq<string>, flush: bool) returns (rest: string)
    requires Says(s, commands, lines, flush) && lines != []
    ensures s == lines[0] + rest && Says(rest, commands[1..], lines[1..], flush)
  {
    rest := Joined(lines[1..]) + if flush then FLUSH else "";
  }

  lemma CommandLineIsFramed(s: string)
    requires LineAt(s).CommandLine?
    ensures var line := s[..LineAt(s).length]; Framed(line) && CommandOf(line[4..]) == Some(LineAt(s).command)
  {
    var length := LineAt(s).length;
    assert s[..length][..4] == s[..4] && s[..length][4..] == s[4..length];
  }

  lemma DecodeCons(s: string, commands: seq<ReceiveCommand>) returns (line: string, rest: string)
    requires Decode(s) == Some(commands) && s != [] && LineAt(s).CommandLine?
    ensures commands != [] && s == line + rest && line != [] && Decode(rest) == Some(commands[1..])
    ensures Framed(line) && CommandOf(line[4..]) == Some(commands[0])
  {
    CommandLineIsFramed(s);
    line, rest := s[..LineAt(s).length], s[LineAt(s).length..];
  }

  lemma DecodeEnd(s: string, commands: seq<ReceiveCommand>)
    requires Decode(s) == Some(commands) && (s == [] || !LineAt(s).CommandLine?)
    ensures commands == [] && (s == [] || s == FLUSH)
  {}

  /** What decodes is a sequence of whole lines: nothing is skipped, nothing is
      left over. */
  lemma {:induction false} DecodedIsFramed(s: string, commands: seq<ReceiveCommand>)
    returns (lines: seq<string>, flush: bool)
    requires Decode(s) == Some(commands)
    ensures Says(s, commands, lines, flush)
    decreases |s|
  {
    if s == [] || !LineAt(s).CommandLine? {
      DecodeEnd(s, commands);
      lines, flush := [], s != [];
    } else {
      var line, rest := DecodeCons(s, commands);
      lines, flush := DecodedIsFramed(rest, commands[1..]);
      SaysOneMore(line, rest, commands[0], commands[1..], lines, flush);
      assert commands == [commands[0]] + commands[1..];
      lines := [line] + lines;
    }
  }

  lemma FlushIsZero()
    ensures HexValue(FLUSH) == Some(0)
  {
    assert FLUSH[..3] == "000" && "000"[..2] == "00" && "00"[..1] == "0" && "0"[..0] == "";
    assert HexValue("0") == Some(0);
    assert HexValue("00") == Some(0);
    assert HexValue("000") == Some(0);
  }

  lemma FramedLineAt(line: string, rest: string)
    requires Framed(line) && CommandOf(line[4..]).Some?
    ensures LineAt(line + rest) == CommandLine(CommandOf(line[4..]).value, |line|)
  {
    var s := line + rest;
    FlushIsZero();
    assert s[..4] == line[..4] && s[4..|line|] == line[4..];
  }

  lemma {:induction false} FramedDecodes(s: string, commands: seq<ReceiveCommand>, lines: seq<string>, flush: bool)
    requires Says(s, commands, lines, flush)
    ensures Decode(s) == Some(commands)
    decreases |lines|
  {
    if lines != [] {
      var rest := SaysOneLess(s, commands, lines, flush);
      FramedLineAt(lines[0], rest);
      assert s[|lines[0]|..] == rest;
      FramedDecodes(rest, commands[1..], lines[1..], flush);
      assert commands == [commands[0]] + commands[1..];
    }
  }

  /** Decoding against its reference definition, both ways. */
  lemma DecodesIff(s: string, commands: seq<ReceiveCommand>)
    ensures Decode(s) == Some(commands) <==> exists lines, flush :: Says(s, commands, lines, flush)
  {
    if Decode(s) == Some(commands) {
      var lines, flush := DecodedIsFramed(s, commands);
    }
    if lines, flush :| Says(s, commands, lines, flush) {
      FramedDecodes(s, commands, lines, flush);
    }
  }

  // ---------- The validator ----------

  function Prepended(commands: seq<ReceiveCommand>, rest: Option<seq<ReceiveCommand>>): Option<seq<ReceiveCommand>> {
    match rest
    case Some(more) => Some(commands + more)
    case None => None
  }

  lemma PrependedCons(commands: seq<ReceiveCommand>, c: ReceiveCommand, rest: Option<seq<ReceiveCommand>>)
    ensures Prepended(commands, Cons(c, rest)) == Prepended(commands + [c], rest)
  {
    if rest.Some? { assert commands + ([c] + rest.value) == commands + [c] + rest.value; }
  }

  /** `whole` is what the prefix decodes to; `commands` are read, `rest` is not. */
  ghost predicate ReadTo(whole: Option<seq<ReceiveCommand>>, commands: seq<ReceiveCommand>, rest: string) {
    whole == Prepended(commands, Decode(rest))
  }

  lemma ReadFromStart(prefix: string)
    ensures ReadTo(Decode(prefix), [], prefix)
  {
    if Decode(prefix).Some? { assert [] + Decode(prefix).value == Decode(prefix).value; }
  }

  lemma ReadOneMore(whole: Option<seq<ReceiveCommand>>, commands: seq<ReceiveCommand>, rest: string)
    requires ReadTo(whole, commands, rest) && LineAt(rest).CommandLine?
    ensures ReadTo(whole, commands + [LineAt(rest).command], rest[LineAt(rest).length..])
  {
    PrependedCons(commands, LineAt(rest).command, Decode(rest[LineAt(rest).length..]));
  }

  lemma ReadToTheEnd(whole: Option<seq<ReceiveCommand>>, commands: seq<ReceiveCommand>, rest: string)
    requires ReadTo(whole, commands, rest)
    ensures rest == [] ==> whole == Some(commands)
    ensures rest != [] && LineAt(rest).BadLine? ==> whole == None
    ensures rest != [] && LineAt(rest).FlushLine? ==>
            |rest| >= 4 && whole == if |rest| == 4 then Some(commands) else None
  {
    assert commands + [] == commands;
  }

  method ReadLine(rest: string) returns (line: Line)
    requires |rest| >= 4
    ensures line == LineAt(rest)
  {
    if rest[..4] == FLUSH {
      return FlushLine;
    }
    var length := HexValue(rest[..4]);
    if length.None? || length.value < 4 || length.value > |rest| {
      return BadLine;
    }
    var fields := Fields(CutAtNul(TrimNewline(rest[4..length.value])));
    if |fields| != 3 {
      return BadLine;
    }
    line := CommandLine(ReceiveCommand(fields[0], fields[1], fields[2]), length.value);
  }

  lemma ReadStep(whole: Option<seq<ReceiveCommand>>, commands: seq<ReceiveCommand>, prefix: string, offset: nat,
                 line: Line)
    requires offset + 4 <= |prefix| && ReadTo(whole, commands, prefix[offset..]) && line == LineAt(prefix[offset..])
    ensures line.FlushLine? ==> whole == if offset + 4 == |prefix| then Some(commands) else None
    ensures line.BadLine? ==> whole == None
    ensures line.CommandLine? ==>
      4 <= line.length <= |prefix| - offset && ReadTo(whole, commands + [line.command], prefix[offset + line.length..])
  {
    ReadToTheEnd(whole, commands, prefix[offset..]);
    if line.CommandLine? {
      ReadOneMore(whole, commands, prefix[offset..]);
      assert prefix[offset..][line.length..] == prefix[offset + line.length..];
    }
  }

  /** Reads lines until a flush or the end: what was read, and how far. */
  method ReadCommands(prefix: string) returns (ok: bool, commands: seq<ReceiveCommand>, offset: nat)
    ensures Decode(prefix) == if ok && offset == |prefix| then Some(commands) else None
  {
    offset, commands := 0, [];
    ghost var whole := Decode(prefix);
    ReadFromStart(prefix);
    assert prefix[0..] == prefix;
    while offset + 4 <= |prefix|
      invariant offset <= |prefix|
      invariant ReadTo(whole, commands, prefix[offset..])
      decreases |prefix| - offset
    {
      var line := ReadLine(prefix[offset..]);
      ReadStep(whole, commands, prefix, offset, line);
      if line.FlushLine? {
        return true, commands, offset + 4;
      }
      if line.BadLine? {
        return false, [], offset;
      }
      commands := commands + [line.command];
      offset := offset + line.length;
    }
    ReadToTheEnd(whole, commands, prefix[offset..]);
    ok := true;
  }

  method ValidateCommandPrefix(body: string, packOffset: nat, commands: seq<ReceiveCommand>) returns (ok: bool)
    ensures ok <==>
            && packOffset <= |body| && packOffset <= MAX_PREFIX
            && exists lines, flush :: Says(body[..packOffset], commands, lines, flush)
  {
    if packOffset > |body| || packOffset > MAX_PREFIX {
      return false;
    }
    var prefix := body[..packOffset];
    DecodesIff(prefix, commands);
    var wellFormed, found, offset := ReadCommands(prefix);
    if !wellFormed || offset != |prefix| || |found| != |commands| {
      return false;
    }
    for i := 0 to |found|
      invariant forall k :: 0 <= k < i ==> found[k] == commands[k]
    {
      if found[i] != commands[i] {
        return false;
      }
    }
    assert found == commands;
    ok := true;
  }

  // ---------- Printing ----------

  function HexChar(d: nat): char
    requires d < 16
  {
    if d < 10 then '0' + d as char else 'a' + (d - 10) as char
  }

  function Hex(n: nat, width: nat): (s: string)
    ensures |s| == width
  {
    if width == 0 then [] else Hex(n / 16, width - 1) + [HexChar(n % 16)]
  }

  function Power16(width: nat): nat {
    if width == 0 then 1 else 16 * Power16(width - 1)
  }

  lemma {:induction false} HexRoundTrip(n: nat, width: nat)
    requires n < Power16(width)
    ensures HexValue(Hex(n, width)) == Some(n)
  {
    if width > 0 {
      HexRoundTrip(n / 16, width - 1);
      assert Hex(n, width)[..width - 1] == Hex(n / 16, width - 1);
    }
  }

  /** How a client may write a line: with capabilities after a NUL, with a final
      newline, with both or neither. */
  datatype Style = Style(capabilities: Option<string>, newline: bool)

  function Payload(c: ReceiveCommand, style: Style): string {
    c.oldOid + " " + c.newOid + " " + c.ref
    + (if style.capabilities.Some? then "\0" + style.capabilities.value else "")
    + (if style.newline then "\n" else "")
  }

  function PrintedLine(c: ReceiveCommand, style: Style): string {
    Hex(|Payload(c, style)| + 4, 4) + Payload(c, style)
  }

  predicate Fits(c: ReceiveCommand, style: Style) {
    |Payload(c, style)| + 4 < 0x1_0000
  }

  function PrintedLines(commands: seq<ReceiveCommand>, styles: seq<Style>): (lines: seq<string>)
    requires |styles| == |commands|
    ensures |lines| == |commands|
  {
    seq(|commands|, k requires 0 <= k < |commands| => PrintedLine(commands[k], styles[k]))
  }

  function Printed(commands: seq<ReceiveCommand>, styles: seq<Style>, flush: bool): string
    requires |styles| == |commands|
  {
    Joined(PrintedLines(commands, styles)) + if flush then FLUSH else ""
  }

  // ---------- Fields of a printed line ----------

  /** White space is seen in any longer text that begins the same way, ... */
  lemma SpaceSeen(s: string, t: string)
    requires SpaceWidth(s) > 0
    ensures SpaceWidth(s + t) == SpaceWidth(s)
  {}

  /** A character starts at the beginning of the text. */
  predicate Fresh(s: string) {
    s == [] || !('\U{80}' <= s[0] < '\U{c0}')
  }

  /** ... and a new character after `s` adds none to it. */
  lemma SpaceNotSeen(s: string, t: string)
    requires s != [] && SpaceWidth(s) == 0 && Fresh(t)
    ensures SpaceWidth(s + t) == 0
  {}

  lemma {:induction false} FieldsRun(w: string, rest: string, field: string)
    requires Solid(w) && Fresh(rest)
    ensures FieldsFrom(w + rest, field) == FieldsFrom(rest, field + w)
    decreases |w|
  {
    if w == [] {
      assert w + rest == rest && field + w == field;
    } else {
      assert w[0..] == w;
      SpaceNotSeen(w, rest);
      assert (w + rest)[1..] == w[1..] + rest;
      forall i | 0 <= i < |w[1..]| ensures SpaceWidth(w[1..][i..]) == 0 { assert w[1..][i..] == w[i + 1..]; }
      FieldsRun(w[1..], rest, field + [w[0]]);
      assert field + [w[0]] + w[1..] == field + w;
    }
  }

  lemma FieldThenBlank(w: string, rest: string)
    requires Solid(w) && w != []
    ensures Fields(w + (" " + rest)) == [w] + Fields(rest)
  {
    FieldsRun(w, " " + rest, []);
    assert [] + w == w && (" " + rest)[1..] == rest;
  }

  lemma FieldsOfThree(a: string, b: string, c: string)
    requires Solid(a) && Solid(b) && Solid(c) && a != [] && b != [] && c != []
    ensures Fields(a + " " + b + " " + c) == [a, b, c]
  {
    FieldsRun(c, [], []);
    assert c + [] == c && [] + c == c;
    FieldThenBlank(b, c);
    FieldThenBlank(a, b + (" " + c));
    assert a + (" " + (b + (" " + c))) == a + " " + b + " " + c;
  }

  /** Each field is a solid run. */
  lemma {:induction false} FieldsAreSolid(s: string, field: string)
    requires forall i :: 0 <= i < |field| ==> SpaceWidth((field + s)[i..]) == 0
    ensures forall k :: 0 <= k < |FieldsFrom(s, field)| ==>
            FieldsFrom(s, field)[k] != [] && Solid(FieldsFrom(s, field)[k])
    decreases |s|
  {
    forall i | 0 <= i < |field| ensures SpaceWidth(field[i..]) == 0 {
      assert (field + s)[i..] == field[i..] + s;
      if SpaceWidth(field[i..]) > 0 { SpaceSeen(field[i..], s); }
    }
    if s != [] {
      if SpaceWidth(s) > 0 {
        FieldsAreSolid(s[SpaceWidth(s)..], []);
      } else {
        var more := field + [s[0]];
        assert more + s[1..] == field + s;
        assert (field + s)[|field|..] == s;
        FieldsAreSolid(s[1..], more);
      }
    }
  }

  /** Fields are made of the line's own bytes. */
  lemma {:induction false} FieldsAreCut(s: string, field: string, c: char)
    requires c !in s && c !in field
    ensures forall k :: 0 <= k < |FieldsFrom(s, field)| ==> c !in FieldsFrom(s, field)[k]
    decreases |s|
  {
    if s != [] {
      if SpaceWidth(s) > 0 {
        FieldsAreCut(s[SpaceWidth(s)..], [], c);
      } else {
        FieldsAreCut(s[1..], field + [s[0]], c);
      }
    }
  }

  lemma {:induction false} CutHasNoNul(s: string)
    ensures '\0' !in CutAtNul(s)
  {
    if s != [] && s[0] != '\0' {
      CutHasNoNul(s[1..]);
    }
  }

  lemma {:induction false} CutBefore(w: string, rest: string)
    requires '\0' !in w && (rest == [] || rest[0] == '\0')
    ensures CutAtNul(w + rest) == w
    decreases |w|
  {
    if w == [] {
      assert w + rest == rest;
    } else {
      assert (w + rest)[1..] == w[1..] + rest;
      CutBefore(w[1..], rest);
      assert [w[0]] + w[1..] == w;
    }
  }

  /** Decoding yields words only. */
  lemma CommandsAreWords(payload: string)
    requires CommandOf(payload).Some?
    ensures var c := CommandOf(payload).value; Word(c.oldOid) && Word(c.newOid) && Word(c.ref)
  {
    var line := CutAtNul(TrimNewline(payload));
    CutHasNoNul(TrimNewline(payload));
    FieldsAreSolid(line, []);
    FieldsAreCut(line, [], '\0');
  }

  lemma WordEnd(s: string)
    requires Word(s)
    ensures s[|s| - 1] != '\n'
  {
    assert s[|s| - 1..] == [s[|s| - 1]];
    assert SpaceWidth(s[|s| - 1..]) == 0;
  }

  /** Trimmed and cut, a payload is its three parts with blanks between them. */
  lemma PayloadText(c: ReceiveCommand, style: Style)
    requires '\0' !in c.oldOid && '\0' !in c.newOid && '\0' !in c.ref && c.ref != [] && c.ref[|c.ref| - 1] != '\n'
    ensures CutAtNul(TrimNewline(Payload(c, style))) == c.oldOid + " " + c.newOid + " " + c.ref
  {
    var text := c.oldOid + " " + c.newOid + " " + c.ref;
    var caps := if style.capabilities.Some? then "\0" + style.capabilities.value else "";
    var payload := Payload(c, style);
    assert text[|text| - 1] == c.ref[|c.ref| - 1];
    var trimmed := TrimNewline(payload);
    assert exists rest :: trimmed == text + rest && (rest == [] || rest[0] == '\0') by {
      if style.newline {
        assert payload == text + caps + "\n";
        assert trimmed == text + caps;
      } else {
        assert payload == text + caps;
        if caps != [] && payload[|payload| - 1] == '\n' {
          assert payload[|payload| - 1] == caps[|caps| - 1];
          assert |caps| > 1;
          assert trimmed == text + caps[..|caps| - 1];
        } else {
          assert trimmed == text + caps;
        }
      }
    }
    var rest :| trimmed == text + rest && (rest == [] || rest[0] == '\0');
    CutBefore(text, rest);
  }

  lemma PayloadReads(c: ReceiveCommand, style: Style)
    requires Word(c.oldOid) && Word(c.newOid) && Word(c.ref)
    ensures CommandOf(Payload(c, style)) == Some(c)
  {
    WordEnd(c.ref);
    PayloadText(c, style);
    FieldsOfThree(c.oldOid, c.newOid, c.ref);
  }

  lemma LineIsFramed(c: ReceiveCommand, style: Style)
    requires Fits(c, style)
    ensures Framed(PrintedLine(c, style)) && PrintedLine(c, style)[4..] == Payload(c, style)
  {
    var n := |Payload(c, style)| + 4;
    assert Power16(4) == 0x1_0000 by { assert Power16(1) == 16 && Power16(2) == 256 && Power16(3) == 4096; }
    HexRoundTrip(n, 4);
    assert PrintedLine(c, style)[..4] == Hex(n, 4);
  }

  // ---------- Main results ----------

  ghost predicate Wordy(c: ReceiveCommand) {
    Word(c.oldOid) && Word(c.newOid) && Word(c.ref)
  }

  lemma PrintedSays(commands: seq<ReceiveCommand>, styles: seq<Style>, flush: bool)
    requires |styles| == |commands|
    requires forall k :: 0 <= k < |commands| ==> Fits(commands[k], styles[k]) && Wordy(commands[k])
    ensures Says(Printed(commands, styles, flush), commands, PrintedLines(commands, styles), flush)
  {
    forall k | 0 <= k < |commands|
      ensures Framed(PrintedLines(commands, styles)[k])
              && CommandOf(PrintedLines(commands, styles)[k][4..]) == Some(commands[k])
    {
      LineIsFramed(commands[k], styles[k]);
      PayloadReads(commands[k], styles[k]);
    }
  }

  /** A printed command list is read back as itself exactly when the ids and refs
      of its commands hold no white space and no NUL and none is empty. */
  lemma PrintRoundTripIff(commands: seq<ReceiveCommand>, styles: seq<Style>, flush: bool)
    requires |styles| == |commands|
    requires forall k :: 0 <= k < |commands| ==> Fits(commands[k], styles[k])
    ensures Decode(Printed(commands, styles, flush)) == Some(commands) <==>
            forall k :: 0 <= k < |commands| ==> Wordy(commands[k])
  {
    var prefix := Printed(commands, styles, flush);
    if forall k :: 0 <= k < |commands| ==> Wordy(commands[k]) {
      PrintedSays(commands, styles, flush);
      FramedDecodes(prefix, commands, PrintedLines(commands, styles), flush);
    }
    if Decode(prefix) == Some(commands) {
      var lines, flushed := DecodedIsFramed(prefix, commands);
      forall k | 0 <= k < |commands| ensures Wordy(commands[k]) {
        CommandsAreWords(lines[k][4..]);
      }
    }
  }

  /** A printed list is accepted against that list and no other. */
  lemma AcceptedAgainstItselfOnly(commands: seq<ReceiveCommand>, styles: seq<Style>, flush: bool,
                                  others: seq<ReceiveCommand>)
    requires |styles| == |commands|
    requires forall k :: 0 <= k < |commands| ==> Fits(commands[k], styles[k]) && Wordy(commands[k])
    ensures (exists lines, flushed :: Says(Printed(commands, styles, flush), others, lines, flushed)) <==>
            others == commands
  {
    PrintRoundTripIff(commands, styles, flush);
    DecodesIff(Printed(commands, styles, flush), others);
  }

  /** Printable ASCII without blanks is always safe ... */
  lemma PrintableIsWord(s: string)
    requires s != [] && forall i :: 0 <= i < |s| ==> '!' <= s[i] <= '~'
    ensures Word(s)
  {
    forall i | 0 <= i < |s| ensures SpaceWidth(s[i..]) == 0 { assert s[i..][0] == s[i]; }
  }

  // ---------- A valid ref that is no word ----------

  const NO_BREAK_SPACE := "\U{c2}\U{a0}"

  lemma NoBreakSpaceIsNoWord(before: string, after: string)
    ensures !Word(before + NO_BREAK_SPACE + after)
  {
    var s := before + NO_BREAK_SPACE + after;
    assert s[|before|..] == NO_BREAK_SPACE + after;
    assert SpaceWidth(s[|before|..]) == 2;
  }

  /** So no line printed for a ref with a no-break space is read as printed. */
  lemma NoBreakSpaceIsMisread(c: ReceiveCommand, style: Style, before: string, after: string)
    requires c.ref == before + NO_BREAK_SPACE + after
    ensures CommandOf(Payload(c, style)) != Some(c)
  {
    NoBreakSpaceIsNoWord(before, after);
    if CommandOf(Payload(c, style)).Some? { CommandsAreWords(Payload(c, style)); }
  }

  lemma FieldThenNoBreakSpace(w: string, rest: string)
    requires Solid(w) && w != []
    ensures Fields(w + (NO_BREAK_SPACE + rest)) == [w] + Fields(rest)
  {
    var tail := NO_BREAK_SPACE + rest;
    FieldsRun(w, tail, []);
    assert [] + w == w && SpaceWidth(tail) == 2 && tail[2..] == rest;
  }

  lemma FieldsOfTwo(c: string, d: string)
    requires Word(c) && Word(d)
    ensures Fields(c + NO_BREAK_SPACE + d) == [c, d]
  {
    FieldsRun(d, [], []);
    assert d + [] == d && [] + d == d;
    FieldThenNoBreakSpace(c, d);
    assert c + (NO_BREAK_SPACE + d) == c + NO_BREAK_SPACE + d;
  }

  lemma FieldsOfFour(a: string, b: string, c: string, d: string)
    requires Word(a) && Word(b) && Word(c) && Word(d)
    ensures Fields(a + " " + b + " " + (c + NO_BREAK_SPACE + d)) == [a, b, c, d]
  {
    var ref := c + NO_BREAK_SPACE + d;
    FieldsOfTwo(c, d);
    FieldThenBlank(b, ref);
    FieldThenBlank(a, b + (" " + ref));
    assert a + (" " + (b + (" " + ref))) == a + " " + b + " " + ref;
  }

  /** The ref pattern lets a no-break space through, but the line printed for such
      a ref has the ref cut in two: four fields, and the whole push is refused. */
  lemma NoBreakSpaceIsRefused(c: ReceiveCommand, style: Style, before: string, after: string)
    requires Word(c.oldOid) && Word(c.newOid) && Word(before) && Word(after)
    requires BoundaryPrefix.ValidRefName(before) && BoundaryPrefix.ValidRefName("refs/" + after)
    requires c.ref == before + NO_BREAK_SPACE + after
    ensures BoundaryPrefix.ValidRefName(c.ref)
    ensures Fields(CutAtNul(TrimNewline(Payload(c, style)))) == [c.oldOid, c.newOid, before, after]
    ensures CommandOf(Payload(c, style)) == None
  {
    NoBreakSpaceRefIsValid(before, after);
    assert '\0' !in NO_BREAK_SPACE;
    assert c.ref[|c.ref| - 1] == after[|after| - 1];
    WordEnd(after);
    PayloadText(c, style);
    FieldsOfFour(c.oldOid, c.newOid, before, after);
  }

  lemma NoBreakSpaceRefIsValid(before: string, after: string)
    requires BoundaryPrefix.ValidRefName(before) && BoundaryPrefix.ValidRefName("refs/" + after)
    ensures BoundaryPrefix.ValidRefName(before + NO_BREAK_SPACE + after)
  {
    var ref := before + NO_BREAK_SPACE + after;
    forall i | 5 <= i < |ref| ensures ref[i] > ' ' && ref[i] !in "~^:?*\\[" {
      if i >= |before| + 2 { assert ref[i] == ("refs/" + after)[i - |before| - 2 + 5]; }
    }
  }
}
