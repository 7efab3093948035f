/** The device map file: the text that init_device_map writes, and the reader
    that rebuilds the map from it. */
module DeviceMap {
  import opened Decimal
  import opened Folding
  import opened Options

  const BUFSIZE := 1024

  // ------------------------------------------------------------------ reading one line

  predicate IsSpace(c: char) {
    c in {' ', '\t', '\n', '\U{000B}', '\U{000C}', '\r'}
  }

  /** The space and the control characters from tab to carriage return. */
  lemma {:induction false} SpacesAre(c: char)
    ensures IsSpace(c) <==> c as int == 32 || 9 <= c as int <= 13
  {}

  function SkipSpaces(s: string): (t: string)
    ensures |t| <= |s| && (t != "" ==> !IsSpace(t[0]))
  {
    if s != "" && IsSpace(s[0]) then SkipSpaces(s[1..]) else s
  }

  function Word(s: string): (w: string)
    ensures |w| <= |s| && forall i :: 0 <= i < |w| ==> !IsSpace(w[i])
  {
    if s == "" || IsSpace(s[0]) then "" else [s[0]] + Word(s[1..])
  }

  /** The int in which an unsigned long of 32 bits is stored, for a number as
      strtoul reads it: too large ones are cut off, a minus sign wraps around. */
  function AsInt(minus: bool, v: nat): (n: int)
    ensures -0x8000_0000 <= n < 0x8000_0000
  {
    var w := if v >= 0x1_0000_0000 then 0xFFFF_FFFF else if minus then (0 - v) % 0x1_0000_0000 else v;
    if w >= 0x8000_0000 then w - 0x1_0000_0000 else w
  }

  /** The numbers that stay in the range of the BIOS: also some negative ones, up
      to the opposite of 2^32. */
  lemma {:induction false} DriveNumberIff(minus: bool, v: nat)
    ensures 0 <= AsInt(minus, v) <= 127 <==>
      if minus then v == 0 || 0xFFFF_FF81 <= v <= 0xFFFF_FFFF else v <= 127
    ensures 0 <= AsInt(minus, v) <= 127 ==> AsInt(minus, v) == if minus && v > 0 then 0x1_0000_0000 - v else v
    ensures AsInt(minus, v) < 0 <==> if minus then 0 < v <= 0x8000_0000 || v > 0xFFFF_FFFF else v >= 0x8000_0000
  {}

  predicate IsSign(s: string) {
    s != "" && (s[0] == '-' || s[0] == '+')
  }

  /** strtoul with base 10; without digits nothing is consumed. */
  function Strtoul(s: string): (r: (int, string))
    ensures -0x8000_0000 <= r.0 < 0x8000_0000 && |r.1| <= |s|
  {
    var t := SkipSpaces(s);
    var u := if IsSign(t) then t[1..] else t;
    var e := RunEnd(u, 0);
    if e == 0 then (0, s) else (AsInt(SignOf(t).Minus?, Value(u[0..e])), u[e..])
  }

  datatype Line = Ignored | Bad | Entry(drive: nat, name: string)

  /** What a line says. Hard disks are numbered from 0x80 on. */
  function ReadLine(line: string): (r: Line)
    ensures r.Entry? ==> r.drive < 0x100
  {
    if line == "" || line[0] == '#' then Ignored else
      var t := SkipSpaces(line);
      if t == "" then Ignored
      else if t[0] != '(' then Bad
      else if |t| < 3 || (t[1] != 'f' && t[1] != 'h') || t[2] != 'd' then Bad
      else ReadDrive(t[1] == 'f', t[3..])
  }

  /** The part of a line from the drive number on. Numbers the BIOS cannot have
      are ignored with the whole line. */
  function ReadDrive(floppy: bool, s: string): (r: Line)
    ensures r.Entry? ==> r.drive < 0x100
  {
    var (drive, v) := Strtoul(s);
    if drive < 0 then Bad
    else if drive > 127 then Ignored
    else ReadName(if floppy then drive else drive + 0x80, v)
  }

  /** The part of a line from the closing parenthesis on. */
  function ReadName(drive: nat, v: string): Line {
    if v == "" || v[0] != ')' then Bad else
      var w := SkipSpaces(v[1..]);
      if w == "" then Bad else Entry(drive, Word(w))
  }

  // ----------------------------------------------------------------- reading the file

  /** How much of the file the next fgets returns: up to a newline, or as much
      as the buffer holds. */
  function LineLength(file: string, limit: nat): (n: nat)
    ensures n <= |file| && n <= limit && (file != "" && limit > 0 ==> n > 0)
  {
    if file == "" || limit == 0 then 0
    else if file[0] == '\n' then 1
    else 1 + LineLength(file[1..], limit - 1)
  }

  /** The map after the file; None when a line is bad or a drive is repeated. */
  function ReadMap(file: string, m: map<nat, string>): Option<map<nat, string>>
    decreases |file|
  {
    if file == "" then Some(m) else
      var n := LineLength(file, BUFSIZE - 1);
      match ReadLine(file[..n])
      case Ignored => ReadMap(file[n..], m)
      case Bad => None
      case Entry(drive, name) => if drive in m then None else ReadMap(file[n..], m[drive := name])
  }

  method ReadDeviceMap(file: string) returns (ok: bool, m: map<nat, string>)
    ensures ok == ReadMap(file, map[]).Some? && (ok ==> ReadMap(file, map[]) == Some(m))
  {
    m := map[];
    var fp := file;
    while fp != ""
      invariant ReadMap(file, map[]) == ReadMap(fp, m)
      decreases |fp|
    {
      var n := LineLength(fp, BUFSIZE - 1);
      var line := ParseLine(fp[..n]);
      fp := fp[n..];
      match line {
        case Ignored =>
        case Bad => return false, m;
        case Entry(drive, name) =>
          if drive in m { return false, m; }
          m := m[drive := name];
      }
    }
    ok := true;
  }

  /** The pointer walk over one line. */
  method ParseLine(line: string) returns (r: Line)
    ensures r == ReadLine(line)
  {
    if line == "" || line[0] == '#' { return Ignored; }
    var ptr := PassSpaces(line);
    if ptr == "" { return Ignored; }
    if ptr[0] != '(' { return Bad; }
    if |ptr| < 3 || (ptr[1] != 'f' && ptr[1] != 'h') || ptr[2] != 'd' { return Bad; }
    var isFloppy := ptr[1] == 'f';
    var (drive, rest) := Strtoul(ptr[3..]);
    if drive < 0 { return Bad; }
    if drive > 127 { return Ignored; }
    if !isFloppy { drive := drive + 0x80; }
    r := ParseName(drive, rest);
  }

  method ParseName(drive: nat, v: string) returns (r: Line)
    ensures r == ReadName(drive, v)
  {
    if v == "" || v[0] != ')' { return Bad; }
    var ptr := PassSpaces(v[1..]);
    if ptr == "" { return Bad; }
    var eptr := 0;
    while eptr < |ptr| && !IsSpace(ptr[eptr])
      invariant eptr <= |ptr| && Word(ptr) == ptr[..eptr] + Word(ptr[eptr..])
    {
      assert ptr[eptr..][1..] == ptr[eptr + 1..] && ptr[..eptr + 1] == ptr[..eptr] + [ptr[eptr]];
      eptr := eptr + 1;
    }
    assert ptr[..eptr] + "" == ptr[..eptr];
    return Entry(drive, ptr[..eptr]);
  }

  method PassSpaces(s: string) returns (t: string)
    ensures t == SkipSpaces(s)
  {
    t := s;
    while t != "" && IsSpace(t[0])
      invariant SkipSpaces(s) == SkipSpaces(t)
      decreases |t|
    {
      t := t[1..];
    }
  }

  // ------------------------------------------------------------------ writing the file

  /** The line for a drive: number n, a floppy or a hard disk. */
  function LineFor(floppy: bool, n: nat, name: string): string {
    (if floppy then "(fd" else "(hd") + Digits(n) + ")\t" + name + "\n"
  }

  /** A device name that survives: one word, in a line that fits the buffer. */
  predicate GoodName(name: string) {
    name != "" && |name| <= 1000 && forall i :: 0 <= i < |name| ==> !IsSpace(name[i])
  }

  /** A device to be probed, and whether the probe succeeds. */
  datatype Device = Device(name: string, present: bool)

  predicate GoodNames(devices: seq<Device>) {
    forall i :: 0 <= i < |devices| ==> GoodName(devices[i].name)
  }

  /** The lines for all floppies, present or not. */
  function FloppyText(floppies: seq<Device>): string {
    if floppies == [] then "" else
      var n := |floppies| - 1;
      FloppyText(floppies[..n]) + LineFor(true, n, floppies[n].name)
  }

  function CountPresent(disks: seq<Device>): (n: nat)
    ensures n <= |disks|
  {
    if disks == [] then 0 else CountPresent(disks[..|disks| - 1]) + (if disks[|disks| - 1].present then 1 else 0)
  }

  /** The lines for the disks that are present, numbered in that order. */
  function DiskText(disks: seq<Device>): string {
    if disks == [] then "" else
      var (rest, d) := (disks[..|disks| - 1], disks[|disks| - 1]);
      if d.present then DiskText(rest) + LineFor(false, CountPresent(rest), d.name) else DiskText(rest)
  }

  /** The floppies and the disks found. */
  function FloppiesFound(floppies: seq<Device>): map<nat, string> {
    map i | 0 <= i < |floppies| && floppies[i].present :: floppies[i].name
  }

  function DisksFound(disks: seq<Device>): map<nat, string> {
    if disks == [] then map[] else
      var (rest, d) := (disks[..|disks| - 1], disks[|disks| - 1]);
      if d.present then DisksFound(rest)[0x80 + CountPresent(rest) := d.name] else DisksFound(rest)
  }

  lemma {:induction false} DiskNumbers(disks: seq<Device>)
    ensures forall k :: k in DisksFound(disks) <==> 0x80 <= k < 0x80 + CountPresent(disks)
    decreases |disks|
  {
    if disks != [] { DiskNumbers(disks[..|disks| - 1]); }
  }

  /** A disk that is found has the number of those found before it; a floppy its
      own. */
  lemma {:induction false} FoundInOrder(floppies: seq<Device>, disks: seq<Device>, i: nat)
    ensures i in FloppiesFound(floppies) <==> i < |floppies| && floppies[i].present
    ensures i < |floppies| && floppies[i].present ==> FloppiesFound(floppies)[i] == floppies[i].name
    ensures i < |disks| && disks[i].present ==>
      var k := 0x80 + CountPresent(disks[..i]); k in DisksFound(disks) && DisksFound(disks)[k] == disks[i].name
    decreases |disks|
  {
    if i < |disks| {
      var rest := disks[..|disks| - 1];
      if i < |disks| - 1 {
        FoundInOrder(floppies, rest, i);
        assert rest[..i] == disks[..i];
        DiskNumbers(rest);
      }
    }
  }

  lemma {:induction false} LineTexts()
    ensures LineFor(true, 0, "/dev/fd0") == "(fd0)\t/dev/fd0\n"
    ensures LineFor(false, 0, "/dev/hda") == "(hd0)\t/dev/hda\n"
    ensures LineFor(false, 1, "/dev/sda") == "(hd1)\t/dev/sda\n"
  {
    assert Digits(0) == "0" && Digits(1) == "1";
  }

  lemma {:induction false} TwoOfThree(a: Device, b: Device, c: Device)
    requires a.present && !b.present && c.present
    ensures DiskText([a, b, c]) == LineFor(false, 0, a.name) + LineFor(false, 1, c.name)
  {
    assert [a][..0] == [] && [a, b][..1] == [a] && [a, b, c][..2] == [a, b];
    assert CountPresent([]) == 0 && CountPresent([a]) == 1 && CountPresent([a, b]) == 1;
    assert DiskText([a, b]) == DiskText([a]) == "" + LineFor(false, 0, a.name);
    assert DiskText([a, b, c]) == DiskText([a, b]) + LineFor(false, 1, c.name);
    assert "" + LineFor(false, 0, a.name) == LineFor(false, 0, a.name);
  }

  /** An instance of what is written: two disks of three are found, and no
      floppy answers. */
  lemma {:induction false} WrittenText()
    ensures var fd, a, b, c := Device("/dev/fd0", false), Device("/dev/hda", true), Device("/dev/hdb", false), Device("/dev/sda", true);
      && FloppyText([fd]) == "(fd0)\t/dev/fd0\n"
      && DiskText([a, b, c]) == "(hd0)\t/dev/hda\n" + "(hd1)\t/dev/sda\n"
  {
    var fd, a, b, c := Device("/dev/fd0", false), Device("/dev/hda", true), Device("/dev/hdb", false), Device("/dev/sda", true);
    LineTexts();
    TwoOfThree(a, b, c);
    OneFloppy(fd);
  }

  lemma {:induction false} OneFloppy(d: Device)
    ensures FloppyText([d]) == LineFor(true, 0, d.name)
  {
    assert [d][..0] == [] && "" + LineFor(true, 0, d.name) == LineFor(true, 0, d.name);
  }

  /** The drives found by probing, and the text written on the way: floppies
      are listed whether they are present or not. The table has 256 places; the
      code stores past its end if and only if too many drives are found. */
  method InitDeviceMap(floppies: seq<Device>, disks: seq<Device>) returns (m: map<nat, string>, text: string)
    ensures text == FloppyText(floppies) + DiskText(disks)
    ensures m == FloppiesFound(floppies) + DisksFound(disks)
    ensures InTable(m) <==> CountPresent(disks) <= 128 && FewFloppies(floppies)
  {
    m, text := ProbeFloppies(floppies);
    m, text := ProbeDisks(m, text, disks);
    TableIff(floppies, disks);
  }

  lemma {:induction false} FloppyStep(floppies: seq<Device>, i: nat)
    requires i < |floppies|
    ensures var was, now, d := floppies[..i], floppies[..i + 1], floppies[i];
      && FloppyText(now) == FloppyText(was) + LineFor(true, i, d.name)
      && FloppiesFound(now) == if d.present then FloppiesFound(was)[i := d.name] else FloppiesFound(was)
  {
    var now := floppies[..i + 1];
    assert now[..i] == floppies[..i] && now[i] == floppies[i] && |now| == i + 1;
  }

  /** Probes the floppies; each is listed. */
  method ProbeFloppies(floppies: seq<Device>) returns (m: map<nat, string>, text: string)
    ensures m == FloppiesFound(floppies) && text == FloppyText(floppies)
  {
    m, text := map[], "";
    for i := 0 to |floppies|
      invariant text == FloppyText(floppies[..i]) && m == FloppiesFound(floppies[..i])
    {
      FloppyStep(floppies, i);
      text := text + LineFor(true, i, floppies[i].name);
      if floppies[i].present { m := m[i := floppies[i].name]; }
    }
    assert floppies[..|floppies|] == floppies;
  }

  /** All keys of the table are below 256. */
  ghost predicate InTable(m: map<nat, string>) {
    forall k :: k in m ==> k < 0x100
  }

  ghost predicate FewFloppies(floppies: seq<Device>) {
    forall i: nat :: 0x100 <= i < |floppies| ==> !floppies[i].present
  }

  lemma {:induction false} TableIff(floppies: seq<Device>, disks: seq<Device>)
    ensures InTable(FloppiesFound(floppies) + DisksFound(disks)) <==> CountPresent(disks) <= 128 && FewFloppies(floppies)
  {
    var fd, hd := FloppiesFound(floppies), DisksFound(disks);
    var m := fd + hd;
    DiskNumbers(disks);
    if InTable(m) {
      assert 0x100 !in m && hd.Keys <= m.Keys;
      forall i: nat | 0x100 <= i < |floppies| ensures !floppies[i].present {
        assert i in fd <==> floppies[i].present;
        assert i in fd ==> i in m;
      }
    }
    if CountPresent(disks) <= 128 && FewFloppies(floppies) {
      forall k | k in m ensures k < 0x100 { assert k in hd || k in fd; }
    }
  }

  lemma {:induction false} DiskStep(fd: map<nat, string>, fdText: string, disks: seq<Device>, i: nat)
    requires i < |disks|
    ensures var was, now, d := disks[..i], disks[..i + 1], disks[i];
      var n := CountPresent(was);
      if d.present then
        && CountPresent(now) == n + 1
        && fdText + DiskText(now) == fdText + DiskText(was) + LineFor(false, n, d.name)
        && fd + DisksFound(now) == (fd + DisksFound(was))[n + 0x80 := d.name]
      else CountPresent(now) == n && DiskText(now) == DiskText(was) && DisksFound(now) == DisksFound(was)
  {
    assert disks[..i + 1][..i] == disks[..i];
    if disks[i].present { Associate(fdText, DiskText(disks[..i]), LineFor(false, CountPresent(disks[..i]), disks[i].name)); }
  }

  /** Probes the disks; the next one found gets the next number. */
  method ProbeDisks(fd: map<nat, string>, fdText: string, disks: seq<Device>) returns (m: map<nat, string>, text: string)
    ensures m == fd + DisksFound(disks) && text == fdText + DiskText(disks)
  {
    m, text := fd, fdText;
    var numHd := 0;
    assert fd + map[] == fd && fdText + "" == fdText;
    for i := 0 to |disks|
      invariant numHd == CountPresent(disks[..i])
      invariant text == fdText + DiskText(disks[..i]) && m == fd + DisksFound(disks[..i])
    {
      DiskStep(fd, fdText, disks, i);
      if disks[i].present {
        m := m[numHd + 0x80 := disks[i].name];
        text := text + LineFor(false, numHd, disks[i].name);
        numHd := numHd + 1;
      }
    }
    assert disks[..|disks|] == disks;
  }

  // ------------------------------------------------------------------- the round trip

  /** A line as fgets wants it: one newline, at the end. */
  predicate IsLine(a: string) {
    0 < |a| < BUFSIZE && a[|a| - 1] == '\n' && forall i :: 0 <= i < |a| - 1 ==> a[i] != '\n'
  }

  lemma {:induction false} LineLengthIs(a: string, b: string, limit: nat)
    requires 0 < |a| <= limit && a[|a| - 1] == '\n' && forall i :: 0 <= i < |a| - 1 ==> a[i] != '\n'
    ensures LineLength(a + b, limit) == |a|
  {
    assert (a + b)[1..] == a[1..] + b;
    if |a| > 1 { LineLengthIs(a[1..], b, limit - 1); }
  }

  /** Text made of such lines. */
  ghost predicate Lines(a: string)
    decreases |a|
  {
    a == "" || exists n: nat :: n <= |a| && IsLine(a[..n]) && Lines(a[n..])
  }

  lemma {:induction false} LinesAppend(a: string, line: string)
    requires Lines(a) && IsLine(line)
    ensures Lines(a + line)
    decreases |a|
  {
    if a == "" {
      assert a + line == line && line[..|line|] == line && line[|line|..] == "";
      FirstOfLines(line, |line|);
    } else {
      var n: nat :| n <= |a| && IsLine(a[..n]) && Lines(a[n..]);
      LinesAppend(a[n..], line);
      JoinedBehind(a, line, n);
      FirstOfLines(a + line, n);
    }
  }

  lemma {:induction false} JoinedBehind(a: string, b: string, n: nat)
    requires n <= |a|
    ensures (a + b)[..n] == a[..n] && (a + b)[n..] == a[n..] + b
  {}

  lemma {:induction false} FirstOfLines(a: string, n: nat)
    requires n <= |a| && IsLine(a[..n]) && Lines(a[n..])
    ensures Lines(a)
  {}

  /** What the line of length n does to the map, and then the rest. */
  function AfterLine(line: Line, rest: string, m: map<nat, string>): Option<map<nat, string>> {
    match line
    case Ignored => ReadMap(rest, m)
    case Bad => None
    case Entry(drive, name) => if drive in m then None else ReadMap(rest, m[drive := name])
  }

  lemma {:induction false} FirstLine(a: string, b: string, n: nat, m: map<nat, string>)
    requires n <= |a| && IsLine(a[..n])
    ensures ReadMap(a + b, m) == AfterLine(ReadLine(a[..n]), a[n..] + b, m)
  {
    LineLengthIs(a[..n], a[n..] + b, BUFSIZE - 1);
    assert a[..n] + (a[n..] + b) == a + b;
    assert (a + b)[..n] == a[..n] && (a + b)[n..] == a[n..] + b;
  }

  /** Reading one text after another. */
  lemma {:induction false} ReadMapConcat(a: string, b: string, m: map<nat, string>)
    requires Lines(a)
    ensures ReadMap(a + b, m) == (var r := ReadMap(a, m); if r.None? then None else ReadMap(b, r.value))
    decreases |a|
  {
    if a == "" {
      assert a + b == b;
    } else {
      var n: nat :| n <= |a| && IsLine(a[..n]) && Lines(a[n..]);
      FirstLine(a, b, n, m);
      FirstLine(a, "", n, m);
      assert a + "" == a && a[n..] + "" == a[n..];
      var line := ReadLine(a[..n]);
      if line.Ignored? { ReadMapConcat(a[n..], b, m); }
      if line.Entry? && line.drive !in m { ReadMapConcat(a[n..], b, m[line.drive := line.name]); }
    }
  }

  lemma {:induction false} WordIs(name: string, rest: string)
    requires (forall i :: 0 <= i < |name| ==> !IsSpace(name[i])) && (rest == "" || IsSpace(rest[0]))
    ensures Word(name + rest) == name
  {
    if name == "" {
      assert name + rest == rest;
    } else {
      assert (name + rest)[1..] == name[1..] + rest;
      WordIs(name[1..], rest);
    }
  }

  /** The number of a line is read up to the parenthesis. */
  lemma {:induction false} NumberIs(n: nat, rest: string)
    requires n < 0x8000_0000 && rest != "" && rest[0] == ')'
    ensures Strtoul(Digits(n) + rest) == (n, rest)
  {
    var d, s := Digits(n), Digits(n) + rest;
    assert IsDigit(d[0]) && s[0] == d[0];
    assert SkipSpaces(s) == s && !IsSign(s);
    assert s[0..|d|] == d && s[|d|..] == rest && s[|d|] == ')';
    RunOfDigits(s, 0, |d|);
    ValueOfDigits(n);
  }

  lemma {:induction false} NameIs(drive: nat, name: string)
    requires GoodName(name)
    ensures ReadName(drive, ")\t" + name + "\n") == Entry(drive, name)
  {
    var v, w := ")\t" + name + "\n", name + "\n";
    assert v[1..] == "\t" + w && ("\t" + w)[1..] == w;
    assert SkipSpaces(v[1..]) == SkipSpaces(w) == w;
    WordIs(name, "\n");
  }

  /** What a line with number n is for; the reader ignores numbers above 127. */
  function Written(floppy: bool, n: nat, name: string): Line {
    if n > 127 then Ignored else Entry(if floppy then n else n + 0x80, name)
  }

  /** A written line says what it was written for. */
  lemma {:induction false} LineReadBack(floppy: bool, n: nat, name: string)
    requires n < 0x8000_0000 && GoodName(name)
    ensures ReadLine(LineFor(floppy, n, name)) == Written(floppy, n, name)
  {
    var line, tail := LineFor(floppy, n, name), ")\t" + name + "\n";
    var head := if floppy then "(fd" else "(hd";
    assert line == head + (Digits(n) + tail);
    LineFrom(line, head, Digits(n) + tail);
    NumberIs(n, tail);
    NameIs(if floppy then n else n + 0x80, name);
  }

  /** A line that starts with a drive's name. */
  lemma {:induction false} LineFrom(line: string, head: string, rest: string)
    requires (head == "(fd" || head == "(hd") && line == head + rest
    ensures ReadLine(line) == ReadDrive(head == "(fd", rest)
  {
    assert line[0] == '(' && line[1] == head[1] && line[2] == 'd' && line[3..] == rest;
    assert SkipSpaces(line) == line;
  }

  lemma {:induction false} LineForIsLine(floppy: bool, n: nat, name: string)
    requires n < 0x8000_0000 && GoodName(name)
    ensures IsLine(LineFor(floppy, n, name))
  {
    var line, d := LineFor(floppy, n, name), Digits(n);
    DigitsBound(n, 10);
    forall i | 0 <= i < |line| - 1 ensures line[i] != '\n' {
      if 3 <= i < 3 + |d| {
        assert line[i] == d[i - 3];
      } else if i >= 5 + |d| {
        assert line[i] == name[i - 5 - |d|];
      }
    }
  }

  ghost predicate YieldsIs(v: bool, text: string, m: map<nat, string>) {
    forall b {:trigger Key(b)} :: Key(b) ==> v == (Lines(text) && ReadMap(text, map[]) == Some(m))
  }

  /** text consists of lines and is read as m; kept folded, see YieldsMeans. */
  ghost predicate Yields(text: string, m: map<nat, string>) {
    assert YieldsIs(Lines(text) && ReadMap(text, map[]) == Some(m), text, m);
    var v :| YieldsIs(v, text, m);
    v
  }

  lemma {:induction false} YieldsMeans(text: string, m: map<nat, string>)
    ensures Yields(text, m) <==> Lines(text) && ReadMap(text, map[]) == Some(m)
  {
    assert YieldsIs(Yields(text, m), text, m);
    assert Key(true);
  }

  /** The map with one more line. */
  function WithLine(m: map<nat, string>, line: Line): map<nat, string> {
    if line.Entry? then m[line.drive := line.name] else m
  }

  /** One more line adds one more entry, if its number is not too large. */
  lemma {:induction false} ReadsOneMore(a: string, m: map<nat, string>, floppy: bool, n: nat, name: string)
    requires n < 0x8000_0000 && GoodName(name) && Yields(a, m)
    requires (if floppy then n else n + 0x80) !in m
    ensures Yields(a + LineFor(floppy, n, name), WithLine(m, Written(floppy, n, name)))
  {
    var line := LineFor(floppy, n, name);
    YieldsMeans(a, m);
    LineForIsLine(floppy, n, name);
    LinesAppend(a, line);
    ReadMapConcat(a, line, map[]);
    OneLine(line, m);
    LineReadBack(floppy, n, name);
    YieldsMeans(a + line, WithLine(m, Written(floppy, n, name)));
  }

  lemma {:induction false} OneLine(line: string, m: map<nat, string>)
    requires IsLine(line)
    ensures ReadMap(line, m) == match ReadLine(line)
      case Ignored => Some(m)
      case Bad => None
      case Entry(drive, name) => if drive in m then None else Some(m[drive := name])
  {
    LineLengthIs(line, "", BUFSIZE - 1);
    assert line + "" == line && line[..|line|] == line && line[|line|..] == "";
  }

  /** The drives of the text that can be read back: all floppies listed, and the
      disks found, in both cases only the first 128. */
  function FloppiesKept(floppies: seq<Device>): map<nat, string> {
    map i | 0 <= i < |floppies| && i <= 127 :: floppies[i].name
  }

  function DisksKept(disks: seq<Device>): map<nat, string> {
    map k | k in DisksFound(disks) && k < 0x100 :: DisksFound(disks)[k]
  }

  lemma {:induction false} FloppiesReadBack(floppies: seq<Device>)
    requires |floppies| <= 0x8000_0000 && GoodNames(floppies)
    ensures Yields(FloppyText(floppies), FloppiesKept(floppies))
    decreases |floppies|
  {
    if floppies == [] {
      assert FloppiesKept(floppies) == map[];
      YieldsMeans("", map[]);
    } else {
      var n := |floppies| - 1;
      var rest, name := floppies[..n], floppies[n].name;
      FloppiesReadBack(rest);
      ReadsOneMore(FloppyText(rest), FloppiesKept(rest), true, n, name);
      assert FloppiesKept(floppies) == WithLine(FloppiesKept(rest), Written(true, n, name));
    }
  }

  lemma {:induction false} AllReadBack(floppies: seq<Device>, disks: seq<Device>)
    requires |floppies| <= 0x8000_0000 && |disks| <= 0x8000_0000 && GoodNames(floppies) && GoodNames(disks)
    ensures Yields(FloppyText(floppies) + DiskText(disks), FloppiesKept(floppies) + DisksKept(disks))
    decreases |disks|
  {
    if disks == [] {
      FloppiesReadBack(floppies);
      assert FloppyText(floppies) + "" == FloppyText(floppies);
      assert DisksKept([]) == map[] && FloppiesKept(floppies) + map[] == FloppiesKept(floppies);
    } else {
      var rest, d := disks[..|disks| - 1], disks[|disks| - 1];
      AllReadBack(floppies, rest);
      assert disks == rest + [d];
      if d.present {
        DiskReadBack(FloppyText(floppies), FloppiesKept(floppies), rest, d);
      } else {
        assert DisksKept(disks) == DisksKept(rest);
      }
    }
  }

  lemma {:induction false} DiskReadBack(fdText: string, fd: map<nat, string>, rest: seq<Device>, d: Device)
    requires d.present && GoodName(d.name) && |rest| < 0x8000_0000 && forall k :: k in fd ==> k < 0x80
    requires Yields(fdText + DiskText(rest), fd + DisksKept(rest))
    ensures Yields(fdText + DiskText(rest + [d]), fd + DisksKept(rest + [d]))
  {
    var n, a := CountPresent(rest), DiskText(rest);
    var line := LineFor(false, n, d.name);
    OneMoreDisk(fd, rest, d);
    ReadsOneMore(fdText + a, fd + DisksKept(rest), false, n, d.name);
    assert (rest + [d])[..|rest|] == rest;
    assert DiskText(rest + [d]) == a + line;
    assert fdText + a + line == fdText + (a + line);
  }

  lemma {:induction false} OneMoreDisk(fd: map<nat, string>, rest: seq<Device>, d: Device)
    requires d.present && forall k :: k in fd ==> k < 0x80
    ensures var n, disks := CountPresent(rest), rest + [d];
      && n + 0x80 !in fd + DisksKept(rest)
      && fd + DisksKept(disks) == WithLine(fd + DisksKept(rest), Written(false, n, d.name))
  {
    DiskNumbers(rest);
    assert (rest + [d])[..|rest|] == rest;
    var n := CountPresent(rest);
    assert DisksFound(rest + [d]) == DisksFound(rest)[0x80 + n := d.name];
    assert n <= 127 ==> DisksKept(rest + [d]) == DisksKept(rest)[0x80 + n := d.name];
    assert n > 127 ==> DisksKept(rest + [d]) == DisksKept(rest);
  }

  /** Reading the file that was written gives the hard disks that were found,
      and all floppies listed: those that answered the probe and the others. Of
      each kind it gives the first 128. */
  lemma {:induction false} MapRoundTrip(floppies: seq<Device>, disks: seq<Device>)
    requires |floppies| <= 0x8000_0000 && |disks| <= 0x8000_0000 && GoodNames(floppies) && GoodNames(disks)
    ensures ReadMap(FloppyText(floppies) + DiskText(disks), map[]) == Some(FloppiesKept(floppies) + DisksKept(disks))
    ensures DisksKept(disks) == DisksFound(disks) <==> CountPresent(disks) <= 128
  {
    AllReadBack(floppies, disks);
    YieldsMeans(FloppyText(floppies) + DiskText(disks), FloppiesKept(floppies) + DisksKept(disks));
    DiskNumbers(disks);
    if CountPresent(disks) > 128 { assert 0x100 in DisksFound(disks) && 0x100 !in DisksKept(disks); }
  }

  // ---------------------------------------------------------- which files are accepted

  function Concat(lines: seq<string>): string {
    if lines == [] then "" else lines[0] + Concat(lines[1..])
  }

  /** One call of fgets: up to 1023 characters, with a newline at the end or not. */
  predicate IsPiece(line: string) {
    0 < |line| <= 1023 && '\n' !in line[..|line| - 1]
  }

  /** It could not have been longer. */
  predicate IsFull(line: string)
    requires line != ""
  {
    |line| == 1023 || line[|line| - 1] == '\n'
  }

  /** The file as fgets cuts it; the last piece may end anywhere. */
  ghost predicate IsCut(file: string, lines: seq<string>) {
    && Concat(lines) == file && (forall i :: 0 <= i < |lines| ==> IsPiece(lines[i]))
    && forall i :: 0 <= i < |lines| - 1 ==> IsFull(lines[i])
  }

  /** A piece goes on up to the limit, the end of the file or the first newline,
      whichever comes first. */
  lemma {:induction false} LineLengthIff(file: string, limit: nat, n: nat)
    requires file != "" && limit > 0
    ensures n == LineLength(file, limit) <==>
      && 0 < n <= limit && n <= |file| && '\n' !in file[..n - 1]
      && (n == limit || n == |file| || file[n - 1] == '\n')
  {
    var rest := file[1..];
    if file[0] == '\n' {
      if n > 1 && n <= |file| { assert file[..n - 1][0] == '\n'; }
    } else if rest == "" || limit == 1 {
      assert n == 1 ==> file[..n - 1] == "";
    } else {
      if n > 0 { LineLengthIff(rest, limit - 1, n - 1); }
      if 1 < n <= |file| { assert file[..n - 1] == [file[0]] + rest[..n - 2] && file[n - 1] == rest[n - 2]; }
    }
  }

  lemma {:induction false} FirstPiece(file: string, lines: seq<string>)
    requires IsCut(file, lines) && lines != []
    ensures file != "" && LineLength(file, BUFSIZE - 1) == |lines[0]| <= |file|
    ensures file[..|lines[0]|] == lines[0] && IsCut(file[|lines[0]|..], lines[1..])
  {
    var line, rest := lines[0], Concat(lines[1..]);
    var n := |line|;
    assert IsPiece(line) && file == line + rest && file[..n] == line && file[n..] == rest;
    assert file[..n - 1] == line[..n - 1] && file[n - 1] == line[n - 1];
    assert |lines| == 1 ==> rest == "";
    assert |lines| > 1 ==> IsFull(lines[0]);
    LineLengthIff(file, BUFSIZE - 1, n);
    forall i | 0 <= i < |lines| - 1 ensures IsPiece(lines[1..][i]) { assert lines[1..][i] == lines[i + 1]; }
    forall i | 0 <= i < |lines| - 2 ensures IsFull(lines[1..][i]) { assert lines[1..][i] == lines[i + 1]; }
  }

  /** Every file is cut in one way. */
  lemma {:induction false} EveryFileIsCut(file: string) returns (lines: seq<string>)
    ensures IsCut(file, lines)
    decreases |file|
  {
    if file == "" { return []; }
    var n := LineLength(file, BUFSIZE - 1);
    LineLengthIff(file, BUFSIZE - 1, n);
    var line, rest := file[..n], file[n..];
    var more := EveryFileIsCut(rest);
    lines := [line] + more;
    assert lines[1..] == more && file == line + rest;
    assert line[..n - 1] == file[..n - 1] && line[n - 1] == file[n - 1];
    if more != [] { FirstPiece(rest, more); }
    forall i | 0 <= i < |lines| ensures IsPiece(lines[i]) { if i > 0 { assert lines[i] == more[i - 1]; } }
    forall i | 0 <= i < |lines| - 1 ensures IsFull(lines[i]) { if i > 0 { assert lines[i] == more[i - 1]; } }
  }

  /** What the pieces say, one after the other. */
  function Said(lines: seq<string>): (said: seq<Line>)
    ensures |said| == |lines| && forall i :: 0 <= i < |lines| ==> said[i] == ReadLine(lines[i])
  {
    seq(|lines|, i requires 0 <= i < |lines| => ReadLine(lines[i]))
  }

  predicate NoneBad(said: seq<Line>) {
    forall i :: 0 <= i < |said| ==> !said[i].Bad?
  }

  /** No two entries are for the same drive. */
  predicate NoneRepeated(said: seq<Line>) {
    forall i, j :: 0 <= i < j < |said| && said[i].Entry? && said[j].Entry? ==> said[i].drive != said[j].drive
  }

  ghost predicate Names(said: seq<Line>, drive: nat) {
    exists i :: 0 <= i < |said| && said[i].Entry? && said[i].drive == drive
  }

  /** r is m and the entries. */
  ghost predicate Adds(m: map<nat, string>, said: seq<Line>, r: map<nat, string>) {
    && (forall k :: k in r <==> k in m || Names(said, k))
    && (forall k :: k in m && k in r ==> r[k] == m[k])
    && (forall i :: 0 <= i < |said| && said[i].Entry? && said[i].drive in r ==> r[said[i].drive] == said[i].name)
  }

  ghost predicate Unused(said: seq<Line>, m: map<nat, string>) {
    forall i :: 0 <= i < |said| && said[i].Entry? ==> said[i].drive !in m
  }

  /** What a reader must find in order to accept. */
  ghost predicate Acceptable(said: seq<Line>, m: map<nat, string>) {
    NoneBad(said) && NoneRepeated(said) && Unused(said, m)
  }

  lemma {:induction false} NoEntry(first: Line, rest: seq<Line>, m: map<nat, string>)
    requires !first.Entry?
    ensures Acceptable([first] + rest, m) <==> !first.Bad? && Acceptable(rest, m)
    ensures forall k :: Names([first] + rest, k) <==> Names(rest, k)
  {
    var all := [first] + rest;
    assert all[0] == first && forall i :: 0 <= i < |rest| ==> all[i + 1] == rest[i];
    forall k ensures Names(all, k) <==> Names(rest, k) {
      if Names(rest, k) {
        var i :| 0 <= i < |rest| && rest[i].Entry? && rest[i].drive == k;
        assert all[i + 1].drive == k;
      }
      if Names(all, k) {
        var i :| 0 <= i < |all| && all[i].Entry? && all[i].drive == k;
        assert rest[i - 1].drive == k;
      }
    }
    if Acceptable(all, m) {
      forall i | 0 <= i < |rest| ensures !rest[i].Bad? && (rest[i].Entry? ==> rest[i].drive !in m) { assert all[i + 1] == rest[i]; }
      forall i, j | 0 <= i < j < |rest| && rest[i].Entry? && rest[j].Entry? ensures rest[i].drive != rest[j].drive {
        assert all[i + 1] == rest[i] && all[j + 1] == rest[j];
      }
    }
  }

  lemma {:induction false} OneMoreEntry(first: Line, rest: seq<Line>, m: map<nat, string>)
    requires first.Entry?
    ensures Acceptable([first] + rest, m) <==>
      first.drive !in m && Acceptable(rest, m[first.drive := first.name])
  {
    var all, m' := [first] + rest, m[first.drive := first.name];
    assert all[0] == first && forall i :: 0 <= i < |rest| ==> all[i + 1] == rest[i];
    if Acceptable(all, m) {
      forall i | 0 <= i < |rest| ensures !rest[i].Bad? && (rest[i].Entry? ==> rest[i].drive !in m') { assert all[i + 1] == rest[i]; }
      forall i, j | 0 <= i < j < |rest| && rest[i].Entry? && rest[j].Entry? ensures rest[i].drive != rest[j].drive {
        assert all[i + 1] == rest[i] && all[j + 1] == rest[j];
      }
    }
  }

  lemma {:induction false} AddsOneMore(first: Line, rest: seq<Line>, m: map<nat, string>, r: map<nat, string>)
    requires first.Entry? && first.drive !in m && Adds(m[first.drive := first.name], rest, r)
    ensures Adds(m, [first] + rest, r)
  {
    var all := [first] + rest;
    assert all[0] == first;
    forall k ensures Names(all, k) <==> k == first.drive || Names(rest, k) {
      if Names(rest, k) {
        var i :| 0 <= i < |rest| && rest[i].Entry? && rest[i].drive == k;
        assert all[i + 1].drive == k;
      }
      if Names(all, k) && k != first.drive {
        var i :| 0 <= i < |all| && all[i].Entry? && all[i].drive == k;
        assert rest[i - 1].drive == k;
      }
    }
    forall i | 0 <= i < |all| && all[i].Entry? && all[i].drive in r ensures r[all[i].drive] == all[i].name {
      if i > 0 { assert all[i] == rest[i - 1]; }
    }
  }

  lemma {:induction false} AddsNothing(first: Line, rest: seq<Line>, m: map<nat, string>, r: map<nat, string>)
    requires !first.Entry? && Adds(m, rest, r)
    ensures Adds(m, [first] + rest, r)
  {
    var all := [first] + rest;
    NoEntry(first, rest, m);
    forall i | 0 <= i < |all| && all[i].Entry? && all[i].drive in r ensures r[all[i].drive] == all[i].name {
      assert all[i] == rest[i - 1];
    }
  }

  lemma {:induction false} ReadMapMeans(file: string, lines: seq<string>, m: map<nat, string>)
    requires IsCut(file, lines)
    ensures var said, r := Said(lines), ReadMap(file, m);
      (r.Some? <==> Acceptable(said, m)) && (r.Some? ==> Adds(m, said, r.value))
    decreases |lines|
  {
    if lines != [] {
      FirstPiece(file, lines);
      var n := |lines[0]|;
      var line, rest := ReadLine(lines[0]), Said(lines[1..]);
      assert Said(lines) == [line] + rest;
      match line {
        case Ignored =>
          ReadMapMeans(file[n..], lines[1..], m);
          NoEntry(line, rest, m);
          if ReadMap(file, m).Some? { AddsNothing(line, rest, m, ReadMap(file, m).value); }
        case Bad =>
          NoEntry(line, rest, m);
        case Entry(drive, name) =>
          OneMoreEntry(line, rest, m);
          if drive !in m {
            ReadMapMeans(file[n..], lines[1..], m[drive := name]);
            if ReadMap(file, m).Some? { AddsOneMore(line, rest, m, ReadMap(file, m).value); }
          }
      }
    }
  }

  /** A file is accepted if and only if none of its lines, the last one included
      however it ends, is bad and no two of its entries are for the same drive;
      the map then has exactly the entries. */
  lemma {:induction false} AcceptedIff(file: string, lines: seq<string>)
    requires IsCut(file, lines)
    ensures var said, r := Said(lines), ReadMap(file, map[]);
      && (r.Some? <==> NoneBad(said) && NoneRepeated(said))
      && (r.Some? ==> forall k :: k in r.value <==> Names(said, k))
      && (r.Some? ==> forall i :: 0 <= i < |said| && said[i].Entry? ==>
            said[i].drive in r.value && r.value[said[i].drive] == said[i].name)
  {
    ReadMapMeans(file, lines, map[]);
    var said, r := Said(lines), ReadMap(file, map[]);
    if r.Some? {
      forall i | 0 <= i < |said| && said[i].Entry? ensures said[i].drive in r.value { assert Names(said, said[i].drive); }
    }
  }

  // ------------------------------------------------------------- the form of an entry

  predicate AllSpaces(s: string) {
    forall i :: 0 <= i < |s| ==> IsSpace(s[i])
  }

  predicate IsWord(s: string) {
    s != "" && forall i :: 0 <= i < |s| ==> !IsSpace(s[i])
  }

  /** What strtoul takes for a number: spaces, a sign or none, digits; or nothing
      at all, which stands for 0. */
  datatype Numeral = Nothing | Numeral(ws: string, sign: Sign, digits: string)

  datatype Sign = NoSign | Plus | Minus

  predicate WellMade(p: Numeral) {
    p.Numeral? ==> AllSpaces(p.ws) && p.digits != "" && AllDigits(p.digits)
  }

  function SignText(sign: Sign): string {
    match sign
    case NoSign => ""
    case Plus => "+"
    case Minus => "-"
  }

  function SignOf(t: string): Sign {
    if !IsSign(t) then NoSign else if t[0] == '-' then Minus else Plus
  }

  function TextOf(p: Numeral): string {
    if p.Nothing? then "" else p.ws + (SignText(p.sign) + p.digits)
  }

  function NumberOf(p: Numeral): int
    requires WellMade(p)
  {
    if p.Nothing? then 0 else AsInt(p.sign.Minus?, Value(p.digits))
  }

  /** The form of a line: a drive and its name, with spaces around. */
  ghost predicate Form(line: string, floppy: bool, pre: string, num: string, gap: string, name: string, post: string) {
    && line == pre + ((if floppy then "(fd" else "(hd") + (num + (")" + (gap + (name + post)))))
    && AllSpaces(pre) && AllSpaces(gap) && IsWord(name) && (post == "" || IsSpace(post[0]))
  }

  lemma {:induction false} SkipIs(ws: string, t: string)
    requires AllSpaces(ws) && (t == "" || !IsSpace(t[0]))
    ensures SkipSpaces(ws + t) == t
    decreases |ws|
  {
    if ws == "" {
      assert ws + t == t;
    } else {
      assert (ws + t)[0] == ws[0] && (ws + t)[1..] == ws[1..] + t;
      SkipIs(ws[1..], t);
    }
  }

  lemma {:induction false} SkipSplits(s: string)
    ensures var n := |s| - |SkipSpaces(s)|; 0 <= n <= |s| && AllSpaces(s[..n]) && s[n..] == SkipSpaces(s)
  {
    if s != "" && IsSpace(s[0]) {
      SkipSplits(s[1..]);
      var n := |s| - |SkipSpaces(s)|;
      assert s[..n] == [s[0]] + s[1..][..n - 1];
    }
  }

  lemma {:induction false} WordSplits(s: string)
    ensures var w := Word(s); |w| <= |s| && s[..|w|] == w && (s[|w|..] == "" || IsSpace(s[|w|..][0]))
  {
    if s != "" && !IsSpace(s[0]) {
      WordSplits(s[1..]);
      var w := Word(s);
      assert s[..|w|] == [s[0]] + s[1..][..|w| - 1] && s[|w|..] == s[1..][|w| - 1..];
    }
  }

  /** rest ends a numeral: a parenthesis always, and behind digits all but a digit. */
  predicate Ends(p: Numeral, rest: string) {
    if p.Nothing? then rest != "" && rest[0] == ')' else rest == "" || !IsDigit(rest[0])
  }

  /** strtoul takes a numeral up to its end for its number. */
  lemma {:induction false} StrtoulReads(p: Numeral, rest: string)
    requires WellMade(p) && Ends(p, rest)
    ensures Strtoul(TextOf(p) + rest) == (NumberOf(p), rest)
  {
    if p.Nothing? {
      assert "" + rest == rest && SkipSpaces(rest) == rest && RunEnd(rest, 0) == 0;
    } else {
      var t := SignText(p.sign) + (p.digits + rest);
      Bracketed(p.ws, SignText(p.sign), p.digits, rest);
      assert IsDigit(p.digits[0]) && (p.digits + rest)[0] == p.digits[0];
      assert t[0] == (if p.sign.NoSign? then p.digits[0] else SignText(p.sign)[0]) && !IsSpace(t[0]);
      SkipIs(p.ws, t);
      StrtoulSigned(p.sign, p.digits, rest);
    }
  }

  lemma {:induction false} StrtoulSigned(sign: Sign, digits: string, rest: string)
    requires digits != "" && AllDigits(digits) && (rest == "" || !IsDigit(rest[0]))
    ensures var t := SignText(sign) + (digits + rest);
      var u := if IsSign(t) then t[1..] else t;
      && SignOf(t) == sign && RunEnd(u, 0) == |digits| && u[0..|digits|] == digits && u[|digits|..] == rest
  {
    var t, d := SignText(sign) + (digits + rest), digits + rest;
    assert IsDigit(digits[0]) && d[0] == digits[0];
    assert sign.NoSign? ==> t == d;
    assert !sign.NoSign? ==> t[0] == SignText(sign)[0] && t[1..] == d;
    assert d[0..|digits|] == digits && d[|digits|..] == rest;
    assert rest != "" ==> d[|digits|] == rest[0];
    RunOfDigits(d, 0, |digits|);
  }

  lemma {:induction false} SignSplits(t: string)
    ensures t == SignText(SignOf(t)) + if IsSign(t) then t[1..] else t
  {}

  lemma {:induction false} TakenApart(s: string) returns (ws: string)
    ensures AllSpaces(ws) && s == ws + SkipSpaces(s)
  {
    SkipSplits(s);
    var n := |s| - |SkipSpaces(s)|;
    ws := s[..n];
    assert s == s[..n] + s[n..];
  }

  lemma {:induction false} Bracketed(a: string, b: string, c: string, d: string)
    ensures a + (b + (c + d)) == a + (b + c) + d
  {
    Associate(b, c, d);
    Associate(a, b + c, d);
  }

  lemma Associate(a: string, b: string, c: string)
    ensures a + (b + c) == a + b + c
  {}

  /** What strtoul gives, by the number e of digits it finds. */
  lemma {:induction false} StrtoulIs(s: string, t: string, u: string, e: nat)
    requires t == SkipSpaces(s) && u == (if IsSign(t) then t[1..] else t) && e == RunEnd(u, 0)
    ensures e == 0 ==> Strtoul(s) == (0, s)
    ensures e > 0 ==> Strtoul(s) == (AsInt(SignOf(t).Minus?, Value(u[0..e])), u[e..])
  {}

  lemma {:induction false} SomeDigits(s: string, t: string, u: string, digits: string, rest: string) returns (p: Numeral)
    requires t == SkipSpaces(s) && u == (if IsSign(t) then t[1..] else t) && u == digits + rest
    requires digits != "" && AllDigits(digits)
    ensures p.Numeral? && WellMade(p) && s == TextOf(p) + rest && NumberOf(p) == AsInt(SignOf(t).Minus?, Value(digits))
  {
    var ws := TakenApart(s);
    SignSplits(t);
    p := NumeralOf(s, ws, t, u, digits, rest);
  }

  /** What strtoul consumes is a numeral. */
  lemma {:induction false} StrtoulSplits(s: string, n: int, v: string) returns (p: Numeral)
    requires Strtoul(s) == (n, v)
    ensures WellMade(p) && s == TextOf(p) + v && NumberOf(p) == n
    ensures p.Numeral? ==> Ends(p, v)
  {
    var t := SkipSpaces(s);
    var u := if IsSign(t) then t[1..] else t;
    var e := RunEnd(u, 0);
    StrtoulIs(s, t, u, e);
    if e == 0 {
      p := Nothing;
      assert "" + s == s;
    } else {
      assert u == u[0..e] + u[e..];
      assert u[e..] != "" ==> u[e..][0] == u[e];
      p := SomeDigits(s, t, u, u[0..e], u[e..]);
    }
  }

  lemma {:induction false} NumeralOf(s: string, ws: string, t: string, u: string, digits: string, rest: string) returns (p: Numeral)
    requires s == ws + t && t == SignText(SignOf(t)) + u && u == digits + rest
    requires AllSpaces(ws) && digits != "" && AllDigits(digits)
    ensures p.Numeral? && WellMade(p) && s == TextOf(p) + rest && NumberOf(p) == AsInt(SignOf(t).Minus?, Value(digits))
  {
    p := Numeral(ws, SignOf(t), digits);
    Bracketed(ws, SignText(SignOf(t)), digits, rest);
  }

  /** A line of the right form says what it should. */
  lemma {:induction false} FormIsRead(line: string, floppy: bool, pre: string, p: Numeral, gap: string, name: string, post: string)
    requires WellMade(p) && Form(line, floppy, pre, TextOf(p), gap, name, post) && 0 <= NumberOf(p) <= 127
    ensures ReadLine(line) == Entry(if floppy then NumberOf(p) else NumberOf(p) + 0x80, name)
  {
    var head, tail := if floppy then "(fd" else "(hd", ")" + (gap + (name + post));
    var t := head + (TextOf(p) + tail);
    SkipIs(pre, t);
    assert line[0] == if pre == "" then '(' else pre[0];
    SameLine(line, t);
    LineFrom(t, head, TextOf(p) + tail);
    DriveFrom(floppy, p, tail, gap, name, post);
  }

  lemma {:induction false} DriveFrom(floppy: bool, p: Numeral, tail: string, gap: string, name: string, post: string)
    requires WellMade(p) && 0 <= NumberOf(p) <= 127 && Tail(tail, gap, name, post)
    ensures ReadDrive(floppy, TextOf(p) + tail) == Entry(if floppy then NumberOf(p) else NumberOf(p) + 0x80, name)
  {
    assert tail[0] == ')';
    assert Ends(p, tail);
    StrtoulReads(p, tail);
    NameFrom(if floppy then NumberOf(p) else NumberOf(p) + 0x80, tail, gap, name, post);
  }

  /** Leading spaces make no difference. */
  lemma {:induction false} SameLine(line: string, t: string)
    requires SkipSpaces(line) == t && line != "" && t != "" && line[0] != '#' && t[0] != '#'
    ensures ReadLine(line) == ReadLine(t)
  {
    SkipAgain(line);
  }

  lemma {:induction false} SkipAgain(s: string)
    ensures SkipSpaces(SkipSpaces(s)) == SkipSpaces(s)
  {}

  lemma {:induction false} NameFrom(drive: nat, v: string, gap: string, name: string, post: string)
    requires v == ")" + (gap + (name + post)) && AllSpaces(gap) && IsWord(name) && (post == "" || IsSpace(post[0]))
    ensures ReadName(drive, v) == Entry(drive, name)
  {
    assert v[0] == ')' && v[1..] == gap + (name + post) && (name + post)[0] == name[0];
    SkipIs(gap, name + post);
    WordIs(name, post);
  }

  /** The part of a line from the closing parenthesis on. */
  ghost predicate Tail(v: string, gap: string, name: string, post: string) {
    && v == ")" + (gap + (name + post))
    && AllSpaces(gap) && IsWord(name) && (post == "" || IsSpace(post[0]))
  }

  lemma {:induction false} NameHasForm(drive: nat, v: string) returns (gap: string, post: string)
    requires ReadName(drive, v).Entry?
    ensures Tail(v, gap, ReadName(drive, v).name, post)
  {
    var s := v[1..];
    var w := SkipSpaces(s);
    gap := TakenApart(s);
    WordSplits(w);
    post := w[|Word(w)|..];
    TailIs(v, gap, Word(w), post, s, w);
  }

  lemma {:induction false} TailIs(v: string, gap: string, name: string, post: string, s: string, w: string)
    requires v != "" && v[0] == ')' && v[1..] == s && s == gap + w && w == name + post
    requires AllSpaces(gap) && IsWord(name) && (post == "" || IsSpace(post[0]))
    ensures Tail(v, gap, name, post)
  {
    assert v == ")" + s;
  }

  lemma {:induction false} DriveHasForm(floppy: bool, s: string) returns (p: Numeral, gap: string, post: string, v: string)
    requires ReadDrive(floppy, s).Entry?
    ensures WellMade(p) && s == TextOf(p) + v && Tail(v, gap, ReadDrive(floppy, s).name, post)
    ensures 0 <= NumberOf(p) <= 127 && ReadDrive(floppy, s).drive == if floppy then NumberOf(p) else NumberOf(p) + 0x80
  {
    v := Strtoul(s).1;
    p := StrtoulSplits(s, Strtoul(s).0, v);
    gap, post := NameHasForm(if floppy then NumberOf(p) else NumberOf(p) + 0x80, v);
  }

  /** A line that says something about a drive is of the right form. */
  lemma {:induction false} ReadHasForm(line: string) returns (floppy: bool, pre: string, p: Numeral, gap: string, post: string)
    requires ReadLine(line).Entry?
    ensures WellMade(p) && Form(line, floppy, pre, TextOf(p), gap, ReadLine(line).name, post)
    ensures 0 <= NumberOf(p) <= 127 && ReadLine(line).drive == if floppy then NumberOf(p) else NumberOf(p) + 0x80
  {
    var t, v := SkipSpaces(line), "";
    pre := TakenApart(line);
    floppy := t[1] == 'f';
    p, gap, post, v := DriveHasForm(floppy, t[3..]);
    Assembled(line, floppy, pre, t, TextOf(p), v, gap, ReadLine(line).name, post);
  }

  lemma {:induction false} Assembled(line: string, floppy: bool, pre: string, t: string, num: string, v: string, gap: string, name: string, post: string)
    requires line == pre + t && AllSpaces(pre) && |t| >= 3
    requires t[0] == '(' && t[1] == (if floppy then 'f' else 'h') && t[2] == 'd'
    requires t[3..] == num + v && Tail(v, gap, name, post)
    ensures Form(line, floppy, pre, num, gap, name, post)
  {
    assert t == t[..3] + t[3..] && t[..3] == (if floppy then "(fd" else "(hd");
  }

  /** The lines with an entry are exactly those of the right form, with a number
      up to 127. */
  lemma {:induction false} EntryIff(line: string, drive: nat, name: string)
    ensures ReadLine(line) == Entry(drive, name) <==>
      exists floppy, pre, p, gap, post ::
        && WellMade(p) && Form(line, floppy, pre, TextOf(p), gap, name, post) && 0 <= NumberOf(p) <= 127
        && drive == if floppy then NumberOf(p) else NumberOf(p) + 0x80
  {
    if ReadLine(line) == Entry(drive, name) {
      var floppy, pre, p, gap, post := ReadHasForm(line);
    }
    forall floppy, pre, p, gap, post |
      && WellMade(p) && Form(line, floppy, pre, TextOf(p), gap, name, post) && 0 <= NumberOf(p) <= 127
      && drive == if floppy then NumberOf(p) else NumberOf(p) + 0x80
      ensures ReadLine(line) == Entry(drive, name)
    {
      FormIsRead(line, floppy, pre, p, gap, name, post);
    }
  }

  // ------------------------------------------------------------ lines without an entry

  /** A line that starts with a drive, numbered by p; rest ends the number. */
  ghost predicate StartsWith(line: string, floppy: bool, pre: string, p: Numeral, rest: string) {
    && WellMade(p) && Ends(p, rest) && AllSpaces(pre)
    && line == pre + ((if floppy then "(fd" else "(hd") + (TextOf(p) + rest))
  }

  /** A line that names a drive the BIOS cannot have. */
  ghost predicate TooLarge(line: string) {
    exists floppy, pre, p, rest :: StartsWith(line, floppy, pre, p, rest) && NumberOf(p) > 127
  }

  lemma {:induction false} StartIsRead(line: string, floppy: bool, pre: string, p: Numeral, rest: string)
    requires StartsWith(line, floppy, pre, p, rest)
    ensures ReadLine(line) == ReadDrive(floppy, TextOf(p) + rest) && Strtoul(TextOf(p) + rest) == (NumberOf(p), rest)
  {
    var head := if floppy then "(fd" else "(hd";
    var t := head + (TextOf(p) + rest);
    SkipIs(pre, t);
    assert line[0] == if pre == "" then '(' else pre[0];
    SameLine(line, t);
    LineFrom(t, head, TextOf(p) + rest);
    StrtoulReads(p, rest);
  }

  lemma {:induction false} IgnoredHasForm(line: string)
    requires ReadLine(line).Ignored? && line != "" && line[0] != '#' && SkipSpaces(line) != ""
    ensures TooLarge(line)
  {
    var t := SkipSpaces(line);
    var pre := TakenApart(line);
    var floppy := t[1] == 'f';
    var (n, v) := Strtoul(t[3..]);
    var p := StrtoulSplits(t[3..], n, v);
    assert t == t[..3] + t[3..] && t[..3] == (if floppy then "(fd" else "(hd");
    assert StartsWith(line, floppy, pre, p, v) && NumberOf(p) > 127;
  }

  /** The lines that are passed over: comments, lines of spaces, and those with a
      drive the BIOS cannot have, whatever follows it. */
  lemma {:induction false} IgnoredIff(line: string)
    ensures ReadLine(line).Ignored? <==> (line != "" && line[0] == '#') || AllSpaces(line) || TooLarge(line)
  {
    if ReadLine(line).Ignored? && line != "" && line[0] != '#' {
      SkipSplits(line);
      if SkipSpaces(line) == "" { assert line[..|line|] == line; } else { IgnoredHasForm(line); }
    }
    if AllSpaces(line) {
      SkipIs(line, "");
      assert line + "" == line;
    }
    if TooLarge(line) {
      var floppy, pre, p, rest :| StartsWith(line, floppy, pre, p, rest) && NumberOf(p) > 127;
      StartIsRead(line, floppy, pre, p, rest);
    }
  }
}
