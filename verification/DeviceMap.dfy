/** The device map (lib/device.c): probing writes it, the next start reads it back. GNU/Linux without devfs; whether
    a device can be read is an arbitrary function of its name. */
module DeviceMap {
  import opened Seqs
  import opened Decimal

  const NUM_DISKS: nat := 256
  const BUF_SIZE: nat := 1024
  const ULONG_MAX: nat := 0xFFFF_FFFF

  // ---------------------------------------------------------------- the C library

  predicate IsSpace(c: char) {
    c == ' ' || '\t' <= c <= '\r'
  }

  /** The first address at or after `p` that holds no space. */
  function SpaceEnd(s: string, p: nat): (q: nat)
    ensures p <= q && !IsSpace(At(s, q))
    decreases |s| - p
  {
    if p < |s| && IsSpace(s[p]) then SpaceEnd(s, p + 1) else p
  }

  /** The first address at or after `p` that holds a space or NUL. */
  function WordEnd(s: string, p: nat): (q: nat)
    ensures p <= q && (p <= |s| ==> q <= |s|)
    decreases |s| - p
  {
    if At(s, p) != '\0' && !IsSpace(At(s, p)) then WordEnd(s, p + 1) else p
  }

  /** strtoul in base ten, with a 32-bit unsigned long: the number and where it ends. */
  function Strtoul(s: string, p: nat): (nat, nat) {
    var start := SpaceEnd(s, p);
    var negative := At(s, start) == '-';
    var digits := if negative || At(s, start) == '+' then start + 1 else start;
    var end := DigitEnd(s, digits);
    if end == digits then (0, p)
    else
      var v := Value(s[digits..end]);
      if v > ULONG_MAX then (ULONG_MAX, end)
      else if negative then ((ULONG_MAX + 1 - v) % (ULONG_MAX + 1), end)
      else (v, end)
  }

  /** How much of `text` one fgets takes: up to a newline, or as much as there is room for. */
  function FgetsEnd(text: string, room: nat): (n: nat)
    ensures n <= |text| && (text != "" && room > 0 ==> n > 0)
  {
    if text == "" || room == 0 then 0
    else if text[0] == '\n' then 1
    else 1 + FgetsEnd(text[1..], room - 1)
  }

  /** The lines fgets takes a text apart into. */
  function Lines(text: string): seq<string> {
    if text == "" then []
    else
      var n := FgetsEnd(text, BUF_SIZE - 1);
      [text[..n]] + Lines(text[n..])
  }

  lemma {:induction false} FgetsLine(line: string, rest: string, room: nat)
    requires |line| <= room && line != "" && line[|line| - 1] == '\n'
    requires forall i :: 0 <= i < |line| - 1 ==> line[i] != '\n'
    ensures FgetsEnd(line + rest, room) == |line|
  {
    if |line| > 1 {
      assert (line + rest)[1..] == line[1..] + rest;
      FgetsLine(line[1..], rest, room - 1);
    }
  }

  // ---------------------------------------------------------------- reading

  /** What a line of the map says. */
  datatype Entry = Ignored | Maps(drive: nat, name: string) | Malformed

  function Classify(line: string): (e: Entry)
    ensures e.Maps? ==> e.drive < NUM_DISKS
  {
    var p := SpaceEnd(line, 0);
    var c := At(line, p + 1);
    var (value, q) := Strtoul(line, p + 3);
    var drive := Wrap32(value);
    var start := SpaceEnd(line, q + 1);
    if At(line, 0) == '#' || At(line, p) == '\0' then Ignored
    else if At(line, p) != '(' || (c != 'f' && c != 'h') || At(line, p + 2) != 'd' || drive < 0 then Malformed
    else if drive > 127 then Ignored
    else if At(line, q) != ')' || At(line, start) == '\0' then Malformed
    else
      assert start < |line|;
      Maps(if c == 'f' then drive else drive + 0x80, line[start..WordEnd(line, start)])
  }

  method SkipSpaces(s: string, p: nat) returns (q: nat)
    ensures q == SpaceEnd(s, p)
  {
    q := p;
    while At(s, q) != '\0' && IsSpace(At(s, q))
      invariant p <= q && SpaceEnd(s, q) == SpaceEnd(s, p)
      decreases |s| - q
    {
      q := q + 1;
    }
  }

  method SkipWord(s: string, p: nat) returns (q: nat)
    requires p <= |s|
    ensures q == WordEnd(s, p)
  {
    q := p;
    while At(s, q) != '\0' && !IsSpace(At(s, q))
      invariant p <= q <= |s| && WordEnd(s, q) == WordEnd(s, p)
      decreases |s| - q
    {
      q := q + 1;
    }
  }

  /** The body of the line loop, up to the check for duplicates. */
  method ParseLine(buf: string) returns (e: Entry)
    ensures e == Classify(buf)
  {
    hide Strtoul;
    hide SpaceEnd;
    hide WordEnd;
    if At(buf, 0) == '#' {
      return Ignored;
    }
    var ptr := SkipSpaces(buf, 0);
    if At(buf, ptr) == '\0' {
      return Ignored;
    }
    if At(buf, ptr) != '(' {
      return Malformed;
    }
    ptr := ptr + 1;
    if (At(buf, ptr) != 'f' && At(buf, ptr) != 'h') || At(buf, ptr + 1) != 'd' {
      return Malformed;
    }
    var isFloppy := At(buf, ptr) == 'f';
    var (value, end) := Strtoul(buf, ptr + 2);
    var drive := Wrap32(value);
    if drive < 0 {
      return Malformed;
    } else if drive > 127 {
      return Ignored;
    }
    if !isFloppy {
      drive := drive + 0x80;
    }
    if At(buf, end) != ')' {
      return Malformed;
    }
    ptr := SkipSpaces(buf, end + 1);
    if At(buf, ptr) == '\0' {
      return Malformed;
    }
    var eptr := SkipWord(buf, ptr);
    e := Maps(drive, buf[ptr..eptr]);
  }

  function Entries(lines: seq<string>): (es: seq<Entry>)
    ensures |es| == |lines|
    ensures forall i :: 0 <= i < |es| ==> es[i] == Classify(lines[i])
  {
    seq(|lines|, i requires 0 <= i < |lines| => Classify(lines[i]))
  }

  /** Entry `i` can be added to `m` and the entries before it. */
  ghost predicate Fits(es: seq<Entry>, i: nat, m: seq<Option<string>>)
    requires i < |es| && |m| == NUM_DISKS
  {
    && !es[i].Malformed?
    && (es[i].Maps? ==>
          && es[i].drive < NUM_DISKS && m[es[i].drive].None?
          && forall j :: 0 <= j < i && es[j].Maps? ==> es[j].drive != es[i].drive)
  }

  /** Every entry is well formed and no drive has two. */
  ghost predicate Acceptable(es: seq<Entry>, m: seq<Option<string>>)
    requires |m| == NUM_DISKS
  {
    forall i :: 0 <= i < |es| ==> Fits(es, i, m)
  }

  /** The map `now` is `m` with the drives of `es` added, and nothing else. */
  ghost predicate Merged(es: seq<Entry>, m: seq<Option<string>>, now: seq<Option<string>>)
    requires |m| == |now| == NUM_DISKS
  {
    && (forall i :: 0 <= i < |es| && es[i].Maps? && es[i].drive < NUM_DISKS ==> now[es[i].drive] == Some(es[i].name))
    && forall d :: 0 <= d < NUM_DISKS && now[d] != m[d] ==> exists i :: 0 <= i < |es| && es[i].Maps? && es[i].drive == d
  }

  /** read_device_map: fails exactly when a line is malformed or names a drive that is taken, with the lines before
      that one added; otherwise the map has exactly the drives of the file. */
  method ReadDeviceMap(text: string, drives: array<Option<string>>) returns (ok: bool, ghost n: nat)
    requires drives.Length == NUM_DISKS
    modifies drives
    ensures var es := Entries(Lines(text)); var m := old(drives[..]);
      && n <= |es| && Acceptable(es[..n], m) && Merged(es[..n], m, drives[..])
      && (ok <==> Acceptable(es, m)) && (ok ==> n == |es|)
      && (!ok ==> n < |es| && !Fits(es, n, m))
  {
    ghost var lines, m := Lines(text), drives[..];
    ghost var es := Entries(lines);
    var fp := text;
    n := 0;
    while fp != ""
      invariant n <= |es| && Lines(fp) == lines[n..]
      invariant Acceptable(es[..n], m) && Merged(es[..n], m, drives[..])
      decreases |fp|
    {
      var end := FgetsEnd(fp, BUF_SIZE - 1);
      var buf := fp[..end];
      fp := fp[end..];
      assert lines[n] == buf && Lines(fp) == lines[n..][1..];
      var e := ParseLine(buf);
      assert e == es[n];
      var free := AddEntry(e, drives, es, n, m);
      if !free {
        assert !Fits(es, n, m);
        return false, n;
      }
      n := n + 1;
    }
    assert es[..n] == es;
    ok := true;
  }

  /** The end of the line loop: a drive that is taken is an error. */
  method AddEntry(e: Entry, drives: array<Option<string>>, ghost es: seq<Entry>, ghost n: nat,
                  ghost m: seq<Option<string>>)
    returns (ok: bool)
    requires drives.Length == NUM_DISKS == |m| && n < |es| && es[n] == e && (e.Maps? ==> e.drive < NUM_DISKS)
    requires Acceptable(es[..n], m) && Merged(es[..n], m, drives[..])
    modifies drives
    ensures ok <==> Fits(es, n, m)
    ensures ok ==> Acceptable(es[..n + 1], m) && Merged(es[..n + 1], m, drives[..])
    ensures !ok ==> drives[..] == old(drives[..])
  {
    if e.Malformed? {
      return false;
    }
    if e.Maps? {
      if drives[e.drive].Some? {
        return false;
      }
      drives[e.drive] := Some(e.name);
    }
    AcceptableSnoc(es, n, m);
    ok := true;
  }

  lemma AcceptableSnoc(es: seq<Entry>, n: nat, m: seq<Option<string>>)
    requires |m| == NUM_DISKS && n < |es| && Acceptable(es[..n], m)
    ensures Acceptable(es[..n + 1], m) <==> Fits(es, n, m)
  {
    var before, after := es[..n], es[..n + 1];
    forall i | 0 <= i < n
      ensures Fits(after, i, m)
    {
      assert Fits(before, i, m);
    }
    assert Fits(after, n, m) <==> Fits(es, n, m);
  }

  // ---------------------------------------------------------------- writing

  /** A name that sprintf can have left in the buffer of a probing loop. */
  ghost predicate Printable(name: string) {
    && 0 < |name| < 24
    && forall i :: 0 <= i < |name| ==> name[i] != '\0' && !IsSpace(name[i])
  }

  /** The line for a drive. */
  function EntryLine(e: Entry): string
    requires e.Maps?
  {
    if e.drive < 0x80 then "(fd" + Render(e.drive) + ")\t" + e.name + "\n"
    else "(hd" + Render(e.drive - 0x80) + ")\t" + e.name + "\n"
  }

  ghost predicate Writable(e: Entry) {
    e.Maps? && e.drive < NUM_DISKS && Printable(e.name)
  }

  ghost predicate AllWritable(es: seq<Entry>) {
    forall i :: 0 <= i < |es| ==> es[i].Maps? && Writable(es[i])
  }

  function Printed(es: seq<Entry>): string
    requires forall i :: 0 <= i < |es| ==> es[i].Maps?
  {
    if es == [] then "" else Printed(es[..|es| - 1]) + EntryLine(es[|es| - 1])
  }

  lemma ShortNumber(n: nat)
    requires n < 1000
    ensures |Render(n)| <= 3
  {
    assert Pow10(3) == 10 * Pow10(2) == 1000;
    RenderIsShort(n, Pow10(3), 3);
  }

  lemma StrtoulUndoesRender(s: string, p: nat, n: nat)
    requires n <= INT_MAX && NumeralAt(s, p, n)
    ensures Strtoul(s, p) == (n, p + |Render(n)|)
  {
    RenderDigits(n);
    assert s[p] == Render(n)[0];
    DigitEndOfRun(s, p, p + |Render(n)|);
  }

  /** A run of characters that are no spaces, followed by one. */
  lemma {:induction false} WordEndAt(s: string, p: nat, q: nat)
    requires p <= q < |s| && IsSpace(s[q])
    requires forall i :: p <= i < q ==> s[i] != '\0' && !IsSpace(s[i])
    ensures WordEnd(s, p) == q
    decreases q - p
  {
    if p < q {
      WordEndAt(s, p + 1, q);
    }
  }

  /** A written line is read as the entry it was written for. */
  lemma ClassifyUndoesPrint(e: Entry)
    requires Writable(e)
    ensures Classify(EntryLine(e)) == e
  {
    hide Render;
    hide Classify;
    var n := if e.drive < 0x80 then e.drive else e.drive - 0x80;
    var c := if e.drive < 0x80 then 'f' else 'h';
    var line := EntryLine(e);
    assert line == ['(', c, 'd'] + Render(n) + ")\t" + e.name + "\n";
    LineParts(line, c, n, e.name);
    ClassifyParts(line, c, n, e.name);
  }

  lemma ClassifyParts(line: string, c: char, n: nat, name: string)
    requires Shaped(line, c, n, name) && (c == 'f' || c == 'h')
    ensures Classify(line) == Maps(if c == 'f' then n else n + 0x80, name)
  {
    hide Render;
    hide Strtoul;
    hide WordEnd;
    hide NumeralAt;
    var k := |Render(n)|;
    StrtoulUndoesRender(line, 3, n);
    assert SpaceEnd(line, 0) == 0;
    assert SpaceEnd(line, 4 + k) == SpaceEnd(line, 5 + k) == 5 + k;
    WordEndAt(line, 5 + k, 5 + k + |name|);
  }

  /** What stands where in a written line. */
  ghost predicate Shaped(line: string, c: char, n: nat, name: string) {
    var k := |Render(n)|;
    && n < 128 && name != ""
    && |line| == 6 + k + |name| && line[0] == '(' && line[1] == c && line[2] == 'd'
    && NumeralAt(line, 3, n) && line[3 + k] == ')' && line[4 + k] == '\t'
    && line[5 + k..5 + k + |name|] == name && line[5 + k + |name|] == '\n'
    && forall i :: 5 + k <= i < 5 + k + |name| ==> line[i] != '\0' && !IsSpace(line[i])
  }

  lemma LineParts(line: string, c: char, n: nat, name: string)
    requires line == ['(', c, 'd'] + Render(n) + ")\t" + name + "\n" && Printable(name) && n < 128
    ensures Shaped(line, c, n, name)
  {
    hide Render;
    var k := |Render(n)|;
    assert line[3..3 + k] == Render(n);
    assert line[5 + k..5 + k + |name|] == name;
    forall i | 5 + k <= i < 5 + k + |name|
      ensures line[i] == name[i - 5 - k]
    {
    }
  }

  ghost function PrintedLines(es: seq<Entry>): (r: seq<string>)
    requires AllWritable(es)
    ensures |r| == |es|
  {
    seq(|es|, i requires 0 <= i < |es| => EntryLine(es[i]))
  }

  /** fgets takes a written line off the front of the file. */
  lemma LineTaken(e: Entry, rest: string)
    requires Writable(e)
    ensures Lines(EntryLine(e) + rest) == [EntryLine(e)] + Lines(rest)
  {
    hide Render;
    hide NumeralAt;
    var n := if e.drive < 0x80 then e.drive else e.drive - 0x80;
    var c := if e.drive < 0x80 then 'f' else 'h';
    var line, k := EntryLine(e), |Render(n)|;
    assert line == ['(', c, 'd'] + Render(n) + ")\t" + e.name + "\n";
    LineParts(line, c, n, e.name);
    ShortNumber(n);
    RenderDigits(n);
    forall i | 0 <= i < |line| - 1
      ensures line[i] != '\n'
    {
      if 3 <= i < 3 + k {
        assert line[i] == Render(n)[i - 3];
      }
    }
    FgetsLine(line, rest, BUF_SIZE - 1);
    TakenApart(line, rest);
  }

  lemma TakenApart(line: string, rest: string)
    requires line != "" && FgetsEnd(line + rest, BUF_SIZE - 1) == |line|
    ensures Lines(line + rest) == [line] + Lines(rest)
  {
    assert (line + rest)[..|line|] == line && (line + rest)[|line|..] == rest;
  }

  lemma {:induction false} LinesOfPrinted(es: seq<Entry>, rest: string)
    requires AllWritable(es)
    ensures Lines(Printed(es) + rest) == PrintedLines(es) + Lines(rest)
    decreases |es|
  {
    hide Lines;
    hide EntryLine;
    hide Writable;
    if es == [] {
      assert Printed(es) + rest == rest;
    } else {
      var front, last := es[..|es| - 1], es[|es| - 1];
      assert Printed(es) == Printed(front) + EntryLine(last);
      Assoc(Printed(front), EntryLine(last), rest);
      LinesOfPrinted(front, EntryLine(last) + rest);
      LineTaken(last, rest);
      Assoc(PrintedLines(front), [EntryLine(last)], Lines(rest));
      assert PrintedLines(es) == PrintedLines(front) + [EntryLine(last)];
    }
  }

  /** Any list of drives with names free of spaces is read back from its printed form. */
  lemma ReadBack(es: seq<Entry>)
    requires AllWritable(es)
    ensures Entries(Lines(Printed(es))) == es
  {
    LinesOfPrinted(es, "");
    assert Printed(es) + "" == Printed(es);
    hide Classify;
    hide Printed;
    hide EntryLine;
    forall i | 0 <= i < |es|
      ensures Classify(PrintedLines(es)[i]) == es[i]
    {
      ClassifyUndoesPrint(es[i]);
    }
  }

  // ---------------------------------------------------------------- probing

  function FloppyName(unit: nat): string {
    "/dev/fd" + Render(unit)
  }

  function IdeName(unit: nat): string
    requires unit < 8
  {
    "/dev/hd" + [('a' as int + unit) as char]
  }

  function AtaraidName(unit: nat): string
    requires unit < 8
  {
    "/dev/ataraid/d" + [('0' as int + unit) as char]
  }

  function ScsiName(unit: nat): string
    requires unit < 16
  {
    "/dev/sd" + [('a' as int + unit) as char]
  }

  function Dac960Name(controller: nat, drive: nat): string {
    "/dev/rd/c" + Render(controller) + "d" + Render(drive)
  }

  /** The hard disks that can be read, in the order tried. */
  function Present(check: string -> bool, names: seq<string>): (r: seq<string>)
    ensures |r| <= |names|
  {
    if names == [] then []
    else
      var last := names[|names| - 1];
      Present(check, names[..|names| - 1]) + if check(last) then [last] else []
  }

  lemma PresentSnoc(check: string -> bool, names: seq<string>, name: string)
    ensures Present(check, names + [name])
         == if check(name) then Present(check, names) + [name] else Present(check, names)
  {
    assert (names + [name])[..|names|] == names;
  }

  /** The names tried, in order. */
  ghost function HardDisks(): (r: seq<string>)
    ensures |r| == 152
  {
    seq(8, i requires 0 <= i < 8 => IdeName(i)) + seq(8, i requires 0 <= i < 8 => AtaraidName(i))
    + seq(16, i requires 0 <= i < 16 => ScsiName(i)) + seq(120, i requires 0 <= i < 120 => Dac960Name(i / 15, i % 15))
  }

  /** The entries of the file: every floppy, and every hard disk present. */
  ghost function FileEntries(floppies: nat, hits: seq<string>): (es: seq<Entry>)
    ensures |es| == floppies + |hits|
  {
    seq(floppies + |hits|, i requires 0 <= i < floppies + |hits| =>
      if i < floppies then Maps(i, FloppyName(i)) else Maps(0x80 + i - floppies, hits[i - floppies]))
  }

  /** The map in memory: the floppies that can be read, and the hard disks present, numbered from zero. */
  ghost function ProbedMap(check: string -> bool, floppies: nat, hits: seq<string>): (m: seq<Option<string>>)
    ensures |m| == NUM_DISKS
  {
    seq(NUM_DISKS, d requires 0 <= d < NUM_DISKS =>
      if d < 0x80 then (if d < floppies && check(FloppyName(d)) then Some(FloppyName(d)) else None)
      else if d - 0x80 < |hits| then Some(hits[d - 0x80]) else None)
  }

  lemma HardDiskAt(i: nat)
    requires i < 152
    ensures HardDisks()[i] == if i < 8 then IdeName(i) else if i < 16 then AtaraidName(i - 8)
                              else if i < 32 then ScsiName(i - 16) else Dac960Name((i - 32) / 15, (i - 32) % 15)
  {
    hide Dac960Name;
  }

  /** The names tried, written out. */
  lemma NamesTried()
    ensures forall i :: 0 <= i < 8 ==> HardDisks()[i] == "/dev/hd" + ["abcdefgh"[i]]
    ensures forall i :: 0 <= i < 8 ==> HardDisks()[8 + i] == "/dev/ataraid/d" + ["01234567"[i]]
    ensures forall i :: 0 <= i < 16 ==> HardDisks()[16 + i] == "/dev/sd" + ["abcdefghijklmnop"[i]]
    ensures forall c: nat, d: nat :: c < 8 && d < 15 ==> HardDisks()[32 + 15 * c + d] == Dac960Text(c, d)
  {
    forall i | 0 <= i < 32
      ensures HardDisks()[i] == if i < 8 then IdeName(i) else if i < 16 then AtaraidName(i - 8) else ScsiName(i - 16)
    {
      HardDiskAt(i);
    }
    forall c: nat, d: nat | c < 8 && d < 15
      ensures HardDisks()[32 + 15 * c + d] == Dac960Text(c, d)
    {
      var i := 32 + 15 * c + d;
      HardDiskAt(i);
      assert (i - 32) / 15 == c && (i - 32) % 15 == d;
      SmallNumeral(c);
      SmallNumeral(d);
    }
    hide HardDisks;
  }

  /** Lines of the file, with small numbers written out. */
  lemma LineWritten(n: nat, name: string)
    requires n < 15
    ensures EntryLine(Maps(n, name)) == "(fd" + Numeral(n) + ")\t" + name + "\n"
    ensures EntryLine(Maps(0x80 + n, name)) == "(hd" + Numeral(n) + ")\t" + name + "\n"
  {
    SmallNumeral(n);
    hide Render;
    hide Numeral;
  }

  function Numeral(n: nat): string
    requires n < 15
  {
    ["0", "1", "2", "3", "4", "5", "6", "7", "8", "9", "10", "11", "12", "13", "14"][n]
  }

  lemma SmallNumeral(n: nat)
    requires n < 15
    ensures Render(n) == Numeral(n)
  {
    if n >= 10 {
      assert Render(n / 10) == "1";
    }
  }

  /** `/dev/rd/c<controller>d<drive>`, with the digits written out. */
  function Dac960Text(controller: nat, drive: nat): string
    requires controller < 8 && drive < 15
  {
    "/dev/rd/c" + Numeral(controller) + "d" + Numeral(drive)
  }

  lemma {:induction false} PresentPrefix(check: string -> bool, names: seq<string>, n: nat)
    requires n <= |names|
    ensures |Present(check, names[..n])| <= |Present(check, names)|
    decreases |names| - n
  {
    if n == |names| {
      assert names[..n] == names;
    } else {
      assert names[..n + 1] == names[..n] + [names[n]];
      PresentSnoc(check, names[..n], names[n]);
      PresentPrefix(check, names, n + 1);
    }
  }

  lemma DigitsPrintable(n: nat)
    ensures forall i :: 0 <= i < |Render(n)| ==> Render(n)[i] != '\0' && !IsSpace(Render(n)[i])
  {
    RenderDigits(n);
  }

  lemma FloppyPrintable(unit: nat)
    requires unit < 128
    ensures Printable(FloppyName(unit))
  {
    DigitsPrintable(unit);
    ShortNumber(unit);
  }

  lemma HardDiskPrintable(i: nat)
    requires i < 152
    ensures Printable(HardDisks()[i])
  {
    HardDiskAt(i);
    if i >= 32 {
      DigitsPrintable((i - 32) / 15);
      DigitsPrintable((i - 32) % 15);
      ShortNumber((i - 32) / 15);
      ShortNumber((i - 32) % 15);
    }
  }

  lemma {:induction false} PresentPrintable(check: string -> bool, names: seq<string>)
    requires forall i :: 0 <= i < |names| ==> Printable(names[i])
    ensures forall i :: 0 <= i < |Present(check, names)| ==> Printable(Present(check, names)[i])
  {
    hide Printable;
    if names != [] {
      PresentPrintable(check, names[..|names| - 1]);
    }
  }

  lemma PrintedSnoc(es: seq<Entry>, e: Entry)
    requires e.Maps? && forall i :: 0 <= i < |es| ==> es[i].Maps?
    ensures Printed(es + [e]) == Printed(es) + EntryLine(e)
  {
    assert (es + [e])[..|es|] == es;
  }

  /** Another floppy is tried. */
  lemma FloppyAdded(check: string -> bool, i: nat)
    requires i < 128
    ensures Printed(FileEntries(i + 1, [])) == Printed(FileEntries(i, [])) + EntryLine(Maps(i, FloppyName(i)))
    ensures ProbedMap(check, i + 1, [])
         == if check(FloppyName(i)) then ProbedMap(check, i, [])[i := Some(FloppyName(i))] else ProbedMap(check, i, [])
  {
    hide FloppyName;
    hide EntryLine;
    hide Printed;
    PrintedSnoc(FileEntries(i, []), Maps(i, FloppyName(i)));
    assert FileEntries(i + 1, []) == FileEntries(i, []) + [Maps(i, FloppyName(i))];
  }

  /** Another hard disk is found. */
  lemma DiskAdded(check: string -> bool, floppies: nat, hits: seq<string>, name: string)
    requires |hits| < 128 && floppies <= 128
    ensures Printed(FileEntries(floppies, hits + [name]))
         == Printed(FileEntries(floppies, hits)) + EntryLine(Maps(0x80 + |hits|, name))
    ensures ProbedMap(check, floppies, hits + [name]) == ProbedMap(check, floppies, hits)[0x80 + |hits| := Some(name)]
  {
    hide FloppyName;
    hide EntryLine;
    hide Printed;
    var e := Maps(0x80 + |hits|, name);
    PrintedSnoc(FileEntries(floppies, hits), e);
    assert FileEntries(floppies, hits + [name]) == FileEntries(floppies, hits) + [e];
  }

  /** init_device_map, with the map file open for writing. */
  class Prober {
    const check: string -> bool             // check_device
    const drives: array<Option<string>>
    var text: string                        // what has been written to the file
    var numHd: nat
    ghost var floppies: nat                 // how many floppies have been tried
    ghost var probed: seq<string>           // the hard disks tried

    ghost predicate Valid()
      reads this, drives
    {
      && drives.Length == NUM_DISKS && floppies <= 128 && numHd == |Present(check, probed)| <= 128
      && text == Printed(FileEntries(floppies, Present(check, probed)))
      && drives[..] == ProbedMap(check, floppies, Present(check, probed))
    }

    constructor (check: string -> bool)
      ensures Valid() && this.check == check && floppies == 0 && probed == [] && fresh(drives)
    {
      this.check := check;
      drives := new Option<string>[NUM_DISKS](_ => None);
      text, numHd, floppies, probed := "", 0, 0, [];
      new;
      assert FileEntries(0, []) == [];
      assert drives[..] == ProbedMap(check, 0, []);
    }

    /** The floppy loop: every floppy is written, whether it can be read or not. */
    method ProbeFloppies(floppyDisks: int)
      requires Valid() && floppies == 0 && probed == [] && floppyDisks <= 128
      modifies this, drives
      ensures Valid() && probed == [] && floppies == if floppyDisks < 0 then 0 else floppyDisks
    {
      var i := 0;
      while i < floppyDisks
        invariant Valid() && probed == [] && floppies == i && (i <= floppyDisks || i == 0)
      {
        AddFloppy(i);
        i := i + 1;
      }
    }

    method AddFloppy(i: nat)
      requires Valid() && probed == [] && floppies == i < 128
      modifies `text, `floppies, drives
      ensures Valid() && floppies == i + 1
    {
      hide FileEntries;
      hide ProbedMap;
      hide Printed;
      hide EntryLine;
      hide Present;
      hide FloppyName;
      var name := FloppyName(i);
      FloppyAdded(check, i);
      text := text + EntryLine(Maps(i, name));
      if check(name) {
        drives[i] := Some(name);
      }
      floppies := i + 1;
    }

    /** The body of every hard disk loop. */
    method ProbeDisk(name: string, ghost n: nat)
      requires Valid() && n < |HardDisks()| && probed == HardDisks()[..n] && HardDisks()[n] == name
      requires |Present(check, HardDisks())| <= 128
      modifies `text, `numHd, `probed, drives
      ensures Valid() && probed == HardDisks()[..n + 1]
    {
      hide HardDisks;
      hide FileEntries;
      hide ProbedMap;
      hide Printed;
      hide EntryLine;
      hide Present;
      ghost var hits := Present(check, probed);
      PresentSnoc(check, probed, name);
      PresentPrefix(check, HardDisks(), n + 1);
      assert HardDisks()[..n + 1] == probed + [name];
      probed := probed + [name];
      if check(name) {
        DiskAdded(check, floppies, hits, name);
        drives[numHd + 0x80] := Some(name);
        text := text + EntryLine(Maps(0x80 + numHd, name));
        numHd := numHd + 1;
      }
    }

    /** The loop over IDE disks. */
    method ProbeIde()
      requires Valid() && probed == HardDisks()[..0] && |Present(check, HardDisks())| <= 128
      modifies `text, `numHd, `probed, drives
      ensures Valid() && probed == HardDisks()[..8]
    {
      hide Valid;
      hide HardDisks;
      hide Present;
      hide IdeName;
      for i := 0 to 8
        invariant Valid() && probed == HardDisks()[..0 + i]
      {
        HardDiskAt(0 + i);
        ProbeDisk(IdeName(i), 0 + i);
      }
    }

    /** The loop over ATARAID disks. */
    method ProbeAtaraid()
      requires Valid() && probed == HardDisks()[..8] && |Present(check, HardDisks())| <= 128
      modifies `text, `numHd, `probed, drives
      ensures Valid() && probed == HardDisks()[..16]
    {
      hide Valid;
      hide HardDisks;
      hide Present;
      hide AtaraidName;
      for i := 0 to 8
        invariant Valid() && probed == HardDisks()[..8 + i]
      {
        HardDiskAt(8 + i);
        ProbeDisk(AtaraidName(i), 8 + i);
      }
    }

    /** The loop over SCSI disks. */
    method ProbeScsi()
      requires Valid() && probed == HardDisks()[..16] && |Present(check, HardDisks())| <= 128
      modifies `text, `numHd, `probed, drives
      ensures Valid() && probed == HardDisks()[..32]
    {
      hide Valid;
      hide HardDisks;
      hide Present;
      hide ScsiName;
      for i := 0 to 16
        invariant Valid() && probed == HardDisks()[..16 + i]
      {
        HardDiskAt(16 + i);
        ProbeDisk(ScsiName(i), 16 + i);
      }
    }

    /** The loop over the logical drives of one DAC960 controller. */
    method ProbeController(controller: nat)
      requires controller < 8
      requires Valid() && probed == HardDisks()[..32 + 15 * controller] && |Present(check, HardDisks())| <= 128
      modifies `text, `numHd, `probed, drives
      ensures Valid() && probed == HardDisks()[..32 + 15 * (controller + 1)]
    {
      hide Valid;
      hide HardDisks;
      hide Present;
      hide Dac960Name;
      for drive := 0 to 15
        invariant Valid() && probed == HardDisks()[..32 + 15 * controller + drive]
      {
        HardDiskAt(32 + 15 * controller + drive);
        ProbeDisk(Dac960Name(controller, drive), 32 + 15 * controller + drive);
      }
    }

    /** All hard disk loops, one after the other. */
    method ProbeHardDisks()
      requires Valid() && probed == [] && |Present(check, HardDisks())| <= 128
      modifies `text, `numHd, `probed, drives
      ensures Valid() && probed == HardDisks()
    {
      hide Valid;
      hide HardDisks;
      hide Present;
      ProbeIde();
      ProbeAtaraid();
      ProbeScsi();
      for controller := 0 to 8
        invariant Valid() && probed == HardDisks()[..32 + 15 * controller]
      {
        ProbeController(controller);
      }
    }
  }

  /** The map in memory and what the file gives back: the same for every drive of the map, and beyond that only the
      floppies that could not be read. */
  lemma FileAgrees(check: string -> bool, floppies: nat, now: seq<Option<string>>)
    requires floppies <= 128 && |Present(check, HardDisks())| <= 128 && |now| == NUM_DISKS
    ensures var hits := Present(check, HardDisks());
            var es := Entries(Lines(Printed(FileEntries(floppies, hits))));
            && Acceptable(es, NoDrives())
            && (Merged(es, NoDrives(), now) ==>
                  forall d :: 0 <= d < NUM_DISKS ==>
                    now[d] == if d < floppies then Some(FloppyName(d)) else ProbedMap(check, floppies, hits)[d])
  {
    hide *;
    var hits := Present(check, HardDisks());
    FileWritable(check, floppies);
    ReadBack(FileEntries(floppies, hits));
    NoDuplicates(floppies, hits);
    if Merged(FileEntries(floppies, hits), NoDrives(), now) {
      forall d | 0 <= d < NUM_DISKS
        ensures now[d] == if d < floppies then Some(FloppyName(d)) else ProbedMap(check, floppies, hits)[d]
      {
        MergedDrive(check, floppies, hits, now, d);
      }
    }
  }

  lemma NoDuplicates(floppies: nat, hits: seq<string>)
    requires floppies <= 128 && |hits| <= 128
    ensures Acceptable(FileEntries(floppies, hits), NoDrives())
  {
    hide FloppyName;
  }

  lemma MergedDrive(check: string -> bool, floppies: nat, hits: seq<string>, now: seq<Option<string>>, d: nat)
    requires floppies <= 128 && |hits| <= 128 && |now| == NUM_DISKS && d < NUM_DISKS
    requires Merged(FileEntries(floppies, hits), NoDrives(), now)
    ensures now[d] == if d < floppies then Some(FloppyName(d)) else ProbedMap(check, floppies, hits)[d]
  {
    hide FloppyName;
    var es := FileEntries(floppies, hits);
    var i := if d < 0x80 then d else floppies + d - 0x80;
    if d < floppies || (0x80 <= d && i < |es|) {
      assert es[i].drive == d;
    }
  }

  ghost function NoDrives(): (m: seq<Option<string>>)
    ensures |m| == NUM_DISKS
  {
    seq(NUM_DISKS, _ => None)
  }

  lemma FileWritable(check: string -> bool, floppies: nat)
    requires floppies <= 128 && |Present(check, HardDisks())| <= 128
    ensures AllWritable(FileEntries(floppies, Present(check, HardDisks())))
  {
    hide Present;
    hide HardDisks;
    hide FloppyName;
    hide Printable;
    forall i | 0 <= i < 152
      ensures Printable(HardDisks()[i])
    {
      HardDiskPrintable(i);
    }
    PresentPrintable(check, HardDisks());
    forall i | 0 <= i < floppies
      ensures Printable(FloppyName(i))
    {
      FloppyPrintable(i);
    }
  }

  /** init_device_map without a map file to read, and then with the one just written: reading succeeds, and agrees
      with the probed map but for floppies that could not be read. */
  method ProbeThenRead(check: string -> bool, floppyDisks: int)
    returns (probed: array<Option<string>>, reread: array<Option<string>>, ok: bool)
    requires floppyDisks <= 128 && |Present(check, HardDisks())| <= 128
    ensures ok && probed.Length == reread.Length == NUM_DISKS
    ensures var hits := Present(check, HardDisks());
            forall k :: 0 <= k < 128 ==> probed[0x80 + k] == if k < |hits| then Some(hits[k]) else None
    ensures forall d :: 0 <= d < NUM_DISKS && probed[d].Some? ==> reread[d] == probed[d]
    ensures forall d :: 0 <= d < NUM_DISKS && probed[d].None? && reread[d].Some? ==>
              d < floppyDisks && reread[d].value == FloppyName(d) && !check(FloppyName(d))
  {
    hide Present;
    hide HardDisks;
    hide FloppyName;
    hide Printed;
    var p := new Prober(check);
    p.ProbeFloppies(floppyDisks);
    p.ProbeHardDisks();
    probed := p.drives;
    reread := new Option<string>[NUM_DISKS](_ => None);
    assert reread[..] == NoDrives();
    ghost var floppies := p.floppies;
    ghost var n;
    ok, n := ReadDeviceMap(p.text, reread);
    FileAgrees(check, floppies, reread[..]);
    ghost var es := Entries(Lines(p.text));
    assert es[..|es|] == es;
  }
}
