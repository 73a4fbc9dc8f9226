/** Finding a command (stage2/cmdline.c, skip_to and find_command): the name at the start of a line is looked up by
    walking the table of builtins, which is given up as soon as the name precedes the entry looked at. */
module Commands {
  import opened Seqs

  datatype Builtin = Builtin(name: string, cmdline: bool)

  // ---------------------------------------------------------------- strings

  /** The C string starting at `p`. */
  function TextFrom(mem: seq<char>, p: nat): (t: string)
    requires p <= |mem|
    ensures '\0' !in t && |t| <= |mem| - p
    ensures mem[p..p + |t|] == t
    ensures p + |t| < |mem| ==> mem[p + |t|] == '\0'
    decreases |mem| - p
  {
    if p == |mem| || mem[p] == '\0' then ""
    else
      var rest := TextFrom(mem, p + 1);
      assert mem[p..p + 1 + |rest|] == [mem[p]] + mem[p + 1..p + 1 + |rest|];
      [mem[p]] + rest
  }

  function Text(mem: seq<char>): string {
    TextFrom(mem, 0)
  }

  /** A memory area beginning with `t` and a NUL holds the C string `t`. */
  lemma {:induction false} TextIs(mem: seq<char>, p: nat, t: string)
    requires '\0' !in t && p + |t| < |mem| && mem[p..p + |t|] == t && mem[p + |t|] == '\0'
    ensures TextFrom(mem, p) == t
    decreases |t|
  {
    if t != "" {
      assert mem[p] == mem[p..p + |t|][0] == t[0];
      assert mem[p + 1..p + |t|] == t[1..] by {
        SliceOfSlice(mem, p, p + |t|, 1, |t|);
      }
      TextIs(mem, p + 1, t[1..]);
    }
  }

  predicate IsBlank(c: char, afterEqual: bool) {
    c == ' ' || c == '\t' || (afterEqual && c == '=')
  }

  /** The leading characters that are not blank. */
  function Word(s: string, afterEqual: bool): (w: string)
    ensures |w| <= |s|
  {
    if s == "" || IsBlank(s[0], afterEqual) then "" else [s[0]] + Word(s[1..], afterEqual)
  }

  function DropBlanks(s: string, afterEqual: bool): string {
    if s != "" && IsBlank(s[0], afterEqual) then DropBlanks(s[1..], afterEqual) else s
  }

  /** The word is the longest prefix without blanks. */
  lemma {:induction false} WordIsLongest(s: string, afterEqual: bool)
    ensures var w := Word(s, afterEqual);
            && w == s[..|w|] && (|w| < |s| ==> IsBlank(s[|w|], afterEqual))
            && forall i :: 0 <= i < |w| ==> !IsBlank(s[i], afterEqual)
  {
    if s != "" && !IsBlank(s[0], afterEqual) {
      WordIsLongest(s[1..], afterEqual);
      var w := Word(s[1..], afterEqual);
      assert s[..1 + |w|] == [s[0]] + s[1..][..|w|];
      assert forall i :: 1 <= i < |s| ==> s[i] == s[1..][i - 1];
    }
  }

  /** What is left after dropping blanks is the longest suffix that does not begin with one. */
  lemma {:induction false} DropBlanksIsSuffix(s: string, afterEqual: bool)
    ensures var r := DropBlanks(s, afterEqual);
            && |r| <= |s| && r == s[|s| - |r|..] && (r != "" ==> !IsBlank(r[0], afterEqual))
            && forall i :: 0 <= i < |s| - |r| ==> IsBlank(s[i], afterEqual)
  {
    if s != "" && IsBlank(s[0], afterEqual) {
      DropBlanksIsSuffix(s[1..], afterEqual);
      assert forall i :: 1 <= i < |s| ==> s[i] == s[1..][i - 1];
    }
  }

  lemma WordStep(s: string, p: nat, afterEqual: bool)
    requires p < |s| && !IsBlank(s[p], afterEqual)
    ensures |Word(s[p..], afterEqual)| == 1 + |Word(s[p + 1..], afterEqual)|
  {
    assert s[p..][1..] == s[p + 1..];
  }

  lemma BlankStep(s: string, p: nat, afterEqual: bool)
    requires p < |s| && IsBlank(s[p], afterEqual)
    ensures DropBlanks(s[p..], afterEqual) == DropBlanks(s[p + 1..], afterEqual)
  {
    assert s[p..][1..] == s[p + 1..];
  }

  /** skip_to: the text from the second word on. */
  method SkipTo(afterEqual: bool, s: string) returns (r: string)
    ensures r == DropBlanks(s[|Word(s, afterEqual)|..], afterEqual)
  {
    hide Word;
    hide DropBlanks;
    var p := 0;
    assert s[0..] == s;
    while p < |s| && !IsBlank(s[p], afterEqual)
      invariant 0 <= p <= |s| && |Word(s, afterEqual)| == p + |Word(s[p..], afterEqual)|
    {
      WordStep(s, p, afterEqual);
      p := p + 1;
    }
    WordOver(s[p..], afterEqual);
    ghost var q := p;
    while p < |s| && IsBlank(s[p], afterEqual)
      invariant q <= p <= |s| && DropBlanks(s[p..], afterEqual) == DropBlanks(s[q..], afterEqual)
    {
      BlankStep(s, p, afterEqual);
      p := p + 1;
    }
    WordOver(s[p..], afterEqual);
    r := s[p..];
  }

  lemma WordOver(s: string, afterEqual: bool)
    ensures s == "" || IsBlank(s[0], afterEqual) ==> Word(s, afterEqual) == ""
    ensures s == "" || !IsBlank(s[0], afterEqual) ==> DropBlanks(s, afterEqual) == s
  {
  }

  /** A blank of a command line: a space, a tab or, where it counts as one, an equals sign. */
  ghost predicate AllBlank(s: string, afterEqual: bool) {
    forall i :: 0 <= i < |s| ==> s[i] == ' ' || s[i] == '\t' || (afterEqual && s[i] == '=')
  }

  ghost predicate NoneBlank(s: string, afterEqual: bool) {
    forall i :: 0 <= i < |s| ==> s[i] != ' ' && s[i] != '\t' && !(afterEqual && s[i] == '=')
  }

  /** A line as it is written: a name, blanks, and the rest, if any. */
  ghost predicate Written(line: string, name: string, blanks: string, rest: string, afterEqual: bool) {
    && line == name + blanks + rest
    && NoneBlank(name, afterEqual) && AllBlank(blanks, afterEqual)
    && (rest != "" ==> blanks != "" && NoneBlank(rest[..1], afterEqual))
  }

  lemma {:induction false} WordWritten(name: string, more: string, afterEqual: bool)
    requires NoneBlank(name, afterEqual) && (more != "" ==> AllBlank(more[..1], afterEqual))
    ensures Word(name + more, afterEqual) == name
  {
    var s := name + more;
    if name == "" {
      assert s == more;
      if more != "" {
        assert more[..1][0] == more[0];
      }
    } else {
      assert s[1..] == name[1..] + more;
      WordWritten(name[1..], more, afterEqual);
    }
  }

  lemma {:induction false} BlanksWritten(blanks: string, rest: string, afterEqual: bool)
    requires AllBlank(blanks, afterEqual) && (rest != "" ==> NoneBlank(rest[..1], afterEqual))
    ensures DropBlanks(blanks + rest, afterEqual) == rest
  {
    var s := blanks + rest;
    if blanks == "" {
      assert s == rest;
      if rest != "" {
        assert rest[..1][0] == rest[0];
      }
    } else {
      assert s[1..] == blanks[1..] + rest;
      BlanksWritten(blanks[1..], rest, afterEqual);
    }
  }

  /** Of a written line, the word is the name, and skipping to the second word leaves the rest. */
  lemma SkipWritten(line: string, name: string, blanks: string, rest: string, afterEqual: bool)
    requires Written(line, name, blanks, rest, afterEqual)
    ensures Word(line, afterEqual) == name && DropBlanks(line[|name|..], afterEqual) == rest
  {
    Assoc(name, blanks, rest);
    var more := blanks + rest;
    assert line == name + more && line[|name|..] == more;
    if more != "" {
      assert more[..1] == blanks[..1];
    }
    WordWritten(name, more, afterEqual);
    BlanksWritten(blanks, rest, afterEqual);
  }

  // ---------------------------------------------------------------- the command table

  /** A plain char is signed: those from 0x80 up are negative, in the same order. */
  function Signed(c: char): int {
    if c as int < 0x80 then c as int else c as int - 0x11_0000
  }

  /** grub_strcmp: negative, zero or positive as `a` precedes, equals or follows `b`. The end of a string counts as
      zero, so that it follows a negative char. */
  function Strcmp(a: string, b: string): int
    decreases |a|
  {
    if a == "" then (if b == "" then 0 else if Signed(b[0]) < 0 then 1 else -1)
    else if b == "" then (if Signed(a[0]) < 0 then -1 else 1)
    else if a[0] != b[0] then Signed(a[0]) - Signed(b[0])
    else Strcmp(a[1..], b[1..])
  }

  lemma {:induction false} StrcmpZero(a: string, b: string)
    ensures Strcmp(a, b) == 0 <==> a == b
    decreases |a|
  {
    if a != "" && b != "" {
      HeadTail(a);
      HeadTail(b);
      StrcmpZero(a[1..], b[1..]);
    }
  }

  /** The first char that differs decides, taken as a signed byte, with zero for the end of a string. */
  function FirstByte(s: string): int {
    if s == "" then 0 else if s[0] as int < 128 then s[0] as int else s[0] as int - 0x11_0000
  }

  lemma {:induction false} StrcmpDecides(p: string, a: string, b: string)
    requires a == "" || b == "" || a[0] != b[0]
    requires '\0' !in a && '\0' !in b
    ensures Strcmp(p + a, p + b) < 0 <==> FirstByte(a) < FirstByte(b)
    ensures Strcmp(p + a, p + b) > 0 <==> FirstByte(a) > FirstByte(b)
    decreases |p|
  {
    if p == "" {
      assert p + a == a && p + b == b;
    } else {
      assert (p + a)[1..] == p[1..] + a && (p + b)[1..] == p[1..] + b;
      StrcmpDecides(p[1..], a, b);
    }
  }

  lemma {:induction false} StrcmpTransitive(a: string, b: string, c: string)
    requires Strcmp(a, b) < 0 && Strcmp(b, c) < 0
    ensures Strcmp(a, c) < 0
    decreases |a|
  {
    if a != "" && b != "" && c != "" && a[0] == b[0] == c[0] {
      StrcmpTransitive(a[1..], b[1..], c[1..]);
    }
  }

  lemma {:induction false} StrcmpFlips(a: string, b: string)
    ensures Strcmp(b, a) == -Strcmp(a, b)
    decreases |a|
  {
    if a != "" && b != "" && a[0] == b[0] {
      StrcmpFlips(a[1..], b[1..]);
    }
  }

  /** The name a command line begins with. */
  function CommandName(line: string): string {
    Word(line, true)
  }

  /** The walk finds `command` at entry `i`: nothing before it makes the walk stop. */
  ghost predicate Reaches(table: seq<Builtin>, command: string, i: nat)
    requires i < |table|
  {
    table[i].name == command && forall k :: 0 <= k < i ==> Strcmp(command, table[k].name) > 0
  }

  ghost predicate Found(table: seq<Builtin>, command: string) {
    exists i :: 0 <= i < |table| && Reaches(table, command, i)
  }

  lemma ReachesOne(table: seq<Builtin>, command: string, i: nat, j: nat)
    requires i < |table| && j < |table| && Reaches(table, command, i) && Reaches(table, command, j)
    ensures i == j
  {
    StrcmpZero(command, command);
  }

  /** The table entry the line names. */
  ghost predicate Names(table: seq<Builtin>, line: string, b: Option<Builtin>) {
    if b.None? then !Found(table, CommandName(line))
    else exists i :: 0 <= i < |table| && Reaches(table, CommandName(line), i) && table[i] == b.value
  }

  /** The line names one thing only, whatever the table. */
  lemma NamesUnique(table: seq<Builtin>, line: string, a: Option<Builtin>, b: Option<Builtin>)
    requires Names(table, line, a) && Names(table, line, b)
    ensures a == b
  {
    if a.Some? && b.Some? {
      var i :| 0 <= i < |table| && Reaches(table, CommandName(line), i) && table[i] == a.value;
      var j :| 0 <= j < |table| && Reaches(table, CommandName(line), j) && table[j] == b.value;
      ReachesOne(table, CommandName(line), i, j);
    }
  }

  /** find_command: terminates the name in place, walks the table and puts the byte back. */
  method FindCommand(table: seq<Builtin>, buf: array<char>) returns (b: Option<Builtin>)
    requires '\0' in buf[..]
    modifies buf
    ensures buf[..] == old(buf[..])
    ensures Names(table, Text(buf[..]), b)
  {
    ghost var was := buf[..];
    ghost var name := CommandName(Text(was));
    var ptr := EndOfName(buf);
    hide TextFrom;
    hide Word;
    hide Reaches;
    var c := buf[ptr];
    buf[ptr] := '\0';
    assert buf[..][0..ptr] == was[0..ptr];
    TextIs(buf[..], 0, name);
    var command := Text(buf[..]);
    var r := Walk(table, command);
    b := if r.Some? then Some(table[r.value]) else None;
    buf[ptr] := c;
    assert buf[..] == was;
  }

  /** Where the name ends: at the first blank, equals sign or NUL. */
  method EndOfName(buf: array<char>) returns (ptr: nat)
    requires '\0' in buf[..]
    ensures var name := CommandName(Text(buf[..]));
            ptr == |name| < buf.Length && buf[0..ptr] == name && '\0' !in name
  {
    ghost var line, was := Text(buf[..]), buf[..];
    ghost var name := CommandName(line);
    TextEnds(was);
    WordIsLongest(line, true);
    hide TextFrom;
    hide Word;
    assert forall i :: 0 <= i < |line| ==> was[i] == line[i] by {
      assert forall i :: 0 <= i < |line| ==> was[0..|line|][i] == was[i];
    }
    ptr := 0;
    while buf[ptr] != '\0' && !IsBlank(buf[ptr], true)
      invariant ptr <= |name|
      decreases buf.Length - ptr
    {
      assert buf[ptr] == was[ptr];
      ptr := ptr + 1;
    }
    assert buf[ptr] == was[ptr];
    assert forall c :: c in name ==> c in line;
  }

  lemma {:induction false} TextEnds(mem: seq<char>)
    requires '\0' in mem
    ensures |Text(mem)| < |mem|
  {
    assert mem[0..|mem|] == mem;
  }

  /** The search loop of find_command, for any table: the entry it finds is the one that is reached, and it finds none
      exactly when none is. */
  method Walk(table: seq<Builtin>, command: string) returns (r: Option<nat>)
    ensures r.Some? ==> r.value < |table|
    ensures forall i :: 0 <= i < |table| ==> (r == Some(i) <==> Reaches(table, command, i))
  {
    for i := 0 to |table|
      invariant forall k :: 0 <= k < i ==> Strcmp(command, table[k].name) > 0
    {
      var ret := Strcmp(command, table[i].name);
      StrcmpZero(command, table[i].name);
      StrcmpZero(command, command);
      if ret == 0 {
        return Some(i);
      } else if ret < 0 {
        break;
      }
    }
    StrcmpZero(command, command);
    return None;
  }

  // ---------------------------------------------------------------- which commands can be found

  ghost predicate Sorted(table: seq<Builtin>) {
    forall i, j :: 0 <= i < j < |table| ==> Strcmp(table[i].name, table[j].name) < 0
  }

  /** Every entry is found under its own name exactly when the table is sorted without repetitions. */
  lemma EveryEntryFoundIff(table: seq<Builtin>)
    ensures (forall i :: 0 <= i < |table| ==> Reaches(table, table[i].name, i)) <==> Sorted(table)
  {
    forall i, k | 0 <= k < i < |table|
      ensures Strcmp(table[k].name, table[i].name) == -Strcmp(table[i].name, table[k].name)
    {
      StrcmpFlips(table[i].name, table[k].name);
    }
    if forall i :: 0 <= i < |table| ==> Reaches(table, table[i].name, i) {
      forall i, j | 0 <= i < j < |table|
        ensures Strcmp(table[i].name, table[j].name) < 0
      {
        assert Reaches(table, table[j].name, j);
      }
    }
  }

  /** No earlier entry has the same name. */
  ghost predicate First(table: seq<Builtin>, i: nat)
    requires i < |table|
  {
    forall k :: 0 <= k < i ==> table[k].name != table[i].name
  }

  /** Sorted but for entries that repeat an earlier name. */
  ghost predicate FirstsSorted(table: seq<Builtin>) {
    forall i, k :: 0 <= k < i < |table| && First(table, i) ==> Strcmp(table[k].name, table[i].name) < 0
  }

  lemma {:induction false} FirstOf(table: seq<Builtin>, i: nat) returns (f: nat)
    requires i < |table|
    ensures f <= i && table[f].name == table[i].name && First(table, f)
    decreases i
  {
    f := i;
    if k :| 0 <= k < i && table[k].name == table[i].name {
      f := FirstOf(table, k);
    }
  }

  /** A name is found exactly when the entries before its first one all precede it. */
  lemma FoundIff(table: seq<Builtin>, i: nat)
    requires i < |table| && First(table, i)
    ensures Found(table, table[i].name) <==> forall k :: 0 <= k < i ==> Strcmp(table[k].name, table[i].name) < 0
  {
    var name := table[i].name;
    StrcmpZero(name, name);
    forall k | 0 <= k < i
      ensures Strcmp(table[k].name, name) == -Strcmp(name, table[k].name)
    {
      StrcmpFlips(name, table[k].name);
    }
    if Found(table, name) {
      var j :| 0 <= j < |table| && Reaches(table, name, j);
      assert j == i;
    } else {
      assert !Reaches(table, name, i);
    }
  }

  /** Every name in the table can be found exactly when its first occurrences are sorted. */
  lemma EveryNameFoundIff(table: seq<Builtin>)
    ensures (forall i :: 0 <= i < |table| ==> Found(table, table[i].name)) <==> FirstsSorted(table)
  {
    hide Found;
    if FirstsSorted(table) {
      forall i | 0 <= i < |table|
        ensures Found(table, table[i].name)
      {
        var f := FirstOf(table, i);
        FoundIff(table, f);
      }
    }
    if forall i :: 0 <= i < |table| ==> Found(table, table[i].name) {
      forall i, k | 0 <= k < i < |table| && First(table, i)
        ensures Strcmp(table[k].name, table[i].name) < 0
      {
        FoundIff(table, i);
      }
    }
  }

  lemma {:induction false} CommonPrefix(p: string, a: string, b: string)
    ensures Strcmp(p + a, p + b) == Strcmp(a, b)
  {
    if p == "" {
      assert p + a == a && p + b == b;
    } else {
      assert (p + a)[1..] == p[1..] + a && (p + b)[1..] == p[1..] + b;
      CommonPrefix(p[1..], a, b);
    }
  }
}
