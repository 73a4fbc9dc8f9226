/** The program's own table of builtins (stage2/builtins.c). Its comment calls it sorted; it is, but for its last entry,
    and that one can never be found. */
module CommandTable {
  import opened Seqs
  import opened Commands

  /** The names of the table in stage2/builtins.c with every configuration option on, up to vbeset. */
  const COMMANDS1: seq<string> := [
    "blocklist", "boot", "bootp", "cat", "chainloader",
    "checkfile", "cmp", "color", "configfile", "debug"]
  const COMMANDS2: seq<string> := [
    "default", "device", "dhcp", "displayapm", "displaymem",
    "dump", "echo", "embed", "fallback", "find"]
  const COMMANDS3: seq<string> := [
    "fstest", "geometry", "halt", "help", "hiddenmenu",
    "hide", "ifconfig", "impsprobe", "initrd", "install"]
  const COMMANDS4: seq<string> := [
    "ioprobe", "kernel", "lock", "makeactive", "map",
    "md5crypt", "modaddr", "module", "modulenounzip", "pager"]
  const COMMANDS5: seq<string> := [
    "partnew", "parttype", "password", "pause", "print",
    "quit", "rarp", "read", "reboot", "root"]
  const COMMANDS6: seq<string> := [
    "rootnoverify", "savedefault", "serial", "set", "setkey",
    "setup", "sha1", "terminal", "terminfo", "testload"]
  const COMMANDS7: seq<string> := [
    "testvbe", "tftpserver", "timeout", "title", "toggle",
    "unhide", "uppermem", "varexpand", "vbeprobe", "vbeset"]

  ghost function AllButLast(): seq<string> {
    COMMANDS1 + COMMANDS2 + COMMANDS3 + COMMANDS4 + COMMANDS5 + COMMANDS6 + COMMANDS7
  }

  ghost predicate Ascending(names: seq<string>) {
    forall i :: 0 <= i < |names| - 1 ==> Strcmp(names[i], names[i + 1]) < 0
  }

  /** Names that agree in their first `k` characters are ordered by the next one. */
  lemma {:induction false} Precedes(a: string, b: string, k: nat)
    requires k <= |a| && k < |b| && a[..k] == b[..k]
    requires if k == |a| then Signed(b[k]) >= 0 else Signed(a[k]) < Signed(b[k])
    ensures Strcmp(a, b) < 0
  {
    assert a == a[..k] + a[k..] && b == a[..k] + b[k..];
    CommonPrefix(a[..k], a[k..], b[k..]);
  }

  lemma Ascending1()
    ensures Ascending(COMMANDS1)
  {
    hide Strcmp;
    Precedes("blocklist", "boot", 1);
    Precedes("boot", "bootp", 4);
    Precedes("bootp", "cat", 0);
    Precedes("cat", "chainloader", 1);
    Precedes("chainloader", "checkfile", 2);
    Precedes("checkfile", "cmp", 1);
    Precedes("cmp", "color", 1);
    Precedes("color", "configfile", 2);
    Precedes("configfile", "debug", 0);
  }

  lemma Ascending2()
    ensures Ascending(COMMANDS2)
  {
    hide Strcmp;
    Precedes("default", "device", 2);
    Precedes("device", "dhcp", 1);
    Precedes("dhcp", "displayapm", 1);
    Precedes("displayapm", "displaymem", 7);
    Precedes("displaymem", "dump", 1);
    Precedes("dump", "echo", 0);
    Precedes("echo", "embed", 1);
    Precedes("embed", "fallback", 0);
    Precedes("fallback", "find", 1);
  }

  lemma Ascending3()
    ensures Ascending(COMMANDS3)
  {
    hide Strcmp;
    Precedes("fstest", "geometry", 0);
    Precedes("geometry", "halt", 0);
    Precedes("halt", "help", 1);
    Precedes("help", "hiddenmenu", 1);
    Precedes("hiddenmenu", "hide", 3);
    Precedes("hide", "ifconfig", 0);
    Precedes("ifconfig", "impsprobe", 1);
    Precedes("impsprobe", "initrd", 1);
    Precedes("initrd", "install", 2);
  }

  lemma Ascending4()
    ensures Ascending(COMMANDS4)
  {
    hide Strcmp;
    Precedes("ioprobe", "kernel", 0);
    Precedes("kernel", "lock", 0);
    Precedes("lock", "makeactive", 0);
    Precedes("makeactive", "map", 2);
    Precedes("map", "md5crypt", 1);
    Precedes("md5crypt", "modaddr", 1);
    Precedes("modaddr", "module", 3);
    Precedes("module", "modulenounzip", 6);
    Precedes("modulenounzip", "pager", 0);
  }

  lemma Ascending5()
    ensures Ascending(COMMANDS5)
  {
    hide Strcmp;
    Precedes("partnew", "parttype", 4);
    Precedes("parttype", "password", 2);
    Precedes("password", "pause", 2);
    Precedes("pause", "print", 1);
    Precedes("print", "quit", 0);
    Precedes("quit", "rarp", 0);
    Precedes("rarp", "read", 1);
    Precedes("read", "reboot", 2);
    Precedes("reboot", "root", 1);
  }

  lemma Ascending6()
    ensures Ascending(COMMANDS6)
  {
    hide Strcmp;
    Precedes("rootnoverify", "savedefault", 0);
    Precedes("savedefault", "serial", 1);
    Precedes("serial", "set", 2);
    Precedes("set", "setkey", 3);
    Precedes("setkey", "setup", 3);
    Precedes("setup", "sha1", 1);
    Precedes("sha1", "terminal", 0);
    Precedes("terminal", "terminfo", 6);
    Precedes("terminfo", "testload", 2);
  }

  lemma Ascending7()
    ensures Ascending(COMMANDS7)
  {
    hide Strcmp;
    Precedes("testvbe", "tftpserver", 1);
    Precedes("tftpserver", "timeout", 1);
    Precedes("timeout", "title", 2);
    Precedes("title", "toggle", 1);
    Precedes("toggle", "unhide", 0);
    Precedes("unhide", "uppermem", 1);
    Precedes("uppermem", "varexpand", 0);
    Precedes("varexpand", "vbeprobe", 1);
    Precedes("vbeprobe", "vbeset", 3);
  }

  lemma AscendingJoin(a: seq<string>, b: seq<string>)
    requires Ascending(a) && Ascending(b) && a != [] && b != [] && Strcmp(a[|a| - 1], b[0]) < 0
    ensures Ascending(a + b)
  {
    hide Strcmp;
    var c := a + b;
    forall i | 0 <= i < |c| - 1
      ensures Strcmp(c[i], c[i + 1]) < 0
    {
      if i >= |a| {
        assert c[i] == b[i - |a|] && c[i + 1] == b[i - |a| + 1];
      }
    }
  }

  lemma AllAscending()
    ensures Ascending(AllButLast())
  {
    hide Strcmp;
    hide Ascending;
    Ascending1();
    Ascending2();
    Precedes("debug", "default", 2);
    AscendingJoin(COMMANDS1, COMMANDS2);
    Ascending3();
    Precedes("find", "fstest", 1);
    AscendingJoin(COMMANDS1 + COMMANDS2, COMMANDS3);
    Ascending4();
    Precedes("install", "ioprobe", 1);
    AscendingJoin(COMMANDS1 + COMMANDS2 + COMMANDS3, COMMANDS4);
    Ascending5();
    Precedes("pager", "partnew", 2);
    AscendingJoin(COMMANDS1 + COMMANDS2 + COMMANDS3 + COMMANDS4, COMMANDS5);
    Ascending6();
    Precedes("root", "rootnoverify", 4);
    AscendingJoin(COMMANDS1 + COMMANDS2 + COMMANDS3 + COMMANDS4 + COMMANDS5, COMMANDS6);
    Ascending7();
    Precedes("testload", "testvbe", 4);
    AscendingJoin(COMMANDS1 + COMMANDS2 + COMMANDS3 + COMMANDS4 + COMMANDS5 + COMMANDS6, COMMANDS7);
  }

  lemma {:induction false} AscendingOrders(names: seq<string>, i: nat, j: nat)
    requires Ascending(names) && i < j < |names|
    ensures Strcmp(names[i], names[j]) < 0
    decreases j
  {
    if i < j - 1 {
      AscendingOrders(names, i, j - 1);
      StrcmpTransitive(names[i], names[j - 1], names[j]);
    }
  }

  /** With the program's table every command is found, except vbematch, which never is. */
  lemma OnlyVbematchIsLost(table: seq<Builtin>)
    requires |table| == |AllButLast()| + 1 && table[|table| - 1].name == "vbematch"
    requires forall i :: 0 <= i < |table| - 1 ==> table[i].name == AllButLast()[i]
    ensures forall i :: 0 <= i < |table| - 1 ==> Reaches(table, table[i].name, i)
    ensures !Found(table, "vbematch")
  {
    hide Strcmp;
    AllAscending();
    var names := AllButLast();
    var n := |names|;
    assert names[n - 3] == "varexpand" && names[n - 2] == "vbeprobe" && names[n - 1] == "vbeset";
    hide AllButLast;
    forall i, k | 0 <= k < i < n
      ensures Strcmp(names[k], names[i]) < 0 && Strcmp(names[i], names[k]) > 0
    {
      AscendingOrders(names, k, i);
      StrcmpFlips(names[k], names[i]);
    }
    Precedes("vbematch", "vbeprobe", 3);
    Precedes("varexpand", "vbematch", 1);
    StrcmpZero("vbematch", "vbematch");
    forall i | 0 <= i < n - 3
      ensures names[i] != "vbematch"
    {
      StrcmpTransitive(names[i], "varexpand", "vbematch");
    }
  }

  /** In any configuration the table ends with vbeprobe, vbeset and vbematch: whatever comes before, vbematch is never
      found unless it stands there as well, and the table is not sorted. */
  lemma VbematchIsLost(front: seq<Builtin>, flag: bool)
    requires forall i :: 0 <= i < |front| ==> front[i].name != "vbematch"
    ensures var table := front + [Builtin("vbeprobe", flag), Builtin("vbeset", flag), Builtin("vbematch", flag)];
            !Found(table, "vbematch") && !Sorted(table)
  {
    hide Strcmp;
    var table := front + [Builtin("vbeprobe", flag), Builtin("vbeset", flag), Builtin("vbematch", flag)];
    var n := |front|;
    assert table[n].name == "vbeprobe" && table[n + 1].name == "vbeset" && table[n + 2].name == "vbematch";
    Precedes("vbematch", "vbeprobe", 3);
    StrcmpFlips("vbematch", "vbeprobe");
    forall i | 0 <= i < n
      ensures table[i].name != "vbematch"
    {
      assert table[i] == front[i];
    }
  }
}
