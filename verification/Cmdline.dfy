/** Measured command execution (stage2/cmdline.c): every command is extended into a platform configuration
    register before it is run, from the interactive command line and from a menu entry.

    SHA-1 and the extend operation of the TPM (TPM_Extend, section 16.1 of the TPM 1.2 Main Specification, part
    3) are arbitrary functions, the builtins arbitrary steps on the error number, the kernel type and the variables,
    and the input is a parameter. The build is the one without SHOW_SHA1 and DEBUG. */
module Cmdline {
  import opened Seqs
  import opened Commands
  import opened Variables

  // ---------------------------------------------------------------- measurement

  /** The hash and the extend operation. */
  datatype Tpm<!Digest, !Pcr> = Tpm(sha1: string -> Digest, extend: (Pcr, Digest) -> Pcr)

  /** The register after the lines of `log` have been extended into it one after the other. */
  function Replay<Digest, Pcr>(tpm: Tpm<Digest, Pcr>, start: Pcr, log: seq<string>): Pcr {
    if log == [] then start
    else tpm.extend(Replay(tpm, start, log[..|log| - 1]), tpm.sha1(log[|log| - 1]))
  }

  lemma ReplaySnoc<Digest, Pcr>(tpm: Tpm<Digest, Pcr>, start: Pcr, log: seq<string>, line: string)
    ensures Replay(tpm, start, log + [line]) == tpm.extend(Replay(tpm, start, log), tpm.sha1(line))
  {
    assert (log + [line])[..|log|] == log;
  }

  /** Replaying one line extends by its hash, and replaying goes on where it stopped. */
  lemma {:induction false} ReplayGoesOn<Digest, Pcr>(tpm: Tpm<Digest, Pcr>, start: Pcr, a: seq<string>, b: seq<string>,
                                                     line: string)
    ensures Replay(tpm, start, []) == start && Replay(tpm, start, [line]) == tpm.extend(start, tpm.sha1(line))
    ensures Replay(tpm, start, a + b) == Replay(tpm, Replay(tpm, start, a), b)
    decreases |b|
  {
    ReplaySnoc(tpm, start, [], line);
    assert [] + [line] == [line];
    if b == [] {
      assert a + b == a;
    } else {
      var c, x := b[..|b| - 1], b[|b| - 1];
      ReplayGoesOn(tpm, start, a, c, line);
      ReplaySnoc(tpm, start, a + c, x);
      assert a + b == a + c + [x];
    }
  }

  /** What two logs with the same register value can show up about the TPM. */
  datatype Weakness =
    | SameHash(i: nat, j: nat)    // two different lines of theirs with the same hash
    | SameExtend(i: nat, j: nat)  // two different pairs of register and hash of theirs that extend to the same value
    | BackAtStart(i: nat, first: bool) // a part of one of them that leads back to the start value

  ghost predicate Shows<Digest, Pcr>(tpm: Tpm<Digest, Pcr>, start: Pcr, a: seq<string>, b: seq<string>, w: Weakness) {
    match w
    case SameHash(i, j) =>
      i < |a| && j < |b| && |a| - i == |b| - j && a[i] != b[j] && tpm.sha1(a[i]) == tpm.sha1(b[j])
    case SameExtend(i, j) =>
      && i < |a| && j < |b| && |a| - i == |b| - j
      && (Replay(tpm, start, a[..i]), tpm.sha1(a[i])) != (Replay(tpm, start, b[..j]), tpm.sha1(b[j]))
      && Replay(tpm, start, a[..i + 1]) == Replay(tpm, start, b[..j + 1])
    case BackAtStart(i, first) =>
      var log := if first then a else b;
      0 < i <= |log| && Replay(tpm, start, log[..i]) == start
  }

  /** What shorter logs show, longer ones show. */
  lemma StillShows<Digest, Pcr>(tpm: Tpm<Digest, Pcr>, start: Pcr, a: seq<string>, b: seq<string>,
                                x: string, y: string, w: Weakness)
    requires Shows(tpm, start, a, b, w)
    ensures Shows(tpm, start, a + [x], b + [y], w)
  {
    hide Replay;
    assert forall i :: 0 <= i <= |a| ==> (a + [x])[..i] == a[..i];
    assert forall j :: 0 <= j <= |b| ==> (b + [y])[..j] == b[..j];
  }

  /** Equal register values mean equal logs, unless the logs themselves exhibit a broken hash or extend operation. */
  lemma {:induction false} EqualPcrEqualLogs<Digest, Pcr>(tpm: Tpm<Digest, Pcr>, start: Pcr,
                                                          a: seq<string>, b: seq<string>) returns (w: Weakness)
    requires Replay(tpm, start, a) == Replay(tpm, start, b)
    ensures a == b || Shows(tpm, start, a, b, w)
    decreases |a|
  {
    assert a[..|a|] == a && b[..|b|] == b;
    if a == [] || b == [] {
      w := if a == [] then BackAtStart(|b|, false) else BackAtStart(|a|, true);
    } else {
      var a', b' := a[..|a| - 1], b[..|b| - 1];
      var x, y := a[|a| - 1], b[|b| - 1];
      assert a == a' + [x] && b == b' + [y];
      if (Replay(tpm, start, a'), tpm.sha1(x)) != (Replay(tpm, start, b'), tpm.sha1(y)) {
        w := SameExtend(|a'|, |b'|);
      } else if x != y {
        w := SameHash(|a'|, |b'|);
      } else {
        w := EqualPcrEqualLogs(tpm, start, a', b');
        if a' != b' {
          StillShows(tpm, start, a', b', x, y, w);
        }
      }
    }
  }

  // ---------------------------------------------------------------- what happens

  datatype Errnum = ErrNone | ErrUnrecognized | ErrOther

  /** What a builtin does when it is run. */
  datatype Effect = Returns(errnum: Errnum, kernelLoaded: bool, vars: Vars) | NeverReturns

  /** The things worth recording, in order: a line measured, with its origin and the variables of the time, and a
      builtin run. */
  datatype Act =
    | Measure(line: CString, script: bool, vars: Vars)
    | Run(builtin: Builtin, text: CString, arg: string, effect: Effect)
  {
    /** The text run for a measured line: that of a menu entry is expanded. */
    function TextRun(): CString
      requires Measure?
    {
      if script then Sprint(vars, line) else line
    }
  }

  /** `b` is the builtin that `text` names, and it may be run here. */
  ghost predicate Allows(table: seq<Builtin>, text: string, b: Builtin) {
    Names(table, text, Some(b)) && b.cmdline
  }

  ghost predicate Runs(table: seq<Builtin>, text: string) {
    exists b :: Allows(table, text, b)
  }

  function Argument(text: string): string {
    DropBlanks(text[|Word(text, true)|..], true)
  }

  /** The variables after some acts. */
  function VarsAfter(vars: Vars, trace: seq<Act>): Vars {
    if trace == [] then vars
    else
      var last := trace[|trace| - 1];
      if last.Run? && last.effect.Returns? then last.effect.vars else VarsAfter(vars, trace[..|trace| - 1])
  }

  /** Exactly the measured lines that name a runnable builtin are run, each right after its measurement, as
      that builtin and with the rest of the text as argument; and nothing else is run. A typed line is measured only
      if it is run, and a line of a menu entry is expanded with the variables the builtins before it have left. */
  ghost predicate Faithful(table: seq<Builtin>, vars: Vars, trace: seq<Act>) {
    forall i :: 0 <= i < |trace| ==> FaithfulAt(table, vars, trace, i)
  }

  ghost predicate FaithfulAt(table: seq<Builtin>, vars: Vars, trace: seq<Act>, i: nat)
    requires i < |trace|
  {
    var a := trace[i];
    if a.Measure? then
      && a.vars == VarsAfter(vars, trace[..i])
      && (i + 1 < |trace| && trace[i + 1].Run? <==> Runs(table, a.TextRun()))
      && (!a.script ==> Runs(table, a.line))
    else
      && i > 0 && trace[i - 1].Measure? && a.text == trace[i - 1].TextRun()
      && Allows(table, a.text, a.builtin) && a.arg == Argument(a.text)
  }

  /** `lines` restricted to the non-empty ones that name a runnable builtin. */
  ghost function Runnable(table: seq<Builtin>, lines: seq<string>): seq<string> {
    if lines == [] then []
    else
      var last := lines[|lines| - 1];
      Runnable(table, lines[..|lines| - 1]) + if last != "" && Runs(table, last) then [last] else []
  }

  /** The lines measured. */
  function Measured(trace: seq<Act>): seq<string> {
    if trace == [] then []
    else Measured(trace[..|trace| - 1]) + if trace[|trace| - 1].Measure? then [trace[|trace| - 1].line] else []
  }

  lemma MeasuredSnoc(trace: seq<Act>, a: Act)
    ensures Measured(trace + [a]) == if a.Measure? then Measured(trace) + [a.line] else Measured(trace)
  {
    assert (trace + [a])[..|trace|] == trace;
  }

  lemma VarsSnoc(vars: Vars, trace: seq<Act>, a: Act)
    ensures VarsAfter(vars, trace + [a])
         == if a.Run? && a.effect.Returns? then a.effect.vars else VarsAfter(vars, trace)
  {
    assert (trace + [a])[..|trace|] == trace;
  }

  /** A line measured as it should be at the end of `trace`. */
  ghost predicate Due(table: seq<Builtin>, vars: Vars, trace: seq<Act>, m: Act) {
    m.Measure? && m.vars == VarsAfter(vars, trace) && (!m.script ==> Runs(table, m.line))
  }

  /** A line measured and not run. */
  lemma FaithfulIdle(table: seq<Builtin>, vars: Vars, trace: seq<Act>, m: Act)
    requires Faithful(table, vars, trace) && Due(table, vars, trace, m) && !Runs(table, m.TextRun())
    ensures Faithful(table, vars, trace + [m])
  {
    hide Runs;
    hide VarsAfter;
    hide Allows;
    var t := trace + [m];
    forall i | 0 <= i < |t|
      ensures FaithfulAt(table, vars, t, i)
    {
      if i <= |trace| {
        FaithfulFront(table, vars, trace, t, i);
      }
    }
  }

  /** A line measured and run. */
  lemma FaithfulStep(table: seq<Builtin>, vars: Vars, trace: seq<Act>, m: Act, b: Builtin, effect: Effect)
    requires Faithful(table, vars, trace) && Due(table, vars, trace, m) && Allows(table, m.TextRun(), b)
    ensures Faithful(table, vars, trace + [m] + [Run(b, m.TextRun(), Argument(m.TextRun()), effect)])
  {
    assert Runs(table, m.TextRun());
    hide Runs;
    hide VarsAfter;
    hide Allows;
    var t := trace + [m] + [Run(b, m.TextRun(), Argument(m.TextRun()), effect)];
    forall i | 0 <= i < |t|
      ensures FaithfulAt(table, vars, t, i)
    {
      if i <= |trace| {
        FaithfulFront(table, vars, trace, t, i);
      }
    }
  }

  /** The acts of a faithful trace stay faithful when a measured line follows; and that line starts well. */
  lemma FaithfulFront(table: seq<Builtin>, vars: Vars, trace: seq<Act>, t: seq<Act>, i: nat)
    requires Faithful(table, vars, trace) && |trace| < |t| && t[..|trace|] == trace && t[|trace|].Measure?
    requires i <= |trace|
    ensures t[..i] == trace[..i]
    ensures i < |trace| ==> FaithfulAt(table, vars, t, i)
  {
    hide Runs;
    hide VarsAfter;
    hide Allows;
    assert t[..i] == t[..|trace|][..i];
    assert forall k :: 0 <= k < |trace| ==> t[k] == t[..|trace|][k];
    if i < |trace| {
      assert FaithfulAt(table, vars, trace, i);
    }
  }

  /** Whatever was run was written as its name, blanks and its argument. */
  lemma RunIsWritten(table: seq<Builtin>, vars: Vars, trace: seq<Act>, i: nat, name: string, blanks: string,
                     rest: string)
    requires Faithful(table, vars, trace) && i < |trace| && trace[i].Run?
    requires Written(trace[i].text, name, blanks, rest, true)
    ensures trace[i].builtin.name == name && trace[i].arg == rest
  {
    assert FaithfulAt(table, vars, trace, i);
    SkipWritten(trace[i].text, name, blanks, rest, true);
  }

  lemma RunnableSnoc(table: seq<Builtin>, lines: seq<string>, line: string)
    ensures Runnable(table, lines + [line])
         == Runnable(table, lines) + if line != "" && Runs(table, line) then [line] else []
  {
    assert (lines + [line])[..|lines|] == lines;
  }

  lemma NoneRunnable(table: seq<Builtin>)
    ensures Runnable(table, []) == []
  {
  }

  /** Whether a text runs is decided by the entry it names. */
  lemma RunsIff(table: seq<Builtin>, text: string, b: Option<Builtin>)
    requires Names(table, text, b)
    ensures Runs(table, text) <==> b.Some? && b.value.cmdline
    ensures b.Some? && b.value.cmdline ==> Allows(table, text, b.value)
  {
    if b.Some? && b.value.cmdline {
      assert Allows(table, text, b.value);
    }
    forall x | Allows(table, text, x)
      ensures b == Some(x)
    {
      NamesUnique(table, text, b, Some(x));
    }
  }

  /** The command run implicitly. */
  const BOOT: CString := "boot"

  /** What the command line and the menu entries do not decide themselves; `start` is the register after the reset,
      `vars` the variables at that time. */
  datatype World<!Digest, !Pcr> = World(
    table: seq<Builtin>, tpm: Tpm<Digest, Pcr>, tpmPresent: bool, start: Pcr, vars: Vars)

  class Shell<Digest, Pcr> {
    const world: World<Digest, Pcr>
    var pcr: Pcr                // PCR 12
    var errnum: Errnum
    var kernelLoaded: bool      // kernel_type != KERNEL_TYPE_NONE
    var vars: Vars              // the variables
    ghost var trace: seq<Act>

    ghost predicate Valid()
      reads `pcr, `vars, `trace
    {
      && Faithful(world.table, world.vars, trace)
      && vars == VarsAfter(world.vars, trace)
      && pcr == if world.tpmPresent then Replay(world.tpm, world.start, Measured(trace)) else world.start
    }

    constructor (world: World<Digest, Pcr>)
      ensures Valid() && this.world == world && trace == []
    {
      this.world, pcr, vars, trace := world, world.start, world.vars, [];
      errnum, kernelLoaded := ErrNone, false;
    }

    /** init_cmdline: no error, and init_builtins forgets the kernel. */
    method InitCmdline()
      requires Valid()
      modifies `errnum, `kernelLoaded
      ensures Valid() && errnum == ErrNone && !kernelLoaded
    {
      errnum := ErrNone;
      kernelLoaded := false;
    }

    /** extend_cmdline_into_pcr */
    method ExtendCmdline(line: CString, ghost script: bool)
      requires pcr == if world.tpmPresent then Replay(world.tpm, world.start, Measured(trace)) else world.start
      modifies `pcr, `trace
      ensures trace == old(trace) + [Measure(line, script, vars)]
      ensures pcr == if world.tpmPresent then Replay(world.tpm, world.start, Measured(trace)) else world.start
    {
      var hash := world.tpm.sha1(line);
      MeasuredSnoc(trace, Measure(line, script, vars));
      ReplaySnoc(world.tpm, world.start, Measured(trace), line);
      if world.tpmPresent {
        pcr := world.tpm.extend(pcr, hash);
      }
      trace := trace + [Measure(line, script, vars)];
    }

    /** A buffer holding `text`. */
    method Buffer(text: CString) returns (buf: array<char>)
      ensures fresh(buf) && buf[..] == text + ['\0'] && Text(buf[..]) == text
    {
      buf := new char[|text| + 1](i => if 0 <= i < |text| then text[i] else '\0');
      assert buf[..] == text + ['\0'];
      TextIs(buf[..], 0, text);
    }

    /** A builtin runs: the error number, the kernel type and the variables become what it makes of them. */
    method RunBuiltin(b: Builtin, text: CString, effect: Effect) returns (stopped: bool)
      modifies `errnum, `kernelLoaded, `vars, `trace
      ensures trace == old(trace) + [Run(b, text, Argument(text), effect)]
      ensures stopped == effect.NeverReturns?
      ensures effect.Returns? ==> errnum == effect.errnum && kernelLoaded == effect.kernelLoaded && vars == effect.vars
      ensures effect.NeverReturns? ==> vars == old(vars)
    {
      var arg := SkipTo(true, text);
      trace := trace + [Run(b, text, arg, effect)];
      if effect.NeverReturns? {
        return true;
      }
      errnum, kernelLoaded, vars := effect.errnum, effect.kernelLoaded, effect.vars;
      stopped := false;
    }

    /** One line typed at the command line: looked up first, measured only if it will be run. */
    method CommandLine(line: CString, effect: Effect) returns (ran: bool, stopped: bool)
      requires Valid()
      modifies `pcr, `errnum, `kernelLoaded, `vars, `trace
      ensures Valid()
      ensures Measured(trace) == old(Measured(trace)) + if ran then [line] else []
      ensures ran <==> line != "" && Runs(world.table, line)
      ensures stopped <==> Ends(Some(line), effect)
      ensures !stopped ==>
        errnum == if ran && effect.Returns? then effect.errnum else if line == "" then ErrNone else ErrUnrecognized
    {
      errnum := ErrNone;
      ran, stopped := false, false;
      var heap := Buffer(line);
      assert heap[0] == '\0' <==> line == "" by {
        assert heap[..][0] == (line + ['\0'])[0];
      }
      if heap[0] == '\0' {
        return;
      }
      var b := FindCommand(world.table, heap);
      RunsIff(world.table, line, b);
      if b.None? {
        errnum := ErrUnrecognized;
        return;
      }
      if !b.value.cmdline {
        errnum := ErrUnrecognized;
        return;
      }
      ran := true;
      stopped := MeasureAndRun(line, b.value, effect);
    }

    /** A typed line found to be runnable is measured and then run. */
    method MeasureAndRun(line: CString, b: Builtin, effect: Effect) returns (stopped: bool)
      requires Valid() && Allows(world.table, line, b)
      modifies `pcr, `errnum, `kernelLoaded, `vars, `trace
      ensures Valid() && Measured(trace) == old(Measured(trace)) + [line]
      ensures stopped == effect.NeverReturns?
      ensures effect.Returns? ==> errnum == effect.errnum && kernelLoaded == effect.kernelLoaded && vars == effect.vars
    {
      hide Measured;
      hide VarsAfter;
      hide Faithful;
      hide Allows;
      assert Runs(world.table, line);
      hide Runs;
      ghost var before, m, r := trace, Measure(line, false, vars), Run(b, line, Argument(line), effect);
      FaithfulStep(world.table, world.vars, before, m, b, effect);
      MeasuredSnoc(before, m);
      MeasuredSnoc(before + [m], r);
      VarsSnoc(world.vars, before, m);
      VarsSnoc(world.vars, before + [m], r);
      ExtendCmdline(line, false);
      stopped := RunBuiltin(b, line, effect);
      assert trace == before + [m] + [r];
    }

    /** The command typed is run and never returns. */
    ghost predicate Ends(input: Option<CString>, effect: Effect) {
      input.Some? && input.value != "" && Runs(world.table, input.value) && effect.NeverReturns?
    }

    /** enter_cmdline: `inputs` is what get_cmdline returns, None being the escape key; `effects` what the builtins
        do, one for every input. The lines measured are, in order, exactly those that are run, up to the escape key
        or the first command that never returns. */
    method EnterCmdline(inputs: seq<Option<CString>>, effects: seq<Effect>) returns (handled: nat)
      requires Valid() && |effects| == |inputs|
      modifies this
      ensures Valid() && handled <= |inputs|
      ensures forall i :: 0 <= i < handled ==> inputs[i].Some?
      ensures Measured(trace) == old(Measured(trace)) + Runnable(world.table, Lines(inputs[..handled]))
      ensures forall i :: 0 <= i < handled - 1 ==> !Ends(inputs[i], effects[i])
      ensures handled < |inputs| ==>
        inputs[handled].None? || (handled > 0 && Ends(inputs[handled - 1], effects[handled - 1]))
    {
      hide Valid;
      hide Measured;
      hide Lines;
      hide Ends;
      hide Runs;
      hide Runnable;
      InitCmdline();
      handled := 0;
      NoneRunnable(world.table);
      assert Lines(inputs[..0]) == [];
      while handled < |inputs|
        invariant Valid() && handled <= |inputs|
        invariant forall i :: 0 <= i < handled ==> inputs[i].Some?
        invariant Measured(trace) == old(Measured(trace)) + Runnable(world.table, Lines(inputs[..handled]))
        invariant forall i :: 0 <= i < handled ==> !Ends(inputs[i], effects[i])
      {
        if inputs[handled].None? {
          return;
        }
        var line := inputs[handled].value;
        ghost var before := Lines(inputs[..handled]);
        LinesSnoc(inputs, handled);
        RunnableSnoc(world.table, before, line);
        Assoc(old(Measured(trace)), Runnable(world.table, before), [line]);
        var ran, stopped := CommandLine(line, effects[handled]);
        handled := handled + 1;
        if stopped {
          return;
        }
      }
    }

    /** One line of a menu entry: expanded, measured as it stands, and its expansion looked up and run. */
    method ScriptLine(line: CString, effect: Effect) returns (ran: bool, stopped: bool)
      requires Valid() && errnum == ErrNone
      modifies `pcr, `errnum, `kernelLoaded, `vars, `trace
      ensures Valid()
      ensures Measured(trace) == old(Measured(trace)) + [line]
      ensures ran <==> Runs(world.table, Sprint(old(vars), line))
      ensures stopped <==> ran && effect.NeverReturns?
      ensures !stopped ==> errnum == if ran && effect.Returns? then effect.errnum else ErrUnrecognized
      ensures !stopped && ran && effect.Returns? ==> kernelLoaded == effect.kernelLoaded && vars == effect.vars
      ensures !ran ==> kernelLoaded == old(kernelLoaded) && vars == old(vars)
    {
      hide Faithful;
      hide Measured;
      hide VarsAfter;
      hide Sprint;
      var text := VarSprint(vars, line);
      var dump := Buffer(text);
      ghost var before := trace;
      MeasuredSnoc(before, Measure(line, true, vars));
      ExtendCmdline(line, true);
      var b := FindCommand(world.table, dump);
      RunsIff(world.table, text, b);
      hide Runs;
      ran, stopped := RunMeasured(line, text, b, effect, before);
    }

    /** The second half of a menu entry's line, after its measurement. */
    method RunMeasured(line: CString, text: CString, b: Option<Builtin>, effect: Effect, ghost before: seq<Act>)
      returns (ran: bool, stopped: bool)
      requires Faithful(world.table, world.vars, before) && vars == VarsAfter(world.vars, before)
      requires trace == before + [Measure(line, true, vars)] && text == Sprint(vars, line)
      requires b.Some? && b.value.cmdline ==> Allows(world.table, text, b.value)
      requires Runs(world.table, text) <==> b.Some? && b.value.cmdline
      modifies `errnum, `kernelLoaded, `vars, `trace
      ensures Faithful(world.table, world.vars, trace) && vars == VarsAfter(world.vars, trace)
      ensures Measured(trace) == old(Measured(trace))
      ensures ran <==> Runs(world.table, text)
      ensures stopped <==> ran && effect.NeverReturns?
      ensures !stopped ==> errnum == if ran && effect.Returns? then effect.errnum else ErrUnrecognized
      ensures !stopped && ran ==> kernelLoaded == effect.kernelLoaded && vars == effect.vars
      ensures !ran ==> kernelLoaded == old(kernelLoaded) && vars == old(vars)
    {
      hide Faithful;
      hide Measured;
      hide VarsAfter;
      hide Sprint;
      hide Runs;
      hide Allows;
      ghost var m := Measure(line, true, vars);
      VarsSnoc(world.vars, before, m);
      if b.None? || !b.value.cmdline {
        FaithfulIdle(world.table, world.vars, before, m);
        errnum := ErrUnrecognized;
        return false, false;
      }
      ghost var r := Run(b.value, text, Argument(text), effect);
      FaithfulStep(world.table, world.vars, before, m, b.value, effect);
      MeasuredSnoc(trace, r);
      VarsSnoc(world.vars, trace, r);
      stopped := RunBuiltin(b.value, text, effect);
      ran := true;
    }

    /** The variables when entry `i` is reached, the ones before having returned. */
    static function VarsAt(vars: Vars, effects: seq<Effect>, i: nat): Vars
      requires i <= |effects|
    {
      if i > 0 && effects[i - 1].Returns? then effects[i - 1].vars else vars
    }

    /** Entry `i` names a runnable builtin once it has been expanded. */
    ghost predicate EntryRuns(vars: Vars, entries: seq<CString>, effects: seq<Effect>, i: nat)
      requires |effects| == |entries| && i < |entries|
    {
      Runs(world.table, Sprint(VarsAt(vars, effects, i), entries[i]))
    }

    /** The first `n` entries were run and returned without an error. */
    ghost predicate Completed(vars: Vars, entries: seq<CString>, effects: seq<Effect>, n: int)
      requires |effects| == |entries| && n <= |entries|
    {
      forall i :: 0 <= i < n ==>
        EntryRuns(vars, entries, effects, i) && effects[i].Returns? && effects[i].errnum == ErrNone
    }

    /** The last of the first `n` entries is run and never returns. */
    ghost predicate NeverBack(vars: Vars, entries: seq<CString>, effects: seq<Effect>, n: nat)
      requires |effects| == |entries| && n <= |entries|
    {
      n > 0 && EntryRuns(vars, entries, effects, n - 1) && effects[n - 1].NeverReturns?
    }

    /** The first `n` entries are all there are, or end with the first that does not complete. */
    ghost predicate StopsAt(vars: Vars, entries: seq<CString>, effects: seq<Effect>, n: nat)
      requires |effects| == |entries| && n <= |entries|
    {
      && Completed(vars, entries, effects, n - 1)
      && (Completed(vars, entries, effects, n) ==> n == |entries|)
    }

    /** Whether a kernel is loaded after the first `n` builtins have returned; none is at the start. */
    static predicate Loaded(effects: seq<Effect>, n: nat)
      requires n <= |effects|
    {
      n > 0 && effects[n - 1].Returns? && effects[n - 1].kernelLoaded
    }

    /** The implicit boot names a runnable builtin. */
    ghost predicate BootRuns(vars: Vars) {
      Runs(world.table, Sprint(vars, "boot"))
    }

    /** How a script ends: at the first entry that does not complete, or with the implicit boot exactly when all
        entries completed and a kernel is loaded. */
    ghost predicate ScriptRan(vars: Vars, all: seq<CString>, effects: seq<Effect>, boot: Effect,
                              ret: int, stopped: bool, handled: nat, implicit: bool)
      requires |effects| == |all| && handled <= |all|
    {
      var completed := Completed(vars, all, effects, |all|);
      && StopsAt(vars, all, effects, handled)
      && (implicit <==> completed && Loaded(effects, |all|))
      && (stopped <==>
            if implicit then BootRuns(VarsAt(vars, effects, |all|)) && boot.NeverReturns?
            else NeverBack(vars, all, effects, handled))
      && (!stopped ==> ret == if completed && !implicit then 0 else 1)
    }

    /** run_script: `effects` is what the builtins do, one for every entry; `boot` what the implicit boot does when
        all entries have been run and one of them has loaded a kernel: it either never returns or fails. The lines
        measured are the entries up to the first that fails, is unknown or never returns, then the implicit boot. */
    method RunScript(script: seq<char>, effects: seq<Effect>, boot: Effect)
      returns (ret: int, stopped: bool, handled: nat, implicit: bool)
      requires Valid() && Terminated(script, 0) && |effects| == |Entries(script, 0)|
      requires boot.Returns? ==> boot.errnum != ErrNone
      modifies this
      ensures Valid() && handled <= |effects| && (implicit ==> handled == |effects|)
      ensures Measured(trace)
           == old(Measured(trace)) + Entries(script, 0)[..handled] + if implicit then ["boot"] else []
      ensures ScriptRan(old(vars), Entries(script, 0), effects, boot, ret, stopped, handled, implicit)
    {
      hide Valid;
      hide Measured;
      hide Sprint;
      hide Runs;
      hide Entries;
      hide Terminated;
      hide Completed;
      hide StopsAt;
      hide NeverBack;
      ghost var all := Entries(script, 0);
      implicit := false;
      var over;
      ret, stopped, handled, over := RunEntries(script, effects);
      assert old(Measured(trace)) + all[..handled] + [] == old(Measured(trace)) + all[..handled];
      if stopped || !over {
        return;
      }
      if !kernelLoaded {
        ret := 0;
        return;
      }
      implicit := true;
      var ran;
      ran, stopped := ScriptLine(BOOT, boot);
      errnum := ErrNone;
      ret := 1;
    }

    /** The loop of run_script up to the end of the entries (`over`) or the first error. */
    method RunEntries(script: seq<char>, effects: seq<Effect>)
      returns (ret: int, stopped: bool, handled: nat, over: bool)
      requires Valid() && Terminated(script, 0) && |effects| == |Entries(script, 0)|
      modifies this
      ensures Valid() && handled <= |effects| && ret == 1
      ensures Measured(trace) == old(Measured(trace)) + Entries(script, 0)[..handled]
      ensures StopsAt(old(vars), Entries(script, 0), effects, handled)
      ensures over <==> Completed(old(vars), Entries(script, 0), effects, |effects|)
      ensures over ==>
        && handled == |effects| && !stopped
        && errnum == ErrNone && kernelLoaded == Loaded(effects, |effects|)
        && vars == VarsAt(old(vars), effects, |effects|)
      ensures stopped <==> NeverBack(old(vars), Entries(script, 0), effects, handled)
    {
      hide Valid;
      hide Terminated;
      hide Entries;
      hide TextFrom;
      hide Measured;
      hide Sprint;
      hide Runs;
      StartsInside(script);
      InitCmdline();
      var cur := 0;
      ghost var all, v := Entries(script, 0), vars;
      handled, stopped, ret, over := 0, false, 1, false;
      assert all[0..] == all && old(Measured(trace)) + all[..0] == old(Measured(trace));
      while errnum == ErrNone
        invariant Valid() && cur < |script| && Terminated(script, cur) && handled <= |all|
        invariant Entries(script, cur) == all[handled..]
        invariant Measured(trace) == old(Measured(trace)) + all[..handled]
        invariant Completed(v, all, effects, handled - 1) && !NeverBack(v, all, effects, handled)
        invariant errnum == ErrNone <==> Completed(v, all, effects, handled)
        invariant errnum == ErrNone ==>
          kernelLoaded == Loaded(effects, handled) && vars == VarsAt(v, effects, handled)
        decreases |script| - cur, errnum == ErrNone
      {
        var heap := TextFrom(script, cur);
        NextEntry(script, cur, all, handled);
        if heap == "" {
          over := true;
          return;
        }
        Assoc(old(Measured(trace)), all[..handled], [heap]);
        cur := cur + |heap| + 1;
        var ran;
        ran, stopped := ScriptLine(heap, effects[handled]);
        handled := handled + 1;
        if stopped {
          return;
        }
      }
      errnum := ErrNone;
    }
  }

  lemma StartsInside(script: seq<char>)
    requires Terminated(script, 0)
    ensures 0 < |script|
  {
  }

  lemma NextEntry(script: seq<char>, p: nat, all: seq<CString>, k: nat)
    requires p < |script| && Terminated(script, p) && k <= |all| && Entries(script, p) == all[k..]
    ensures var t := TextFrom(script, p);
            if t == "" then k == |all|
            else k < |all| && t == all[k] && all[..k + 1] == all[..k] + [t]
                 && p + |t| + 1 < |script| && Terminated(script, p + |t| + 1)
                 && Entries(script, p + |t| + 1) == all[k + 1..]
  {
    var t := TextFrom(script, p);
    if t != "" {
      assert all[k..][0] == all[k];
      assert Entries(script, p)[1..] == all[k..][1..] == all[k + 1..];
    }
  }

  /** The script is a list of NUL-terminated entries closed by an empty one. */
  ghost predicate Terminated(script: seq<char>, p: nat)
    decreases |script| - p
  {
    p < |script| &&
    var t := TextFrom(script, p);
    p + |t| < |script| && (t != "" ==> Terminated(script, p + |t| + 1))
  }

  function Entries(script: seq<char>, p: nat): seq<CString>
    decreases |script| - p
  {
    if p >= |script| then []
    else
      var t := TextFrom(script, p);
      if t == "" then [] else [t] + Entries(script, p + |t| + 1)
  }

  /** A script as it is written: every line with its NUL, and an empty one. */
  function ScriptOf(lines: seq<CString>): seq<char> {
    if lines == [] then ['\0'] else lines[0] + ['\0'] + ScriptOf(lines[1..])
  }

  /** The entries of a written script are its lines. */
  lemma {:induction false} EntriesOfScript(lines: seq<CString>, script: seq<char>, p: nat)
    requires forall i :: 0 <= i < |lines| ==> lines[i] != ""
    requires p <= |script| && script[p..] == ScriptOf(lines)
    ensures Terminated(script, p) && Entries(script, p) == lines
    decreases |lines|
  {
    hide TextFrom;
    hide Entries;
    hide Terminated;
    if lines == [] {
      assert script[p..][0] == script[p];
      TextIs(script, p, "");
      EntriesUnfold(script, p, "");
    } else {
      var t := lines[0];
      FirstLine(t, ScriptOf(lines[1..]), script, p);
      hide ScriptOf;
      EntriesOfScript(lines[1..], script, p + |t| + 1);
      EntriesUnfold(script, p, t);
      HeadTail(lines);
    }
  }

  lemma EntriesUnfold(script: seq<char>, p: nat, t: CString)
    requires p + |t| < |script| && TextFrom(script, p) == t
    ensures Terminated(script, p) <==> (t != "" ==> Terminated(script, p + |t| + 1))
    ensures Entries(script, p) == if t == "" then [] else [t] + Entries(script, p + |t| + 1)
  {
    hide TextFrom;
  }

  lemma FirstLine(t: CString, more: seq<char>, script: seq<char>, p: nat)
    requires p <= |script| && script[p..] == t + ['\0'] + more
    ensures p + |t| < |script| && TextFrom(script, p) == t && script[p + |t| + 1..] == more
  {
    hide TextFrom;
    var n, rest := |t|, script[p..];
    assert rest[..n] == t && rest[n] == '\0' && rest[n + 1..] == more;
    assert script[p..p + n] == rest[..n] && script[p + n] == rest[n] && script[p + n + 1..] == rest[n + 1..];
    TextIs(script, p, t);
  }

  /** The lines among the inputs. */
  function Lines(inputs: seq<Option<CString>>): (r: seq<CString>)
    requires forall i :: 0 <= i < |inputs| ==> inputs[i].Some?
    ensures |r| == |inputs| && forall i :: 0 <= i < |r| ==> r[i] == inputs[i].value
  {
    seq(|inputs|, i requires 0 <= i < |inputs| => inputs[i].value)
  }

  lemma LinesSnoc(inputs: seq<Option<CString>>, n: nat)
    requires n < |inputs| && forall i :: 0 <= i <= n ==> inputs[i].Some?
    ensures Lines(inputs[..n + 1]) == Lines(inputs[..n]) + [inputs[n].value]
  {
  }
}
