/** What the register of a machine tells about the lines it has measured (stage2/cmdline.c), and what these tell about
    the commands it has run. A typed line is run as it stands and a line of a menu entry expanded, but both are
    measured as they stand. */
module Attestation {
  import opened Seqs
  import opened Commands
  import opened Variables
  import opened Cmdline

  /** Two machines with the same register value have measured the same lines, unless their own logs exhibit a broken
      hash or extend operation. */
  lemma EqualRegisters<Digest, Pcr>(a: Shell<Digest, Pcr>, b: Shell<Digest, Pcr>) returns (w: Weakness)
    requires a.Valid() && b.Valid() && a.world.tpmPresent && b.world.tpmPresent
    requires a.world.tpm == b.world.tpm && a.world.start == b.world.start && a.pcr == b.pcr
    ensures Measured(a.trace) == Measured(b.trace)
         || Shows(a.world.tpm, a.world.start, Measured(a.trace), Measured(b.trace), w)
  {
    w := EqualPcrEqualLogs(a.world.tpm, a.world.start, Measured(a.trace), Measured(b.trace));
  }

  // ---------------------------------------------------------------- what the log tells about the commands run

  /** A builtin run and the text it was run for; its argument is the rest of the text. */
  datatype Dispatch = Dispatch(builtin: Builtin, text: string)

  /** What is run for a text. */
  ghost function DispatchOf(table: seq<Builtin>, text: string): Option<Dispatch> {
    if Runs(table, text) then
      var b :| Allows(table, text, b);
      Some(Dispatch(b, text))
    else None
  }

  /** What was run for every measured line. */
  function Dispatched(trace: seq<Act>): seq<Option<Dispatch>> {
    if trace == [] then []
    else
      var front, last := Dispatched(trace[..|trace| - 1]), trace[|trace| - 1];
      if last.Measure? then front + [None]
      else if front == [] then []
      else front[..|front| - 1] + [Some(Dispatch(last.builtin, last.text))]
  }

  /** The texts to be run for the measured lines. */
  function Texts(trace: seq<Act>): (r: seq<CString>)
    ensures |r| == |Measured(trace)|
  {
    if trace == [] then []
    else Texts(trace[..|trace| - 1]) + if trace[|trace| - 1].Measure? then [trace[|trace| - 1].TextRun()] else []
  }

  /** What can be run for a measured line: the line itself if it was typed, or its expansion with any variables. */
  ghost predicate Possible(table: seq<Builtin>, line: CString, text: CString) {
    (text == line && Runs(table, line)) || exists vars: Vars :: text == Sprint(vars, line)
  }

  /** Whatever is run for the line, it is the same. */
  ghost predicate Settled(table: seq<Builtin>, line: CString) {
    forall text: CString :: Possible(table, line, text) ==>
      DispatchOf(table, text) == DispatchOf(table, Sprint(map[], line))
  }

  /** Every two faithful traces with this log have run the same commands. */
  ghost predicate Determined(table: seq<Builtin>, log: seq<CString>) {
    forall v, t, v', t' ::
      Faithful(table, v, t) && Faithful(table, v', t') && Measured(t) == log && Measured(t') == log ==>
      Dispatched(t) == Dispatched(t')
  }

  lemma FaithfulPrefix(table: seq<Builtin>, vars: Vars, trace: seq<Act>, n: nat)
    requires Faithful(table, vars, trace) && n < |trace| && trace[n].Measure?
    ensures Faithful(table, vars, trace[..n])
  {
    hide Runs;
    hide VarsAfter;
    hide Allows;
    var t := trace[..n];
    forall i | 0 <= i < n
      ensures FaithfulAt(table, vars, t, i)
    {
      assert FaithfulAt(table, vars, trace, i);
      assert t[..i] == trace[..i];
    }
  }

  /** The commands run are those of the texts, and the texts are possible for the lines. */
  ghost predicate Explained(table: seq<Builtin>, trace: seq<Act>) {
    && |Dispatched(trace)| == |Measured(trace)|
    && forall k :: 0 <= k < |Measured(trace)| ==> ExplainedAt(table, trace, k)
  }

  ghost predicate ExplainedAt(table: seq<Builtin>, trace: seq<Act>, k: nat)
    requires k < |Measured(trace)| == |Dispatched(trace)|
  {
    && '\0' !in Measured(trace)[k]
    && Possible(table, Measured(trace)[k], Texts(trace)[k])
    && Dispatched(trace)[k] == DispatchOf(table, Texts(trace)[k])
  }

  lemma TextsSnoc(trace: seq<Act>, a: Act)
    ensures Texts(trace + [a]) == if a.Measure? then Texts(trace) + [a.TextRun()] else Texts(trace)
  {
    assert (trace + [a])[..|trace|] == trace;
  }

  lemma DispatchedSnoc(trace: seq<Act>, a: Act)
    ensures Dispatched(trace + [a]) ==
      var front := Dispatched(trace);
      if a.Measure? then front + [None]
      else if front == [] then []
      else front[..|front| - 1] + [Some(Dispatch(a.builtin, a.text))]
  {
    assert (trace + [a])[..|trace|] == trace;
  }

  lemma DispatchIs(table: seq<Builtin>, text: string, b: Builtin)
    requires Allows(table, text, b)
    ensures DispatchOf(table, text) == Some(Dispatch(b, text))
  {
    assert Runs(table, text);
    var c := DispatchOf(table, text).value.builtin;
    NamesUnique(table, text, Some(b), Some(c));
  }

  /** One more measured line, run or not. */
  lemma ExplainedSnoc(table: seq<Builtin>, trace: seq<Act>, m: Act, t: seq<Act>)
    requires Explained(table, trace) && m.Measure? && (!m.script ==> Runs(table, m.line))
    requires Measured(t) == Measured(trace) + [m.line] && Texts(t) == Texts(trace) + [m.TextRun()]
    requires Dispatched(t) == Dispatched(trace) + [DispatchOf(table, m.TextRun())]
    ensures Explained(table, t)
  {
    hide Runs;
    hide DispatchOf;
    hide Sprint;
    hide Measured;
    hide Dispatched;
    hide Texts;
    var n := |Measured(trace)|;
    forall k | 0 <= k <= n
      ensures ExplainedAt(table, t, k)
    {
      if k < n {
        assert ExplainedAt(table, trace, k);
      } else {
        assert Measured(t)[n] == m.line && Texts(t)[n] == m.TextRun();
      }
    }
  }

  /** A faithful trace is explained by its texts. */
  lemma {:induction false} FaithfulExplained(table: seq<Builtin>, vars: Vars, trace: seq<Act>)
    requires Faithful(table, vars, trace)
    ensures Explained(table, trace)
    decreases |trace|
  {
    if trace != [] {
      hide Measured;
      hide Dispatched;
      hide Texts;
      hide Runs;
      hide Allows;
      hide VarsAfter;
      hide DispatchOf;
      hide Explained;
      var n := |trace| - 1;
      assert FaithfulAt(table, vars, trace, n);
      if trace[n].Measure? {
        ExplainIdle(table, vars, trace);
      } else {
        ExplainRun(table, vars, trace);
      }
    }
  }

  lemma {:induction false} ExplainIdle(table: seq<Builtin>, vars: Vars, trace: seq<Act>)
    requires Faithful(table, vars, trace) && trace != [] && trace[|trace| - 1].Measure?
    ensures Explained(table, trace)
    decreases |trace|, 0
  {
    hide Measured;
    hide Dispatched;
    hide Texts;
    hide VarsAfter;
    hide Explained;
    var n := |trace| - 1;
    var front, m := trace[..n], trace[n];
    assert FaithfulAt(table, vars, trace, n) && trace == front + [m];
    FaithfulPrefix(table, vars, trace, n);
    FaithfulExplained(table, vars, front);
    MeasuredSnoc(front, m);
    TextsSnoc(front, m);
    DispatchedSnoc(front, m);
    ExplainedSnoc(table, front, m, trace);
  }

  lemma {:induction false} ExplainRun(table: seq<Builtin>, vars: Vars, trace: seq<Act>)
    requires Faithful(table, vars, trace) && trace != [] && trace[|trace| - 1].Run?
    ensures Explained(table, trace)
    decreases |trace|, 0
  {
    hide Measured;
    hide Dispatched;
    hide Texts;
    hide VarsAfter;
    hide Explained;
    hide Allows;
    hide Runs;
    hide DispatchOf;
    var n := |trace| - 1;
    assert FaithfulAt(table, vars, trace, n) && FaithfulAt(table, vars, trace, n - 1);
    var front, m, r := trace[..n - 1], trace[n - 1], trace[n];
    assert trace == front + [m] + [r];
    FaithfulPrefix(table, vars, trace, n - 1);
    FaithfulExplained(table, vars, front);
    MeasuredSnoc(front, m);
    MeasuredSnoc(front + [m], r);
    TextsSnoc(front, m);
    TextsSnoc(front + [m], r);
    DispatchedSnoc(front, m);
    DispatchedSnoc(front + [m], r);
    PartsOfConcat(Dispatched(front), [None]);
    DispatchIs(table, r.text, r.builtin);
    ExplainedSnoc(table, front, m, trace);
  }

  /** A faithful trace with a given log: every line a menu entry's, but one typed if wished, and the same variables
      throughout. */
  lemma {:induction false} TraceOf(table: seq<Builtin>, vars: Vars, log: seq<CString>, typed: int) returns (t: seq<Act>)
    requires 0 <= typed < |log| ==> Runs(table, log[typed])
    ensures Faithful(table, vars, t) && VarsAfter(vars, t) == vars && Measured(t) == log
    ensures Texts(t) == TextsFor(vars, log, typed)
    decreases |log|
  {
    hide Sprint;
    hide Measured;
    hide Texts;
    hide Faithful;
    hide VarsAfter;
    hide Runs;
    if log == [] {
      t := [];
      NoActs(table, vars);
    } else {
      var n := |log| - 1;
      var front := TraceOf(table, vars, log[..n], typed);
      t := TraceMore(table, vars, front, log[n], n == typed);
      assert log == log[..n] + [log[n]];
      assert TextsFor(vars, log, typed) == TextsFor(vars, log[..n], typed) + [TextFor(vars, log[n], n == typed)];
    }
  }

  /** The text run for a line that is typed, or a menu entry's. */
  function TextFor(vars: Vars, line: CString, typed: bool): CString {
    if typed then line else Sprint(vars, line)
  }

  function TextsFor(vars: Vars, log: seq<CString>, typed: int): (r: seq<CString>)
    ensures |r| == |log| && forall k :: 0 <= k < |log| ==> r[k] == TextFor(vars, log[k], k == typed)
  {
    seq(|log|, k requires 0 <= k < |log| => TextFor(vars, log[k], k == typed))
  }

  lemma NoActs(table: seq<Builtin>, vars: Vars)
    ensures Faithful(table, vars, []) && VarsAfter(vars, []) == vars && Measured([]) == [] && Texts([]) == []
  {
  }

  /** The same with one more line. */
  lemma TraceMore(table: seq<Builtin>, vars: Vars, front: seq<Act>, line: CString, typed: bool) returns (t: seq<Act>)
    requires Faithful(table, vars, front) && VarsAfter(vars, front) == vars && (typed ==> Runs(table, line))
    ensures Faithful(table, vars, t) && VarsAfter(vars, t) == vars && Measured(t) == Measured(front) + [line]
    ensures Texts(t) == Texts(front) + [TextFor(vars, line, typed)]
  {
    hide Sprint;
    hide Measured;
    hide Texts;
    hide Faithful;
    hide VarsAfter;
    hide Allows;
    var m := Measure(line, !typed, vars);
    MeasuredSnoc(front, m);
    TextsSnoc(front, m);
    VarsSnoc(vars, front, m);
    t := front + [m];
    if Runs(table, m.TextRun()) {
      var b :| Allows(table, m.TextRun(), b);
      var r := Run(b, m.TextRun(), Argument(m.TextRun()), Returns(ErrNone, false, vars));
      FaithfulStep(table, vars, front, m, b, r.effect);
      MeasuredSnoc(t, r);
      TextsSnoc(t, r);
      VarsSnoc(vars, t, r);
      t := t + [r];
    } else {
      FaithfulIdle(table, vars, front, m);
    }
  }

  /** The log tells which commands were run exactly when each of its lines does. */
  lemma DeterminedIff(table: seq<Builtin>, log: seq<CString>)
    ensures Determined(table, log) <==> forall k :: 0 <= k < |log| ==> Settled(table, log[k])
  {
    if forall k :: 0 <= k < |log| ==> Settled(table, log[k]) {
      SettledDetermines(table, log);
    }
    if Determined(table, log) {
      forall k | 0 <= k < |log|
        ensures Settled(table, log[k])
      {
        DeterminedSettles(table, log, k);
      }
    }
  }

  lemma SettledDetermines(table: seq<Builtin>, log: seq<CString>)
    requires forall k :: 0 <= k < |log| ==> Settled(table, log[k])
    ensures Determined(table, log)
  {
    hide Sprint;
    hide DispatchOf;
    hide Faithful;
    hide Measured;
    hide Dispatched;
    hide Texts;
    hide Possible;
    forall v, t, v', t' |
      Faithful(table, v, t) && Faithful(table, v', t') && Measured(t) == log && Measured(t') == log
      ensures Dispatched(t) == Dispatched(t')
    {
      FaithfulExplained(table, v, t);
      FaithfulExplained(table, v', t');
      forall k | 0 <= k < |log|
        ensures Dispatched(t)[k] == Dispatched(t')[k]
      {
        assert ExplainedAt(table, t, k) && ExplainedAt(table, t', k) && Settled(table, log[k]);
      }
    }
  }

  lemma DeterminedSettles(table: seq<Builtin>, log: seq<CString>, k: nat)
    requires Determined(table, log) && k < |log|
    ensures Settled(table, log[k])
  {
    hide Sprint;
    hide DispatchOf;
    hide Faithful;
    hide Measured;
    hide Dispatched;
    hide Texts;
    var line := log[k];
    var t := TraceOf(table, map[], log, -1);
    FaithfulExplained(table, map[], t);
    assert ExplainedAt(table, t, k);
    forall text: CString | Possible(table, line, text)
      ensures DispatchOf(table, text) == DispatchOf(table, Sprint(map[], line))
    {
      var v: Vars := map[];
      var typed: int := -1;
      if text == line && Runs(table, line) {
        typed := k;
      } else {
        v :| text == Sprint(v, line);
      }
      var t' := TraceOf(table, v, log, typed);
      FaithfulExplained(table, v, t');
      assert ExplainedAt(table, t', k);
    }
  }

  /** A line that can be run as it stands tells what was run exactly when it refers to no variable: otherwise it may
      have been typed, or expanded. */
  lemma SettledIff(table: seq<Builtin>, line: CString)
    requires Runs(table, line)
    ensures Settled(table, line) <==> !HasReference(line)
  {
    hide Sprint;
    hide HasReference;
    UnchangedIff(line);
    if HasReference(line) {
      EmptyChanges(line);
      assert Possible(table, line, line);
    }
  }

  /** A line that cannot be run as it stands tells what was run exactly when no expansion of it is ever run, or all its
      expansions are the same. */
  lemma ExpandedSettledIff(table: seq<Builtin>, line: CString)
    requires !Runs(table, line)
    ensures Settled(table, line) <==>
      || (forall vars: Vars :: !Runs(table, Sprint(vars, line)))
      || (forall vars: Vars :: Sprint(vars, line) == Sprint(map[], line))
  {
    hide Sprint;
    hide Runs;
    hide DispatchOf;
    var plain := Sprint(map[], line);
    forall vars: Vars
      ensures DispatchTells(table, Sprint(vars, line), plain) && Possible(table, line, Sprint(vars, line))
    {
      SameDispatch(table, Sprint(vars, line), plain);
    }
    if Settled(table, line) {
      forall vars: Vars
        ensures Runs(table, Sprint(vars, line)) ==> Sprint(vars, line) == plain
        ensures Runs(table, Sprint(vars, line)) <==> Runs(table, plain)
      {
        assert DispatchTells(table, Sprint(vars, line), plain) && Possible(table, line, Sprint(vars, line));
      }
    }
  }

  /** Two texts run the same command exactly when they are the same or neither is run. */
  ghost predicate DispatchTells(table: seq<Builtin>, a: string, b: string) {
    DispatchOf(table, a) == DispatchOf(table, b) <==> a == b || (!Runs(table, a) && !Runs(table, b))
  }

  lemma SameDispatch(table: seq<Builtin>, a: string, b: string)
    ensures DispatchTells(table, a, b)
  {
    hide Allows;
  }

  /** The first word of `line` is followed by a blank and free of `$`. */
  ghost predicate PlainCommand(line: string) {
    '$' !in CommandName(line) && |CommandName(line)| < |line|
  }

  /** Expansion leaves a plain command alone. */
  lemma CommandStays(vars: Vars, line: CString)
    requires PlainCommand(line)
    ensures CommandName(Sprint(vars, line)) == CommandName(line)
  {
    WordIsLongest(line, true);
    hide Word;
    hide Rounds;
    var name := CommandName(line);
    var start := line[..|name| + 1];
    assert start == name + [line[|name|]];
    StartStays(vars, line, start, 10);
    var text := Sprint(vars, line);
    assert text[..|start|] == start;
    WordAhead(text, name);
  }

  /** The first word is what stands before the first blank. */
  lemma WordAhead(text: string, name: string)
    requires |name| < |text| && text[..|name|] == name && IsBlank(text[|name|], true)
    requires forall i :: 0 <= i < |name| ==> !IsBlank(name[i], true)
    ensures CommandName(text) == name
  {
    WordIsLongest(text, true);
    var w := Word(text, true);
    hide Word;
    assert forall i :: 0 <= i < |name| ==> text[i] == name[i];
  }

  lemma RunsByName(table: seq<Builtin>, a: string, b: string)
    requires CommandName(a) == CommandName(b)
    ensures Runs(table, a) <==> Runs(table, b)
  {
    hide Word;
    hide Reaches;
    assert forall x :: Allows(table, a, x) <==> Allows(table, b, x);
  }

  /** A line whose first word is plain tells what was run exactly when it refers to no variable or is not run at all. */
  lemma PlainCommandSettledIff(table: seq<Builtin>, line: CString)
    requires PlainCommand(line)
    ensures Settled(table, line) <==> !HasReference(line) || !Runs(table, line)
  {
    hide Sprint;
    hide Runs;
    hide HasReference;
    hide Word;
    if Runs(table, line) {
      SettledIff(table, line);
    } else {
      forall vars: Vars
        ensures !Runs(table, Sprint(vars, line))
      {
        CommandStays(vars, line);
        RunsByName(table, Sprint(vars, line), line);
      }
      ExpandedSettledIff(table, line);
    }
  }

  /** A line that begins with a reference tells nothing, if there is any command to run: the variable may have held
      it. */
  lemma LeadingReferenceHides(table: seq<Builtin>, line: CString, command: CString)
    requires RefersAt(line, 0) && line[2..CloseAt(line, 2)] != ""
    requires Runs(table, command) && CommandName(command) == command != "" && '$' !in command
    ensures !Settled(table, line)
  {
    var name := line[2..CloseAt(line, 2)];
    var v, v' := map[name := command + " "], map[name := " "];
    ValueFirst(line, command + " ");
    ValueFirst(line, " ");
    WordIsLongest(command, true);
    hide Sprint;
    hide Word;
    var a, b := Sprint(v, line), Sprint(v', line);
    assert a[..|command|] == a[..|command + " "|][..|command|] == command;
    assert a[|command|] == a[..|command + " "|][|command|];
    WordAhead(a, command);
    RunsByName(table, a, command);
    assert a[0] == command[0] && b[0] == b[..1][0] == ' ';
    if Runs(table, line) {
      ReferenceStarts(line);
      assert RefersAt(line, 0);
      SettledIff(table, line);
    } else {
      ExpandedSettledIff(table, line);
    }
  }

  /** The log does not tell whether `kernel $(k)` was typed or came from a menu entry, nor the kernel in that case. */
  lemma LogHidesTheKernel()
    ensures !Determined([Builtin("kernel", true)], ["kernel $(k)"])
  {
    hide Determined;
    hide HasReference;
    hide Runs;
    KernelRuns();
    KernelRefers();
    SettledIff([Builtin("kernel", true)], "kernel $(k)");
    DeterminedIff([Builtin("kernel", true)], ["kernel $(k)"]);
    assert ["kernel $(k)"][0] == "kernel $(k)";
  }

  lemma KernelRuns()
    ensures Runs([Builtin("kernel", true)], "kernel $(k)")
  {
    var table := [Builtin("kernel", true)];
    KernelIsNamed();
    assert Reaches(table, "kernel", 0);
    assert Allows(table, "kernel $(k)", table[0]);
  }

  lemma KernelRefers()
    ensures HasReference("kernel $(k)")
  {
    var line := "kernel $(k)";
    assert line[7] == '$' && line[7 + 1] == '(' && line[10] == ')';
  }

  lemma KernelIsNamed()
    ensures CommandName("kernel $(k)") == "kernel"
  {
    var line := "kernel $(k)";
    WordIsLongest(line, true);
    var w := Word(line, true);
    hide Word;
    assert |w| == 6 by {
      assert line[6] == ' ';
      assert forall i :: 0 <= i < 6 ==> !IsBlank(line[i], true);
    }
    assert line[..6] == "kernel";
  }

  /** Machines with equal registers have run the same commands, if no line of the log refers to a variable and their
      logs do not exhibit a broken hash or extend operation. */
  lemma AttestedRuns<Digest, Pcr>(a: Shell<Digest, Pcr>, b: Shell<Digest, Pcr>, log: seq<CString>) returns (w: Weakness)
    requires a.Valid() && b.Valid() && a.world.tpmPresent && b.world.tpmPresent && a.world.table == b.world.table
    requires a.world.tpm == b.world.tpm && a.world.start == b.world.start && a.pcr == b.pcr
    requires Measured(a.trace) == log && forall k :: 0 <= k < |log| ==> !HasReference(log[k])
    ensures Dispatched(a.trace) == Dispatched(b.trace)
         || Shows(a.world.tpm, a.world.start, Measured(a.trace), Measured(b.trace), w)
  {
    w := EqualRegisters(a, b);
    forall k | 0 <= k < |log|
      ensures Settled(a.world.table, log[k])
    {
      UnchangedIff(log[k]);
    }
    DeterminedIff(a.world.table, log);
  }
}
