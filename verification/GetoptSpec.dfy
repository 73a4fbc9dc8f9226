/** What getopt (lib/getopt.c) is meant to return, as a left-to-right reading of an argument list that is
    never permuted. Section 12.2 of the POSIX.1 Base Definitions and the comments of the source fix the
    rules; `Getopt.dfy` proves that the resumable scanner follows them.

    Option strings starting with `+` or `-` and the `W;` extension are excluded. */
module GetoptSpec {
  import opened Seqs

  /** struct option; `flag` says whether its flag pointer is set. */
  datatype LongOption = LongOption(name: string, hasArg: int, flag: bool, val: int)

  datatype Config = Config(optstring: string, longopts: Option<seq<LongOption>>, longOnly: bool)

  datatype Ordering = RequireOrder | Permute

  /** One call's answer: the return value, optarg, the index stored through longind (and, when the option
      has a flag, the store through it), and the value stored in optopt by an error. */
  datatype Event = Event(ret: int, optarg: Option<string>, longind: Option<nat>, optopt: Option<int>)

  predicate Supported(cfg: Config) {
    && (|cfg.optstring| > 0 ==> cfg.optstring[0] != '-' && cfg.optstring[0] != '+')
    && forall i :: 0 <= i < |cfg.optstring| - 1 && cfg.optstring[i] == 'W' ==> cfg.optstring[i + 1] != ';'
  }

  function CharAt(s: string, i: nat): char {
    if i < |s| then s[i] else '\0'
  }

  predicate NonOption(s: string) {
    CharAt(s, 0) != '-' || |s| == 1
  }

  predicate IsOptionElement(s: string) {
    !NonOption(s) && s != "--"
  }

  /** The first position of `c` in `s`, or |s|. */
  function IndexOf(s: string, c: char): (i: nat)
    ensures i <= |s| && (i < |s| ==> s[i] == c) && c !in s[..i]
  {
    if s == "" then 0
    else if s[0] == c then 0
    else
      var i := 1 + IndexOf(s[1..], c);
      assert s[..i] == [s[0]] + s[1..][..i - 1];
      i
  }

  // ---------------------------------------------------------------- long options

  datatype Match = Found(index: nat) | Ambiguous | Unknown

  /** The first option whose name is exactly `name`. */
  function FirstExact(table: seq<LongOption>, name: string): (r: Option<nat>)
    ensures r.Some? ==> r.value < |table| && table[r.value].name == name
  {
    if table == [] then None
    else if table[0].name == name then Some(0)
    else
      var r := FirstExact(table[1..], name);
      if r.None? then None else Some(r.value + 1)
  }

  predicate Abbreviates(name: string, o: LongOption) {
    name <= o.name
  }

  /** The indices, counted from `at`, of the options that `name` abbreviates. */
  function Abbreviated(table: seq<LongOption>, name: string, at: nat): (r: seq<nat>)
    ensures forall k :: 0 <= k < |r| ==> at <= r[k] < at + |table| && Abbreviates(name, table[r[k] - at])
  {
    if table == [] then []
    else (if Abbreviates(name, table[0]) then [at] else []) + Abbreviated(table[1..], name, at + 1)
  }

  /** The rule for long option names: an exact match wins, otherwise a unique abbreviation. */
  function Lookup(table: seq<LongOption>, name: string): (r: Match)
    ensures r.Found? ==> r.index < |table|
  {
    var exact := FirstExact(table, name);
    var near := Abbreviated(table, name, 0);
    if exact.Some? then Found(exact.value)
    else if near == [] then Unknown
    else if |near| == 1 then Found(near[0])
    else Ambiguous
  }

  /** The rule in its declarative form: the first exact match if there is one, otherwise the only option the
      name abbreviates; several make it ambiguous and none unknown. */
  ghost predicate FollowsRule(table: seq<LongOption>, name: string, r: Match) {
    if exists i :: 0 <= i < |table| && table[i].name == name then
      && r.Found? && r.index < |table| && table[r.index].name == name
      && (forall k :: 0 <= k < r.index ==> table[k].name != name)
    else AbbreviationRule(table, name, r)
  }

  ghost predicate AbbreviationRule(table: seq<LongOption>, name: string, r: Match) {
    match r
    case Unknown => forall k :: 0 <= k < |table| ==> !Abbreviates(name, table[k])
    case Ambiguous =>
      exists k, l :: 0 <= k < l < |table| && Abbreviates(name, table[k]) && Abbreviates(name, table[l])
    case Found(i) =>
      i < |table| && forall k :: 0 <= k < |table| ==> (Abbreviates(name, table[k]) <==> k == i)
  }

  lemma LookupFollowsRule(table: seq<LongOption>, name: string)
    ensures FollowsRule(table, name, Lookup(table, name))
  {
    hide FirstExact;
    hide AbbreviationRule;
    hide Abbreviated;
    ExactRule(table, name);
    if FirstExact(table, name).None? {
      AbbreviationFollowsRule(table, name);
    }
  }

  lemma AbbreviationFollowsRule(table: seq<LongOption>, name: string)
    requires FirstExact(table, name).None?
    ensures AbbreviationRule(table, name, Lookup(table, name))
  {
    hide FirstExact;
    hide Abbreviates;
    hide Abbreviated;
    var near := Abbreviated(table, name, 0);
    forall k | 0 <= k < |table| && Abbreviates(name, table[k])
      ensures k in near
    {
      NearComplete(table, name, 0, k);
    }
    NearSorted(table, name, 0);
    if |near| > 1 {
      assert near[0] < near[1] && Abbreviates(name, table[near[0]]) && Abbreviates(name, table[near[1]]);
    } else if |near| == 1 {
      assert Abbreviates(name, table[near[0]]);
    }
  }

  lemma {:induction false} ExactRule(table: seq<LongOption>, name: string)
    ensures var r := FirstExact(table, name);
            && (r.None? ==> forall k :: 0 <= k < |table| ==> table[k].name != name)
            && (r.Some? ==> forall k :: 0 <= k < r.value ==> table[k].name != name)
  {
    if table != [] {
      ExactRule(table[1..], name);
      assert forall k :: 1 <= k < |table| ==> table[k] == table[1..][k - 1];
    }
  }

  lemma {:induction false} NearComplete(table: seq<LongOption>, name: string, at: nat, k: nat)
    requires k < |table| && Abbreviates(name, table[k])
    ensures at + k in Abbreviated(table, name, at)
    decreases k
  {
    if k > 0 {
      NearComplete(table[1..], name, at + 1, k - 1);
    }
  }

  ghost predicate Increasing(r: seq<nat>) {
    forall k, l :: 0 <= k < l < |r| ==> r[k] < r[l]
  }

  lemma {:induction false} NearSorted(table: seq<LongOption>, name: string, at: nat)
    ensures Increasing(Abbreviated(table, name, at))
  {
    if table != [] {
      NearSorted(table[1..], name, at + 1);
      var tail := Abbreviated(table[1..], name, at + 1);
      if Abbreviates(name, table[0]) {
        IncreasingCons(at, tail);
      } else {
        assert [] + tail == tail;
      }
    }
  }

  lemma IncreasingCons(x: nat, r: seq<nat>)
    requires Increasing(r) && forall k :: 0 <= k < |r| ==> x < r[k]
    ensures Increasing([x] + r)
  {
  }

  // ---------------------------------------------------------------- one option

  /** The result of decoding one option: the answer, by how many elements optind moves, what is left of the
      element, and whether a required argument was missing. */
  datatype Decoded = Decoded(ev: Event, used: nat, rest: string, missing: bool)

  /** What every decoding step satisfies. */
  predicate Shape(d: Decoded, size: nat, next: Option<string>) {
    && d.used <= (if next.Some? then 2 else 1)
    && (d.used == 0 <==> d.rest != "") && |d.rest| < size
    && (d.missing ==> next.None? && d.used == 1)
  }

  function ErrorEvent(ret: char, optopt: int): Event {
    Event(ret as int, None, None, Some(optopt))
  }

  /** What a missing argument is reported as. */
  function MissingChar(cfg: Config): char {
    if CharAt(cfg.optstring, 0) == ':' then ':' else '?'
  }

  /** A long option that has been found, with the text after `=` if any. */
  function DecodeLong(cfg: Config, o: LongOption, index: nat, value: Option<string>, next: Option<string>): (d: Decoded)
    ensures Shape(d, 1, next)
  {
    if value.Some? && o.hasArg == 0 then Decoded(ErrorEvent('?', o.val), 1, "", false)
    else if value.None? && o.hasArg == 1 && next.None? then
      Decoded(ErrorEvent(MissingChar(cfg), o.val), 1, "", true)
    else
      var ret := if o.flag then 0 else o.val;
      if value.None? && o.hasArg == 1 then Decoded(Event(ret, next, Some(index), None), 2, "", false)
      else Decoded(Event(ret, value, Some(index), None), 1, "", false)
  }

  function DecodeShort(cfg: Config, nc: string, next: Option<string>): (d: Decoded)
    requires nc != ""
    ensures Shape(d, |nc|, next)
  {
    var c := nc[0];
    var rest := nc[1..];
    var used := if rest == "" then 1 else 0;
    var i := IndexOf(cfg.optstring, c);
    if i == |cfg.optstring| || c == ':' then Decoded(ErrorEvent('?', c as int), used, rest, false)
    else if CharAt(cfg.optstring, i + 1) != ':' then
      Decoded(Event(c as int, None, None, None), used, rest, false)
    else if rest != "" then Decoded(Event(c as int, Some(rest), None, None), 1, "", false)
    else if CharAt(cfg.optstring, i + 2) == ':' then
      Decoded(Event(c as int, None, None, None), 1, "", false)
    else if next.None? then Decoded(ErrorEvent(MissingChar(cfg), c as int), 1, "", true)
    else Decoded(Event(c as int, next, None, None), 2, "", false)
  }

  /** Whether the element is to be tried as a long option. */
  predicate TriesLong(cfg: Config, el: string) {
    cfg.longopts.Some? &&
    (CharAt(el, 1) == '-' ||
     (cfg.longOnly && (CharAt(el, 2) != '\0' || CharAt(el, 1) !in cfg.optstring)))
  }

  /** One option read from the element `el`, of which `nc` is still to be scanned; `next` is the element that
      follows. */
  function Decode(cfg: Config, el: string, nc: string, next: Option<string>): (d: Decoded)
    requires nc != ""
    ensures Shape(d, |nc|, next)
  {
    if TriesLong(cfg, el) then
      var k := IndexOf(nc, '=');
      var value := if k < |nc| then Some(nc[k + 1..]) else None;
      match Lookup(cfg.longopts.value, nc[..k])
      case Found(i) => DecodeLong(cfg, cfg.longopts.value[i], i, value, next)
      case Ambiguous => Decoded(ErrorEvent('?', 0), 1, "", false)
      case Unknown =>
        if !cfg.longOnly || CharAt(el, 1) == '-' || nc[0] !in cfg.optstring then
          Decoded(ErrorEvent('?', 0), 1, "", false)
        else DecodeShort(cfg, nc, next)
    else DecodeShort(cfg, nc, next)
  }

  /** Unless a required argument is involved, what follows the element does not matter. */
  lemma DecodeIgnoresNext(cfg: Config, el: string, nc: string, next: Option<string>, other: Option<string>)
    requires nc != ""
    requires var d := Decode(cfg, el, nc, next); d.used < 2 && !d.missing
    ensures Decode(cfg, el, nc, other) == Decode(cfg, el, nc, next)
  {
  }

  /** A missing argument is noticed: with something to take, the answer differs. */
  lemma MissingNeedsNext(cfg: Config, el: string, nc: string, other: string)
    requires nc != "" && Decode(cfg, el, nc, None).missing
    ensures Decode(cfg, el, nc, Some(other)).ev != Decode(cfg, el, nc, None).ev
    ensures Decode(cfg, el, nc, Some(other)).used == 2
  {
  }

  // ---------------------------------------------------------------- a whole argument list

  /** The answers for a list of arguments, and for every argument whether it belongs to the options (an
      option element, an argument it took, or the `--`). */
  datatype Parsed = Parsed(events: seq<Event>, flags: seq<bool>, missing: bool)

  function Prepend(events: seq<Event>, flags: seq<bool>, p: Parsed): Parsed {
    Parsed(events + p.events, flags + p.flags, p.missing)
  }

  function NextOf(args: seq<string>, i: nat): Option<string> {
    if i + 1 < |args| then Some(args[i + 1]) else None
  }

  /** What remains of a fresh option element after its dashes. */
  function Body(cfg: Config, el: string): (nc: string)
    requires IsOptionElement(el)
    ensures nc != ""
  {
    if cfg.longopts.Some? && el[1] == '-' then el[2..] else el[1..]
  }

  /** The arguments from `i` on, `nc` being what is left of argument `i` if it is already being scanned. */
  function ParseFrom(cfg: Config, ord: Ordering, args: seq<string>, i: nat, nc: string): (p: Parsed)
    requires i <= |args| && (nc != "" ==> i < |args|)
    ensures |p.flags| == |args| - i
    decreases |args| - i, if nc != "" then |nc| else if i < |args| then |args[i]| else 0
  {
    if nc != "" then
      var d := Decode(cfg, args[i], nc, NextOf(args, i));
      var p := Prepend([d.ev], Const(true, d.used), ParseFrom(cfg, ord, args, i + d.used, d.rest));
      p.(missing := p.missing || d.missing)
    else if i == |args| then Parsed([], [], false)
    else if NonOption(args[i]) then
      if ord == RequireOrder then Parsed([], Const(false, |args| - i), false)
      else Prepend([], [false], ParseFrom(cfg, ord, args, i + 1, ""))
    else if args[i] == "--" then Parsed([], [true] + Const(false, |args| - i - 1), false)
    else
      var b := Body(cfg, args[i]);
      var d := Decode(cfg, args[i], b, NextOf(args, i));
      var p := Prepend([d.ev], Const(true, d.used), ParseFrom(cfg, ord, args, i + d.used, d.rest));
      p.(missing := p.missing || d.missing)
  }

  lemma ParseNonOption(cfg: Config, args: seq<string>, i: nat)
    requires i < |args| && NonOption(args[i])
    ensures ParseFrom(cfg, Permute, args, i, "") == Prepend([], [false], ParseFrom(cfg, Permute, args, i + 1, ""))
  {
  }

  function Parse(cfg: Config, ord: Ordering, args: seq<string>, i: nat): Parsed
    requires i <= |args|
  {
    ParseFrom(cfg, ord, args, i, "")
  }

  /** The elements of `s` marked `b`, in order. */
  function Select<T>(s: seq<T>, flags: seq<bool>, b: bool): (r: seq<T>)
    requires |s| == |flags|
    ensures |r| <= |s|
    decreases |s|
  {
    if s == [] then [] else (if flags[0] == b then [s[0]] else []) + Select(s[1..], flags[1..], b)
  }

  /** The arguments with all that belongs to the options in front: the stable partition getopt promises. */
  function Partition(args: seq<string>, i: nat, flags: seq<bool>): seq<string>
    requires i <= |args| && |flags| == |args| - i
  {
    args[..i] + Select(args[i..], flags, true) + Select(args[i..], flags, false)
  }

  lemma {:induction false} SelectConcat<T>(s: seq<T>, f: seq<bool>, t: seq<T>, g: seq<bool>, b: bool)
    requires |s| == |f| && |t| == |g|
    ensures Select(s + t, f + g, b) == Select(s, f, b) + Select(t, g, b)
    decreases |s|
  {
    if s == [] {
      assert s + t == t && f + g == g;
    } else {
      assert (s + t)[1..] == s[1..] + t && (f + g)[1..] == f[1..] + g;
      SelectConcat(s[1..], f[1..], t, g, b);
    }
  }

  lemma {:induction false} SelectConst<T>(s: seq<T>, c: bool, b: bool)
    ensures Select(s, Const(c, |s|), b) == if c == b then s else []
    decreases |s|
  {
    if s != [] {
      assert Const(c, |s|)[1..] == Const(c, |s[1..]|);
      SelectConst(s[1..], c, b);
    }
  }

  /** Partitioning only permutes. */
  lemma {:induction false} SelectPermutes<T>(s: seq<T>, f: seq<bool>)
    requires |s| == |f|
    ensures multiset(Select(s, f, true) + Select(s, f, false)) == multiset(s)
    decreases |s|
  {
    if s != [] {
      assert s == [s[0]] + s[1..];
      SelectPermutes(s[1..], f[1..]);
    }
  }

  lemma PartitionPermutes(args: seq<string>, i: nat, flags: seq<bool>)
    requires i <= |args| && |flags| == |args| - i
    ensures multiset(Partition(args, i, flags)) == multiset(args)
  {
    SelectPermutes(args[i..], flags);
    assert args == args[..i] + args[i..];
    assert Partition(args, i, flags)
        == args[..i] + (Select(args[i..], flags, true) + Select(args[i..], flags, false));
  }

  /** Scanning a fresh option element is scanning its body. */
  lemma ParseBody(cfg: Config, ord: Ordering, args: seq<string>, i: nat)
    requires i < |args| && IsOptionElement(args[i])
    ensures ParseFrom(cfg, ord, args, i, "") == ParseFrom(cfg, ord, args, i, Body(cfg, args[i]))
  {
  }

  // ---------------------------------------------------------------- scanning the permuted list again

  function CountTrue(flags: seq<bool>): nat {
    if flags == [] then 0 else (if flags[0] then 1 else 0) + CountTrue(flags[1..])
  }

  lemma {:induction false} CountTrueConst(b: bool, n: nat)
    ensures CountTrue(Const(b, n)) == if b then n else 0
  {
    if n > 0 {
      assert Const(b, n)[1..] == Const(b, n - 1);
      CountTrueConst(b, n - 1);
    }
  }

  lemma {:induction false} CountTrueConcat(f: seq<bool>, g: seq<bool>)
    ensures CountTrue(f + g) == CountTrue(f) + CountTrue(g)
  {
    if f == [] {
      assert f + g == g;
    } else {
      assert (f + g)[1..] == f[1..] + g;
      CountTrueConcat(f[1..], g);
    }
  }

  ghost predicate AllNonOptions(s: seq<string>) {
    forall k :: 0 <= k < |s| ==> NonOption(s[k])
  }

  /** `args` is scanned from `i` (with `nc` left of the current element) in permuting mode; `again` is scanned
      from `j` in strict order. What `again` holds from `j` on is the option side of the rest of `args`,
      followed by the non-options `skipped` before and then by the non-options still to come. */
  ghost predicate Rearranged(cfg: Config, args: seq<string>, i: nat, nc: string, skipped: seq<string>,
                             again: seq<string>, j: nat)
  {
    && i <= |args| && (nc != "" ==> i < |args|) && j <= |again|
    && AllNonOptions(skipped)
    && var p := ParseFrom(cfg, Permute, args, i, nc);
       again[j..] == Select(args[i..], p.flags, true) + (skipped + Select(args[i..], p.flags, false))
  }

  /** Some non-option will end up behind an option that lacks its argument. */
  ghost predicate Steals(cfg: Config, args: seq<string>, i: nat, nc: string, skipped: seq<string>)
    requires i <= |args| && (nc != "" ==> i < |args|)
  {
    var p := ParseFrom(cfg, Permute, args, i, nc);
    p.missing && skipped + Select(args[i..], p.flags, false) != []
  }

  ghost predicate SameAnswers(cfg: Config, args: seq<string>, i: nat, nc: string, again: seq<string>, j: nat)
    requires i <= |args| && (nc != "" ==> i < |args|)
    requires j <= |again| && (nc != "" ==> j < |again|)
  {
    Agree(ParseFrom(cfg, Permute, args, i, nc), ParseFrom(cfg, RequireOrder, again, j, nc))
  }

  /** The same answers and equally many elements on the option side. */
  ghost predicate Agree(p: Parsed, q: Parsed) {
    p.events == q.events && CountTrue(p.flags) == CountTrue(q.flags)
  }

  lemma SelectSkip(args: seq<string>, i: nat, n: nat, flags: seq<bool>, c: bool, b: bool)
    requires i + n <= |args| && |flags| == |args| - i - n
    ensures Select(args[i..], Const(c, n) + flags, b)
         == (if c == b then args[i..i + n] else []) + Select(args[i + n..], flags, b)
  {
    assert args[i..] == args[i..i + n] + args[i + n..];
    SelectConcat(args[i..i + n], Const(c, n), args[i + n..], flags, b);
    SelectConst(args[i..i + n], c, b);
  }

  /** One decoding step inside an element, as ParseFrom takes it. */
  lemma ParseStep(cfg: Config, ord: Ordering, args: seq<string>, i: nat, nc: string)
    requires i < |args| && nc != ""
    ensures var d := Decode(cfg, args[i], nc, NextOf(args, i));
            var p := ParseFrom(cfg, ord, args, i, nc);
            var r := ParseFrom(cfg, ord, args, i + d.used, d.rest);
            && p.events == [d.ev] + r.events
            && p.flags == Const(true, d.used) + r.flags
            && p.missing == (r.missing || d.missing)
  {
    hide Decode;
    var d := Decode(cfg, args[i], nc, NextOf(args, i));
    var p := ParseFrom(cfg, ord, args, i, nc);
    var r := ParseFrom(cfg, ord, args, i + d.used, d.rest);
    assert p == Prepend([d.ev], Const(true, d.used), r).(missing := r.missing || d.missing);
    hide ParseFrom;
  }

  lemma {:induction false} FirstFlag(cfg: Config, ord: Ordering, args: seq<string>, i: nat, nc: string)
    requires i < |args| && nc != ""
    ensures ParseFrom(cfg, ord, args, i, nc).flags[0]
    decreases |nc|
  {
    ParseStep(cfg, ord, args, i, nc);
    var d := Decode(cfg, args[i], nc, NextOf(args, i));
    if d.used == 0 {
      FirstFlag(cfg, ord, args, i, d.rest);
    }
  }

  /** The element being scanned stands in front of the rearranged list. */
  lemma HeadMatches(cfg: Config, args: seq<string>, i: nat, nc: string, skipped: seq<string>,
                    again: seq<string>, j: nat)
    requires Rearranged(cfg, args, i, nc, skipped, again, j) && nc != ""
    ensures j < |again| && again[j] == args[i]
  {
    FirstFlag(cfg, Permute, args, i, nc);
    assert again[j..][0] == args[i..][0];
  }

  lemma SelectTaken(args: seq<string>, i: nat, n: nat, flags: seq<bool>, all: seq<bool>)
    requires i + n <= |args| && |flags| == |args| - i - n && all == Const(true, n) + flags
    ensures Select(args[i..], all, true) == args[i..i + n] + Select(args[i + n..], flags, true)
    ensures Select(args[i..], all, false) == Select(args[i + n..], flags, false)
  {
    SelectSkip(args, i, n, flags, true, true);
    SelectSkip(args, i, n, flags, true, false);
    hide Select;
    assert [] + Select(args[i + n..], flags, false) == Select(args[i + n..], flags, false);
  }

  /** Taking `n` option-side elements off both lists. */
  lemma TakeBoth(again: seq<string>, j: nat, args: seq<string>, i: nat, n: nat, flags: seq<bool>,
                 all: seq<bool>, skipped: seq<string>)
    requires i + n <= |args| && |flags| == |args| - i - n && j <= |again| && all == Const(true, n) + flags
    requires again[j..] == Select(args[i..], all, true) + (skipped + Select(args[i..], all, false))
    ensures j + n <= |again| && again[j..j + n] == args[i..i + n]
    ensures again[j + n..]
         == Select(args[i + n..], flags, true) + (skipped + Select(args[i + n..], flags, false))
    ensures Select(args[i..], all, false) == Select(args[i + n..], flags, false)
  {
    SelectTaken(args, i, n, flags, all);
    hide Select;
    hide Const;
    var t, f := Select(args[i + n..], flags, true), Select(args[i + n..], flags, false);
    TailOfConcat(again, j, args[i..i + n], t, skipped + f);
  }

  /** One decoding step keeps the two lists in correspondence. */
  lemma StepRearranged(cfg: Config, args: seq<string>, i: nat, nc: string, skipped: seq<string>,
                       again: seq<string>, j: nat, d: Decoded)
    requires Rearranged(cfg, args, i, nc, skipped, again, j) && nc != ""
    requires d == Decode(cfg, args[i], nc, NextOf(args, i))
    ensures j + d.used <= |again| && again[j..j + d.used] == args[i..i + d.used]
    ensures Rearranged(cfg, args, i + d.used, d.rest, skipped, again, j + d.used)
    ensures d.missing ==>
      && Steals(cfg, args, i, nc, skipped) == (skipped != [])
      && again[j + 1..] == skipped && !Steals(cfg, args, i + d.used, d.rest, skipped)
    ensures !d.missing ==> Steals(cfg, args, i, nc, skipped) == Steals(cfg, args, i + d.used, d.rest, skipped)
  {
    hide ParseFrom;
    hide Decode;
    hide Select;
    ParseStep(cfg, Permute, args, i, nc);
    var r := ParseFrom(cfg, Permute, args, i + d.used, d.rest);
    TakeBoth(again, j, args, i, d.used, r.flags, ParseFrom(cfg, Permute, args, i, nc).flags, skipped);
    if d.missing {
      EndOfList(cfg, args);
    }
  }

  lemma EndOfList(cfg: Config, args: seq<string>)
    ensures ParseFrom(cfg, Permute, args, |args|, "") == Parsed([], [], false)
    ensures Select(args[|args|..], [], true) == [] && Select(args[|args|..], [], false) == []
  {
  }

  /** Unless a non-option gets stolen, an element decodes the same in both lists. */
  lemma SameDecode(cfg: Config, args: seq<string>, i: nat, nc: string, skipped: seq<string>,
                   again: seq<string>, j: nat, d: Decoded)
    requires Rearranged(cfg, args, i, nc, skipped, again, j) && nc != ""
    requires d == Decode(cfg, args[i], nc, NextOf(args, i))
    requires !(d.missing && skipped != [])
    ensures Decode(cfg, args[i], nc, NextOf(again, j)) == d
  {
    StepRearranged(cfg, args, i, nc, skipped, again, j, d);
    hide Rearranged;
    if d.used == 2 {
      assert again[j..j + 2][1] == args[i..i + 2][1];
    } else if !d.missing {
      DecodeIgnoresNext(cfg, args[i], nc, NextOf(args, i), NextOf(again, j));
    } else {
      assert |again[j + 1..]| == 0;
    }
  }

  /** An option lacking its argument takes the non-option now behind it. */
  lemma StolenDecode(cfg: Config, args: seq<string>, i: nat, nc: string, skipped: seq<string>,
                     again: seq<string>, j: nat, d: Decoded)
    requires Rearranged(cfg, args, i, nc, skipped, again, j) && nc != ""
    requires d == Decode(cfg, args[i], nc, NextOf(args, i))
    requires d.missing && skipped != []
    ensures Decode(cfg, args[i], nc, NextOf(again, j)).ev != d.ev
  {
    StepRearranged(cfg, args, i, nc, skipped, again, j, d);
    hide Rearranged;
    assert again[j + 1..][0] == again[j + 1] == skipped[0];
    MissingNeedsNext(cfg, args[i], nc, skipped[0]);
  }

  /** The induction behind `RescanAgrees`. */
  lemma {:induction false} RescanFrom(cfg: Config, args: seq<string>, i: nat, nc: string, skipped: seq<string>,
                                      again: seq<string>, j: nat)
    requires Rearranged(cfg, args, i, nc, skipped, again, j)
    ensures nc != "" ==> j < |again|
    ensures SameAnswers(cfg, args, i, nc, again, j) <==> !Steals(cfg, args, i, nc, skipped)
    decreases |args| - i, if nc != "" then |nc| else if i < |args| then |args[i]| else 0, 1
  {
    if nc != "" {
      RescanElement(cfg, args, i, nc, skipped, again, j);
    } else if i == |args| {
      EndOfList(cfg, args);
      assert again[j..] == skipped;
      if skipped != [] {
        assert again[j] == again[j..][0] == skipped[0];
        CountTrueConst(false, |again| - j);
      }
    } else if NonOption(args[i]) {
      NonOptionStep(cfg, args, i, skipped, again, j);
      hide ParseFrom;
      RescanFrom(cfg, args, i + 1, "", skipped + [args[i]], again, j);
    } else if args[i] == "--" {
      DashesStep(cfg, args, i, skipped, again, j);
    } else {
      var b := Body(cfg, args[i]);
      ParseBody(cfg, Permute, args, i);
      hide ParseFrom;
      RescanFrom(cfg, args, i, b, skipped, again, j);
      HeadMatches(cfg, args, i, b, skipped, again, j);
      ParseBody(cfg, RequireOrder, again, j);
    }
  }

  lemma {:induction false} RescanElement(cfg: Config, args: seq<string>, i: nat, nc: string, skipped: seq<string>,
                                         again: seq<string>, j: nat)
    requires Rearranged(cfg, args, i, nc, skipped, again, j) && nc != ""
    ensures j < |again|
    ensures SameAnswers(cfg, args, i, nc, again, j) <==> !Steals(cfg, args, i, nc, skipped)
    decreases |args| - i, |nc|, 0
  {
    hide ParseFrom;
    hide Decode;
    HeadMatches(cfg, args, i, nc, skipped, again, j);
    var d := Decode(cfg, args[i], nc, NextOf(args, i));
    StepRearranged(cfg, args, i, nc, skipped, again, j, d);
    if d.missing && skipped != [] {
      ElementStolen(cfg, args, i, nc, skipped, again, j, d);
    } else {
      RescanFrom(cfg, args, i + d.used, d.rest, skipped, again, j + d.used);
      ElementSame(cfg, args, i, nc, skipped, again, j, d);
    }
  }

  lemma ElementStolen(cfg: Config, args: seq<string>, i: nat, nc: string, skipped: seq<string>,
                      again: seq<string>, j: nat, d: Decoded)
    requires Rearranged(cfg, args, i, nc, skipped, again, j) && nc != "" && j < |again|
    requires d == Decode(cfg, args[i], nc, NextOf(args, i))
    requires d.missing && skipped != []
    ensures !SameAnswers(cfg, args, i, nc, again, j)
  {
    HeadMatches(cfg, args, i, nc, skipped, again, j);
    StolenDecode(cfg, args, i, nc, skipped, again, j, d);
    hide Rearranged;
    hide Decode;
    ParseStep(cfg, Permute, args, i, nc);
    ParseStep(cfg, RequireOrder, again, j, nc);
    hide ParseFrom;
    assert ParseFrom(cfg, Permute, args, i, nc).events[0] == d.ev;
    assert ParseFrom(cfg, RequireOrder, again, j, nc).events[0] != d.ev;
  }

  lemma ElementSame(cfg: Config, args: seq<string>, i: nat, nc: string, skipped: seq<string>,
                    again: seq<string>, j: nat, d: Decoded)
    requires Rearranged(cfg, args, i, nc, skipped, again, j) && nc != "" && j < |again|
    requires d == Decode(cfg, args[i], nc, NextOf(args, i))
    requires !(d.missing && skipped != []) && j + d.used <= |again| && (d.rest != "" ==> j + d.used < |again|)
    ensures SameAnswers(cfg, args, i, nc, again, j)
        <==> SameAnswers(cfg, args, i + d.used, d.rest, again, j + d.used)
  {
    HeadMatches(cfg, args, i, nc, skipped, again, j);
    SameDecode(cfg, args, i, nc, skipped, again, j, d);
    hide Rearranged;
    hide Decode;
    ParseStep(cfg, Permute, args, i, nc);
    ParseStep(cfg, RequireOrder, again, j, nc);
    hide ParseFrom;
    SameAfterStep(d.ev, d.used,
                  ParseFrom(cfg, Permute, args, i + d.used, d.rest),
                  ParseFrom(cfg, RequireOrder, again, j + d.used, d.rest),
                  ParseFrom(cfg, Permute, args, i, nc), ParseFrom(cfg, RequireOrder, again, j, nc));
  }

  lemma SameAfterStep(ev: Event, n: nat, p: Parsed, q: Parsed, p': Parsed, q': Parsed)
    requires p'.events == [ev] + p.events && p'.flags == Const(true, n) + p.flags
    requires q'.events == [ev] + q.events && q'.flags == Const(true, n) + q.flags
    ensures Agree(p', q') <==> Agree(p, q)
  {
    assert p'.events[1..] == p.events && q'.events[1..] == q.events;
    CountTrueConcat(Const(true, n), p.flags);
    CountTrueConcat(Const(true, n), q.flags);
  }

  lemma NonOptionStep(cfg: Config, args: seq<string>, i: nat, skipped: seq<string>, again: seq<string>, j: nat)
    requires Rearranged(cfg, args, i, "", skipped, again, j) && i < |args| && NonOption(args[i])
    ensures Rearranged(cfg, args, i + 1, "", skipped + [args[i]], again, j)
    ensures SameAnswers(cfg, args, i, "", again, j) == SameAnswers(cfg, args, i + 1, "", again, j)
    ensures Steals(cfg, args, i, "", skipped) == Steals(cfg, args, i + 1, "", skipped + [args[i]])
  {
    hide ParseFrom;
    ParseNonOption(cfg, args, i);
    var r := ParseFrom(cfg, Permute, args, i + 1, "");
    var p := ParseFrom(cfg, Permute, args, i, "");
    assert [false] == Const(false, 1) && args[i..i + 1] == [args[i]];
    SelectSkip(args, i, 1, r.flags, false, true);
    SelectSkip(args, i, 1, r.flags, false, false);
    var f := Select(args[i + 1..], r.flags, false);
    assert skipped + ([args[i]] + f) == (skipped + [args[i]]) + f;
    assert p.flags[1..] == r.flags;
  }

  lemma DashesStep(cfg: Config, args: seq<string>, i: nat, skipped: seq<string>, again: seq<string>, j: nat)
    requires Rearranged(cfg, args, i, "", skipped, again, j) && i < |args| && args[i] == "--"
    ensures SameAnswers(cfg, args, i, "", again, j) && !Steals(cfg, args, i, "", skipped)
  {
    var p := ParseFrom(cfg, Permute, args, i, "");
    assert again[j] == again[j..][0] == args[i..][0] == "--";
    var q := ParseFrom(cfg, RequireOrder, again, j, "");
    CountTrueConst(false, |args| - i - 1);
    CountTrueConst(false, |again| - j - 1);
    assert p.flags[1..] == Const(false, |args| - i - 1) && q.flags[1..] == Const(false, |again| - j - 1);
  }

  lemma {:induction false} SelectCount<T>(s: seq<T>, flags: seq<bool>)
    requires |s| == |flags|
    ensures |Select(s, flags, true)| == CountTrue(flags)
    decreases |s|
  {
    if s != [] {
      SelectCount(s[1..], flags[1..]);
    }
  }

  /** Scanning the permuted list again in strict order gives the same answers and the same final optind,
      exactly unless an option lacked its argument while there were non-options for it to take. */
  lemma RescanAgrees(cfg: Config, args: seq<string>, i: nat)
    requires i <= |args|
    ensures var p := Parse(cfg, Permute, args, i);
            var q := Parse(cfg, RequireOrder, Partition(args, i, p.flags), i);
            Agree(p, q) <==> !(p.missing && Select(args[i..], p.flags, false) != [])
  {
    var p := Parse(cfg, Permute, args, i);
    var again := Partition(args, i, p.flags);
    hide ParseFrom;
    var t, f := Select(args[i..], p.flags, true), Select(args[i..], p.flags, false);
    assert again[i..] == t + ([] + f);
    assert [] + f == f;
    RescanFrom(cfg, args, i, "", [], again, i);
  }

  /** A concrete run that does differ: `a -x` where -x wants an argument. */
  lemma RescanDiffers()
    ensures var cfg := Config("x:", None, false);
            var p := Parse(cfg, Permute, ["prog", "a", "-x"], 1);
            var q := Parse(cfg, RequireOrder, ["prog", "-x", "a"], 1);
            && p.missing && p.flags == [false, true]
            && p.events == [ErrorEvent('?', 'x' as int)]
            && q.events == [Event('x' as int, Some("a"), None, None)]
  {
    var cfg := Config("x:", None, false);
    var args, again := ["prog", "a", "-x"], ["prog", "-x", "a"];
    assert Body(cfg, "-x") == "x" && IndexOf("x:", 'x') == 0 && "x"[1..] == "";
    assert Decode(cfg, "-x", "x", None) == Decoded(ErrorEvent('?', 'x' as int), 1, "", true);
    assert Decode(cfg, "-x", "x", Some("a")) == Decoded(Event('x' as int, Some("a"), None, None), 2, "", false);
    ParseBody(cfg, Permute, args, 2);
    ParseStep(cfg, Permute, args, 2, "x");
    ParseBody(cfg, RequireOrder, again, 1);
    ParseStep(cfg, RequireOrder, again, 1, "x");
    hide Decode;
    assert ParseFrom(cfg, Permute, args, 3, "") == Parsed([], [], false);
    assert ParseFrom(cfg, RequireOrder, again, 3, "") == Parsed([], [], false);
    assert Const(true, 1) == [true];
    assert Parse(cfg, Permute, args, 1) == Prepend([], [false], ParseFrom(cfg, Permute, args, 2, ""));
  }
}
