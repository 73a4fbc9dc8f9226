/** Writing options as arguments and reading them back: `GetoptSpec.Parse` returns what was written, whatever the form.
    Everything here is stated on the option string and the table of long options themselves. */
module GetoptWriter {
  import opened Seqs
  import opened GetoptSpec

  // ---------------------------------------------------------------- what is written

  /** How a group of short options ends: with its last flag, or with an option and its argument. */
  datatype Tail =
    | Nothing
    | Attached(c: char, text: string)
    | Separate(c: char, text: string)
    | Bare(c: char)

  /** How a long option is given its argument. */
  datatype Giving = Alone | Equals(text: string) | Following(text: string)

  datatype Item =
    | Group(flags: string, tail: Tail)
    | Long(dashes: string, name: string, giving: Giving, hit: Match)
    | Operand(text: string)

  /** What may follow the items: nothing, `--` and operands, an operand that ends the scan, or an option that
      lacks its argument. */
  datatype Ending =
    | Done
    | Dashes(operands: seq<string>)
    | Stops(operands: seq<string>)
    | LacksShort(flags: string, c: char)
    | LacksLong(dashes: string, name: string, index: nat)

  function TailText(t: Tail): string {
    match t
    case Nothing => ""
    case Attached(c, text) => [c] + text
    case Separate(c, _) => [c]
    case Bare(c) => [c]
  }

  function LongText(name: string, giving: Giving): string {
    name + if giving.Equals? then "=" + giving.text else ""
  }

  function Element(it: Item): string {
    match it
    case Group(flags, tail) => "-" + (flags + TailText(tail))
    case Long(dashes, name, giving, _) => dashes + LongText(name, giving)
    case Operand(text) => text
  }

  function Words(it: Item): seq<string> {
    if it.Group? && it.tail.Separate? then [Element(it), it.tail.text]
    else if it.Long? && it.giving.Following? then [Element(it), it.giving.text]
    else [Element(it)]
  }

  function Written(items: seq<Item>): seq<string> {
    if items == [] then [] else Words(items[0]) + Written(items[1..])
  }

  function EndWords(e: Ending): seq<string> {
    match e
    case Done => []
    case Dashes(operands) => ["--"] + operands
    case Stops(operands) => operands
    case LacksShort(flags, c) => ["-" + (flags + [c])]
    case LacksLong(dashes, name, _) => [dashes + name]
  }

  // ---------------------------------------------------------------- what is to be answered

  /** A flag is answered by itself, and a character that is none by an error naming it. */
  function FlagAnswer(optstring: string, c: char): Event {
    if c == ':' || c !in optstring then Event('?' as int, None, None, Some(c as int))
    else Event(c as int, None, None, None)
  }

  function FlagAnswers(optstring: string, flags: string): seq<Event> {
    if flags == "" then [] else [FlagAnswer(optstring, flags[0])] + FlagAnswers(optstring, flags[1..])
  }

  function TailAnswers(t: Tail): seq<Event> {
    match t
    case Nothing => []
    case Attached(c, text) => [Event(c as int, Some(text), None, None)]
    case Separate(c, text) => [Event(c as int, Some(text), None, None)]
    case Bare(c) => [Event(c as int, None, None, None)]
  }

  /** The answer to a long option. */
  function LongAnswer(cfg: Config, giving: Giving, hit: Match): Event
    requires hit.Found? ==> cfg.longopts.Some? && hit.index < |cfg.longopts.value|
  {
    if !hit.Found? then Event('?' as int, None, None, Some(0))
    else
      var o := cfg.longopts.value[hit.index];
      var ret := if o.flag then 0 else o.val;
      match giving
      case Alone => Event(ret, None, Some(hit.index), None)
      case Equals(text) =>
        if o.hasArg == 0 then Event('?' as int, None, None, Some(o.val))
        else Event(ret, Some(text), Some(hit.index), None)
      case Following(text) => Event(ret, Some(text), Some(hit.index), None)
  }

  function Answers(cfg: Config, it: Item): seq<Event>
    requires Suitable(cfg, it)
  {
    match it
    case Group(flags, tail) => FlagAnswers(cfg.optstring, flags) + TailAnswers(tail)
    case Long(_, _, giving, hit) => [LongAnswer(cfg, giving, hit)]
    case Operand(_) => []
  }

  function AllAnswers(cfg: Config, items: seq<Item>): seq<Event>
    requires AllSuitable(cfg, items)
  {
    if items == [] then [] else Answers(cfg, items[0]) + AllAnswers(cfg, items[1..])
  }

  /** The operands are left alone, and everything else belongs to the options. */
  function AllFlags(items: seq<Item>): seq<bool> {
    if items == [] then [] else Const(!items[0].Operand?, |Words(items[0])|) + AllFlags(items[1..])
  }

  function EndAnswers(cfg: Config, e: Ending): seq<Event>
    requires e.LacksLong? ==> cfg.longopts.Some? && e.index < |cfg.longopts.value|
  {
    var ret := if cfg.optstring != "" && cfg.optstring[0] == ':' then ':' as int else '?' as int;
    match e
    case LacksShort(flags, c) => FlagAnswers(cfg.optstring, flags) + [Event(ret, None, None, Some(c as int))]
    case LacksLong(_, _, i) => [Event(ret, None, None, Some(cfg.longopts.value[i].val))]
    case _ => []
  }

  function EndFlags(e: Ending): seq<bool> {
    match e
    case Done => []
    case Dashes(operands) => [true] + Const(false, |operands|)
    case Stops(operands) => Const(false, |operands|)
    case _ => [true]
  }

  // ---------------------------------------------------------------- what may be written

  /** The first place of `c` in the option string is followed by exactly so many colons, two counting as all. */
  ghost predicate Declared(optstring: string, c: char, colons: nat) {
    exists i: nat :: DeclaredAt(optstring, c, i, colons)
  }

  ghost predicate DeclaredAt(optstring: string, c: char, i: nat, colons: nat) {
    && c != ':' && colons <= 2 && i + colons < |optstring|
    && optstring[i] == c && c !in optstring[..i]
    && (forall k :: i < k <= i + colons ==> optstring[k] == ':')
    && (colons < 2 && i + colons + 1 < |optstring| ==> optstring[i + colons + 1] != ':')
  }

  /** Flags of the option string and characters that it does not know. */
  ghost predicate FlagsOnly(optstring: string, flags: string) {
    forall k :: 0 <= k < |flags| ==>
      flags[k] == ':' || flags[k] !in optstring || Declared(optstring, flags[k], 0)
  }

  ghost predicate TailFits(optstring: string, t: Tail) {
    && (t.Attached? ==> t.text != "" && (Declared(optstring, t.c, 1) || Declared(optstring, t.c, 2)))
    && (t.Separate? ==> Declared(optstring, t.c, 1))
    && (t.Bare? ==> Declared(optstring, t.c, 2))
  }

  /** How many characters of a group are options. */
  function Size(flags: string, t: Tail): nat {
    if t.Nothing? then |flags| else |flags| + 1
  }

  /** No long option's name begins like this text, with or without `=` and a value, but a short option does. */
  ghost predicate NoLongName(cfg: Config, nc: string)
    requires cfg.longopts.Some?
  {
    && nc != "" && nc[0] in cfg.optstring
    && exists name, giving :: nc == LongText(name, giving) && Names(cfg.longopts.value, name, Unknown)
  }

  /** What is left of the element is not read as a long option: with one dash that takes long options to be
      asked for, and their names to begin like it. */
  ghost predicate Short(cfg: Config, el: string, nc: string)
    requires |el| >= 2
  {
    cfg.longopts.Some? ==>
      && el[1] != '-'
      && (cfg.longOnly ==> (|el| == 2 && el[1] in cfg.optstring) || NoLongName(cfg, nc))
  }

  /** The first `n` characters of `nc` are options of the group `el`. */
  ghost predicate AllShort(cfg: Config, el: string, nc: string, n: nat) {
    |el| >= 2 && n <= |nc| && forall k :: 0 <= k < n ==> Short(cfg, el, nc[k..])
  }

  /** An element that is read as a group of `n` short options. */
  ghost predicate ShortForm(cfg: Config, el: string, n: nat) {
    && |el| >= 2 && el[0] == '-' && el != "--" && n > 0 && AllShort(cfg, el, el[1..], n)
  }

  /** An element that is read as a long option: with two dashes, or with one where that is asked for. */
  predicate LongForm(cfg: Config, el: string, dashes: string) {
    && cfg.longopts.Some? && |el| > |dashes|
    && (dashes == "--" ||
        (dashes == "-" && cfg.longOnly && el[1] != '-' &&
         (el[1] !in cfg.optstring || (|el| > 2 && el[2] != '\0'))))
  }

  /** `name` means option `i`: it is the first of that name, or there is none and `name` begins no other. */
  ghost predicate Means(table: seq<LongOption>, name: string, i: nat) {
    && i < |table|
    && ((table[i].name == name && forall k :: 0 <= k < i ==> table[k].name != name) ||
        (name < table[i].name && forall k :: 0 <= k < |table| && k != i ==> !(name <= table[k].name)))
  }

  ghost predicate MeansNothing(table: seq<LongOption>, name: string) {
    forall k :: 0 <= k < |table| ==> !(name <= table[k].name)
  }

  ghost predicate MeansSeveral(table: seq<LongOption>, name: string) {
    && (forall k :: 0 <= k < |table| ==> table[k].name != name)
    && exists k, l :: 0 <= k < l < |table| && name <= table[k].name && name <= table[l].name
  }

  ghost predicate Names(table: seq<LongOption>, name: string, hit: Match) {
    && '=' !in name
    && match hit
       case Found(i) => Means(table, name, i)
       case Ambiguous => MeansSeveral(table, name)
       case Unknown => MeansNothing(table, name)
  }

  /** An option that wants an argument is given one, and only such an option takes the next element. A name that is
      not one option's, to be read as an error, must not leave a group of short options to try. */
  ghost predicate LongFits(cfg: Config, dashes: string, name: string, giving: Giving, hit: Match)
    requires cfg.longopts.Some?
  {
    && Names(cfg.longopts.value, name, hit)
    && (hit.Found? ==>
          var wants := cfg.longopts.value[hit.index].hasArg == 1;
          (giving.Alone? ==> !wants) && (giving.Following? ==> wants))
    && (!hit.Found? ==> !giving.Following?)
    && (hit.Unknown? && dashes == "-" ==> (if name == "" then '=' else name[0]) !in cfg.optstring)
  }

  ghost predicate Suitable(cfg: Config, it: Item) {
    && (it.Group? ==>
          && ShortForm(cfg, Element(it), Size(it.flags, it.tail)) && FlagsOnly(cfg.optstring, it.flags) && TailFits(cfg.optstring, it.tail))
    && (it.Long? ==> LongForm(cfg, Element(it), it.dashes) && LongFits(cfg, it.dashes, it.name, it.giving, it.hit))
    && (it.Operand? ==> it.text == "" || it.text[0] != '-' || it.text == "-")
  }

  ghost predicate AllSuitable(cfg: Config, items: seq<Item>) {
    forall k :: 0 <= k < |items| ==> Suitable(cfg, items[k])
  }

  ghost predicate EndSuitable(cfg: Config, ord: Ordering, e: Ending) {
    && (e.Stops? ==>
          && ord == RequireOrder && e.operands != []
          && (e.operands[0] == "" || e.operands[0][0] != '-' || e.operands[0] == "-"))
    && (e.LacksShort? ==>
          && ShortForm(cfg, EndWords(e)[0], |e.flags| + 1) && FlagsOnly(cfg.optstring, e.flags) && Declared(cfg.optstring, e.c, 1))
    && (e.LacksLong? ==>
          && LongForm(cfg, EndWords(e)[0], e.dashes) && Names(cfg.longopts.value, e.name, Found(e.index))
          && cfg.longopts.value[e.index].hasArg == 1)
  }

  // ---------------------------------------------------------------- one short option

  lemma {:induction false} FirstIndex(s: string, c: char, i: nat)
    requires i < |s| && s[i] == c && c !in s[..i]
    ensures IndexOf(s, c) == i
  {
    if i > 0 {
      assert s[0] == s[..i][0] && s[1..][..i - 1] == s[1..i] && s[..i] == [s[0]] + s[1..i];
      FirstIndex(s[1..], c, i - 1);
    }
  }

  lemma MissedIndex(optstring: string, c: char)
    requires c !in optstring
    ensures IndexOf(optstring, c) == |optstring|
  {
  }

  /** A flag, and a character the option string does not have. */
  lemma ReadFlag(cfg: Config, c: char, rest: string, next: Option<string>)
    requires c == ':' || c !in cfg.optstring || Declared(cfg.optstring, c, 0)
    ensures DecodeShort(cfg, [c] + rest, next)
         == Decoded(FlagAnswer(cfg.optstring, c), if rest == "" then 1 else 0, rest, false)
  {
    if c != ':' && c !in cfg.optstring {
      MissedIndex(cfg.optstring, c);
    } else if c != ':' {
      var i: nat :| DeclaredAt(cfg.optstring, c, i, 0);
      FirstIndex(cfg.optstring, c, i);
    }
  }

  /** An option with an argument: in the element, in the next one, left out, or missing. */
  lemma ReadArgument(cfg: Config, c: char, rest: string, next: Option<string>, colons: nat)
    requires colons > 0 && Declared(cfg.optstring, c, colons)
    ensures DecodeShort(cfg, [c] + rest, next) ==
      if rest != "" then Decoded(Event(c as int, Some(rest), None, None), 1, "", false)
      else if colons == 2 then Decoded(Event(c as int, None, None, None), 1, "", false)
      else if next.Some? then Decoded(Event(c as int, next, None, None), 2, "", false)
      else Decoded(EndAnswers(cfg, LacksShort("", c))[0], 1, "", true)
  {
    var i: nat :| DeclaredAt(cfg.optstring, c, i, colons);
    FirstIndex(cfg.optstring, c, i);
    assert cfg.optstring[i + 1] == ':';
    assert FlagAnswers(cfg.optstring, "") == [];
    assert CharAt(cfg.optstring, i + 2) == ':' <==> colons == 2;
  }

  // ---------------------------------------------------------------- one long option

  lemma NamesAreFound(table: seq<LongOption>, name: string, hit: Match)
    requires Names(table, name, hit)
    ensures Lookup(table, name) == hit
  {
    LookupFollowsRule(table, name);
    hide Lookup;
  }

  lemma NameOf(name: string, text: string)
    requires '=' !in name
    ensures IndexOf(name, '=') == |name|
    ensures IndexOf(name + ("=" + text), '=') == |name|
  {
    MissedIndex(name, '=');
    var s := name + ("=" + text);
    assert s[..|name|] == name;
    FirstIndex(s, '=', |name|);
  }

  lemma LongParts(cfg: Config, dashes: string, name: string, giving: Giving)
    requires LongForm(cfg, dashes + LongText(name, giving), dashes) && '=' !in name
    ensures var nc := LongText(name, giving);
      && nc != "" && TriesLong(cfg, dashes + nc)
      && IndexOf(nc, '=') == |name| && nc[..|name|] == name
      && (if giving.Equals? then |name| < |nc| && nc[|name| + 1..] == giving.text else nc == name)
      && (CharAt(dashes + nc, 1) == '-' <==> dashes == "--")
      && nc[0] == if name == "" then '=' else name[0]
  {
    var nc := LongText(name, giving);
    NameOf(name, if giving.Equals? then giving.text else "");
    hide IndexOf;
    assert nc[..|name|] == name && (giving.Equals? ==> nc[|name| + 1..] == giving.text);
    assert nc[0] == (dashes + nc)[|dashes|];
  }

  /** A long option's name in all its forms. */
  lemma ReadLong(cfg: Config, dashes: string, name: string, giving: Giving, hit: Match, next: Option<string>)
    requires LongForm(cfg, dashes + LongText(name, giving), dashes)
    requires LongFits(cfg, dashes, name, giving, hit) && (giving.Following? ==> next == Some(giving.text))
    ensures Decode(cfg, dashes + LongText(name, giving), LongText(name, giving), next)
         == Decoded(LongAnswer(cfg, giving, hit), if giving.Following? then 2 else 1, "", false)
  {
    LongParts(cfg, dashes, name, giving);
    NamesAreFound(cfg.longopts.value, name, hit);
    hide Lookup;
    hide IndexOf;
    hide DecodeShort;
    hide LongAnswer;
    hide LongText;
    hide Names;
    hide TriesLong;
    hide LongForm;
    if hit.Found? {
      FoundAnswer(cfg, giving, hit.index, next);
    } else {
      assert LongAnswer(cfg, giving, hit) == ErrorEvent('?', 0);
    }
  }

  lemma FoundAnswer(cfg: Config, giving: Giving, i: nat, next: Option<string>)
    requires cfg.longopts.Some? && i < |cfg.longopts.value|
    requires var wants := cfg.longopts.value[i].hasArg == 1;
             (giving.Alone? ==> !wants) && (giving.Following? ==> wants && next == Some(giving.text))
    ensures DecodeLong(cfg, cfg.longopts.value[i], i, if giving.Equals? then Some(giving.text) else None, next)
         == Decoded(LongAnswer(cfg, giving, Found(i)), if giving.Following? then 2 else 1, "", false)
  {
  }

  lemma ReadLacking(cfg: Config, dashes: string, name: string, i: nat)
    requires EndSuitable(cfg, Permute, LacksLong(dashes, name, i))
    ensures Decode(cfg, dashes + name, name, None)
         == Decoded(EndAnswers(cfg, LacksLong(dashes, name, i))[0], 1, "", true)
  {
    NameOf(name, "");
    NamesAreFound(cfg.longopts.value, name, Found(i));
    hide Lookup;
    hide IndexOf;
    assert TriesLong(cfg, dashes + name);
    assert name[..|name|] == name;
  }

  /** With one dash, what no long option's name begins with is left to the short options where its first character
      is one. */
  lemma ReadFallsThrough(cfg: Config, el: string, name: string, giving: Giving, next: Option<string>)
    requires var nc := LongText(name, giving);
             nc != "" && cfg.longOnly && |el| > 1 && el[1] != '-' && nc[0] in cfg.optstring
    requires cfg.longopts.Some? && Names(cfg.longopts.value, name, Unknown)
    ensures Decode(cfg, el, LongText(name, giving), next) == DecodeShort(cfg, LongText(name, giving), next)
  {
    var nc := LongText(name, giving);
    NameOf(name, if giving.Equals? then giving.text else "");
    assert nc[..|name|] == name;
    assert giving.Equals? || nc == name;
    NamesAreFound(cfg.longopts.value, name, Unknown);
    hide Lookup;
    hide IndexOf;
  }

  // ---------------------------------------------------------------- an element

  lemma Joined(a: seq<Event>, f: seq<bool>, b: seq<Event>, g: seq<bool>, p: Parsed)
    ensures Prepend(a, f, Prepend(b, g, p)) == Prepend(a + b, f + g, p)
  {
    Assoc(a, b, p.events);
    Assoc(f, g, p.flags);
  }

  /** One decoding step, when it is known what it yields. */
  lemma StepRead(cfg: Config, ord: Ordering, args: seq<string>, i: nat, nc: string, ev: Event, n: nat, rest: string)
    requires i < |args| && nc != "" && Decode(cfg, args[i], nc, NextOf(args, i)) == Decoded(ev, n, rest, false)
    ensures i + n <= |args| && (rest != "" ==> i + n < |args|)
    ensures ParseFrom(cfg, ord, args, i, nc)
         == Prepend([ev], Const(true, n), ParseFrom(cfg, ord, args, i + n, rest))
  {
    hide ParseFrom;
    hide Decode;
    hide Const;
    ParseStep(cfg, ord, args, i, nc);
    var p, r := ParseFrom(cfg, ord, args, i, nc), ParseFrom(cfg, ord, args, i + n, rest);
    assert p == Parsed(p.events, p.flags, p.missing);
  }

  /** A group's first option is decoded as a short one. */
  lemma ReadShort(cfg: Config, el: string, nc: string, n: nat, next: Option<string>)
    requires nc != "" && n > 0 && AllShort(cfg, el, nc, n)
    ensures Decode(cfg, el, nc, next) == DecodeShort(cfg, nc, next)
  {
    hide DecodeShort;
    assert nc[0..] == nc && Short(cfg, el, nc);
    if cfg.longopts.Some? && cfg.longOnly && !(|el| == 2 && el[1] in cfg.optstring) {
      var name, giving :| nc == LongText(name, giving) && Names(cfg.longopts.value, name, Unknown);
      hide Names;
      ReadFallsThrough(cfg, el, name, giving, next);
      hide Decode;
    }
  }

  lemma RestShort(cfg: Config, el: string, flags: string, tail: Tail)
    requires flags != "" && AllShort(cfg, el, flags + TailText(tail), Size(flags, tail))
    ensures AllShort(cfg, el, flags[1..] + TailText(tail), Size(flags[1..], tail))
  {
    hide Short;
    var nc, rest := flags + TailText(tail), flags[1..] + TailText(tail);
    forall k | 0 <= k < Size(flags[1..], tail)
      ensures Short(cfg, el, rest[k..])
    {
      assert rest[k..] == nc[k + 1..];
    }
  }

  function Taken(t: Tail): nat {
    if t.Separate? then 2 else 1
  }

  /** A group of short options from its first unread character on. */
  lemma {:induction false} GroupRead(cfg: Config, ord: Ordering, args: seq<string>, i: nat, flags: string, tail: Tail)
    requires i < |args| && flags + TailText(tail) != ""
    requires AllShort(cfg, args[i], flags + TailText(tail), Size(flags, tail))
    requires FlagsOnly(cfg.optstring, flags) && TailFits(cfg.optstring, tail)
    requires tail.Separate? ==> NextOf(args, i) == Some(tail.text)
    ensures ParseFrom(cfg, ord, args, i, flags + TailText(tail))
         == Prepend(FlagAnswers(cfg.optstring, flags) + TailAnswers(tail), Const(true, Taken(tail)),
                    ParseFrom(cfg, ord, args, i + Taken(tail), ""))
    decreases |flags|
  {
    hide ParseFrom;
    hide DecodeShort;
    hide TailFits;
    hide Declared;
    hide Prepend;
    if flags == "" {
      TailRead(cfg, tail, NextOf(args, i));
      NoFlags(cfg.optstring, tail);
      ReadShort(cfg, args[i], flags + TailText(tail), Size(flags, tail), NextOf(args, i));
      hide AllShort;
      hide Decode;
      hide TailText;
      StepRead(cfg, ord, args, i, TailText(tail), TailAnswers(tail)[0], Taken(tail), "");
    } else {
      FlagRead(cfg, ord, args, i, flags, tail);
      FlagJoined(cfg.optstring, flags, tail);
      hide AllShort;
      hide FlagAnswers;
      hide TailAnswers;
      hide FlagAnswer;
      hide TailText;
      if flags[1..] + TailText(tail) != "" {
        RestShort(cfg, args[i], flags, tail);
        GroupRead(cfg, ord, args, i, flags[1..], tail);
        Joined([FlagAnswer(cfg.optstring, flags[0])], Const(true, 0),
               FlagAnswers(cfg.optstring, flags[1..]) + TailAnswers(tail), Const(true, Taken(tail)),
               ParseFrom(cfg, ord, args, i + Taken(tail), ""));
      }
    }
  }

  lemma NoFlags(optstring: string, tail: Tail)
    requires !tail.Nothing?
    ensures "" + TailText(tail) == TailText(tail)
    ensures FlagAnswers(optstring, "") + TailAnswers(tail) == [TailAnswers(tail)[0]]
  {
  }

  lemma FlagJoined(optstring: string, flags: string, tail: Tail)
    requires flags != ""
    ensures var first, rest := [FlagAnswer(optstring, flags[0])], FlagAnswers(optstring, flags[1..]);
      && FlagAnswers(optstring, flags) + TailAnswers(tail) == first + (rest + TailAnswers(tail))
      && (flags[1..] + TailText(tail) == "" ==> FlagAnswers(optstring, flags) + TailAnswers(tail) == first)
    ensures Const(true, 0) + Const(true, Taken(tail)) == Const(true, Taken(tail))
    ensures flags[1..] + TailText(tail) == "" ==> Taken(tail) == 1
  {
    var first, rest := [FlagAnswer(optstring, flags[0])], FlagAnswers(optstring, flags[1..]);
    Assoc(first, rest, TailAnswers(tail));
    if flags[1..] + TailText(tail) == "" {
      assert rest == [] && tail.Nothing?;
      assert first + [] + [] == first;
    }
  }

  /** The first flag of a group. */
  lemma FlagRead(cfg: Config, ord: Ordering, args: seq<string>, i: nat, flags: string, tail: Tail)
    requires i < |args| && flags != "" && FlagsOnly(cfg.optstring, flags)
    requires AllShort(cfg, args[i], flags + TailText(tail), Size(flags, tail))
    ensures var rest, n := flags[1..] + TailText(tail), if flags[1..] + TailText(tail) == "" then 1 else 0;
      ParseFrom(cfg, ord, args, i, flags + TailText(tail))
      == Prepend([FlagAnswer(cfg.optstring, flags[0])], Const(true, n), ParseFrom(cfg, ord, args, i + n, rest))
  {
    hide ParseFrom;
    hide DecodeShort;
    hide Declared;
    hide Prepend;
    hide FlagAnswer;
    hide TailText;
    hide Const;
    hide Decode;
    var rest := flags[1..] + TailText(tail);
    ReadShort(cfg, args[i], flags + TailText(tail), Size(flags, tail), NextOf(args, i));
    assert flags + TailText(tail) == [flags[0]] + rest;
    ReadFlag(cfg, flags[0], rest, NextOf(args, i));
    var n := if rest == "" then 1 else 0;
    StepRead(cfg, ord, args, i, [flags[0]] + rest, FlagAnswer(cfg.optstring, flags[0]), n, rest);
  }

  lemma TailRead(cfg: Config, tail: Tail, next: Option<string>)
    requires TailFits(cfg.optstring, tail) && !tail.Nothing? && (tail.Separate? ==> next == Some(tail.text))
    ensures DecodeShort(cfg, TailText(tail), next)
         == Decoded(TailAnswers(tail)[0], if tail.Separate? then 2 else 1, "", false)
  {
    hide DecodeShort;
    hide Declared;
    var c, rest := tail.c, if tail.Attached? then tail.text else "";
    assert TailText(tail) == [c] + rest;
    ReadArgument(cfg, c, rest, next, if tail.Bare? || (tail.Attached? && !Declared(cfg.optstring, c, 1)) then 2 else 1);
  }

  // ---------------------------------------------------------------- a whole argument list

  /** The words of one item, wherever they stand. */
  lemma ItemRead(cfg: Config, ord: Ordering, args: seq<string>, i: nat, it: Item)
    requires i + |Words(it)| <= |args| && args[i..i + |Words(it)|] == Words(it)
    requires Suitable(cfg, it) && (it.Operand? ==> ord == Permute)
    ensures ParseFrom(cfg, ord, args, i, "")
         == Prepend(Answers(cfg, it), Const(!it.Operand?, |Words(it)|),
                    ParseFrom(cfg, ord, args, i + |Words(it)|, ""))
  {
    hide ParseFrom;
    hide Suitable;
    hide Answers;
    hide Prepend;
    WordsStand(args, i, it);
    hide Words;
    hide Element;
    if it.Group? {
      GroupItem(cfg, ord, args, i, it);
    } else if it.Long? {
      LongItem(cfg, ord, args, i, it);
    } else {
      OperandItem(cfg, args, i, it);
    }
  }

  lemma WordsStand(args: seq<string>, i: nat, it: Item)
    requires i + |Words(it)| <= |args| && args[i..i + |Words(it)|] == Words(it)
    ensures i < |args| && args[i] == Element(it)
    ensures it.Group? && it.tail.Separate? ==> NextOf(args, i) == Some(it.tail.text)
    ensures it.Long? && it.giving.Following? ==> NextOf(args, i) == Some(it.giving.text)
  {
    hide Element;
    assert args[i] == args[i..i + |Words(it)|][0];
    if |Words(it)| == 2 {
      assert args[i + 1] == args[i..i + 2][1];
    }
  }

  lemma OperandItem(cfg: Config, args: seq<string>, i: nat, it: Item)
    requires it.Operand? && Suitable(cfg, it) && i < |args| && args[i] == Element(it)
    ensures ParseFrom(cfg, Permute, args, i, "")
         == Prepend(Answers(cfg, it), Const(false, |Words(it)|), ParseFrom(cfg, Permute, args, i + |Words(it)|, ""))
  {
    ParseNonOption(cfg, args, i);
    hide ParseFrom;
    assert Const(false, 1) == [false];
  }

  lemma GroupItem(cfg: Config, ord: Ordering, args: seq<string>, i: nat, it: Item)
    requires it.Group? && Suitable(cfg, it) && i < |args| && args[i] == Element(it)
    requires it.tail.Separate? ==> NextOf(args, i) == Some(it.tail.text)
    ensures ParseFrom(cfg, ord, args, i, "")
         == Prepend(Answers(cfg, it), Const(true, |Words(it)|), ParseFrom(cfg, ord, args, i + |Words(it)|, ""))
  {
    hide ParseFrom;
    ShortBody(cfg, args[i], Size(it.flags, it.tail));
    hide AllShort;
    ParseBody(cfg, ord, args, i);
    assert args[i][1..] == it.flags + TailText(it.tail);
    GroupRead(cfg, ord, args, i, it.flags, it.tail);
  }

  lemma ShortBody(cfg: Config, el: string, n: nat)
    requires ShortForm(cfg, el, n)
    ensures IsOptionElement(el) && Body(cfg, el) == el[1..]
  {
    hide NoLongName;
    assert Short(cfg, el, el[1..][0..]);
  }

  lemma LongBody(cfg: Config, dashes: string, text: string)
    requires LongForm(cfg, dashes + text, dashes)
    ensures IsOptionElement(dashes + text) && Body(cfg, dashes + text) == text
  {
    var el := dashes + text;
    assert el[|dashes|..] == text;
  }

  lemma LongItem(cfg: Config, ord: Ordering, args: seq<string>, i: nat, it: Item)
    requires it.Long? && Suitable(cfg, it) && i < |args| && args[i] == Element(it)
    requires it.giving.Following? ==> NextOf(args, i) == Some(it.giving.text)
    ensures ParseFrom(cfg, ord, args, i, "")
         == Prepend(Answers(cfg, it), Const(true, |Words(it)|), ParseFrom(cfg, ord, args, i + |Words(it)|, ""))
  {
    hide ParseFrom;
    var text := LongText(it.name, it.giving);
    LongBody(cfg, it.dashes, text);
    ParseBody(cfg, ord, args, i);
    ReadLong(cfg, it.dashes, it.name, it.giving, it.hit, NextOf(args, i));
    StepRead(cfg, ord, args, i, text, LongAnswer(cfg, it.giving, it.hit), |Words(it)|, "");
  }

  /** The words of all items, wherever they stand. */
  lemma {:induction false} ItemsRead(cfg: Config, ord: Ordering, args: seq<string>, i: nat, items: seq<Item>)
    requires i + |Written(items)| <= |args| && args[i..i + |Written(items)|] == Written(items)
    requires AllSuitable(cfg, items) && (ord == Permute || forall k :: 0 <= k < |items| ==> !items[k].Operand?)
    ensures ParseFrom(cfg, ord, args, i, "")
         == Prepend(AllAnswers(cfg, items), AllFlags(items),
                    ParseFrom(cfg, ord, args, i + |Written(items)|, ""))
    decreases |items|
  {
    hide ParseFrom;
    hide Words;
    hide Answers;
    hide Suitable;
    if items == [] {
      PrependNothing(ParseFrom(cfg, ord, args, i, ""));
    } else {
      var n := |Words(items[0])|;
      WordsFirst(args, i, items);
      ItemRead(cfg, ord, args, i, items[0]);
      RestSuitable(cfg, items);
      ItemsRead(cfg, ord, args, i + n, items[1..]);
      Joined(Answers(cfg, items[0]), Const(!items[0].Operand?, n), AllAnswers(cfg, items[1..]), AllFlags(items[1..]),
             ParseFrom(cfg, ord, args, i + n + |Written(items[1..])|, ""));
    }
  }

  lemma PrependNothing(p: Parsed)
    ensures Prepend([], [], p) == p
  {
  }

  lemma WordsFirst(args: seq<string>, i: nat, items: seq<Item>)
    requires items != []
    requires i + |Written(items)| <= |args| && args[i..i + |Written(items)|] == Written(items)
    ensures var n, m := |Words(items[0])|, |Written(items[1..])|;
            && |Written(items)| == n + m && args[i..i + n] == Words(items[0])
            && args[i + n..i + n + m] == Written(items[1..])
  {
    hide Words;
    SliceOfConcat(args, i, i + |Written(items)|, Words(items[0]), Written(items[1..]));
  }

  lemma RestSuitable(cfg: Config, items: seq<Item>)
    requires items != [] && AllSuitable(cfg, items)
    ensures Suitable(cfg, items[0]) && AllSuitable(cfg, items[1..])
  {
    hide Suitable;
    forall k | 0 <= k < |items[1..]|
      ensures Suitable(cfg, items[1..][k])
    {
      assert items[1..][k] == items[k + 1];
    }
  }

  lemma EndRead(cfg: Config, ord: Ordering, args: seq<string>, i: nat, e: Ending)
    requires i <= |args| && args[i..] == EndWords(e) && EndSuitable(cfg, ord, e)
    ensures ParseFrom(cfg, ord, args, i, "") == Parsed(EndAnswers(cfg, e), EndFlags(e), e.LacksShort? || e.LacksLong?)
  {
    if e.Done? {
      assert i == |args|;
    } else {
      assert args[i] == args[i..][0] && |args| - i == |EndWords(e)|;
      if e.LacksShort? || e.LacksLong? {
        LackingRead(cfg, ord, args, i, e);
      }
    }
  }

  lemma LackingRead(cfg: Config, ord: Ordering, args: seq<string>, i: nat, e: Ending)
    requires (e.LacksShort? || e.LacksLong?) && EndSuitable(cfg, ord, e)
    requires i + 1 == |args| && args[i] == EndWords(e)[0]
    ensures ParseFrom(cfg, ord, args, i, "") == Parsed(EndAnswers(cfg, e), EndFlags(e), true)
  {
    hide ParseFrom;
    if e.LacksLong? {
      LongBody(cfg, e.dashes, e.name);
      ParseBody(cfg, ord, args, i);
      ReadLacking(cfg, e.dashes, e.name, e.index);
      LastRead(cfg, ord, args, i, e.name);
    } else {
      ShortBody(cfg, args[i], |e.flags| + 1);
      hide AllShort;
      ParseBody(cfg, ord, args, i);
      assert args[i][1..] == e.flags + [e.c];
      LackingGroup(cfg, ord, args, i, e.flags, e.c);
    }
  }

  /** The last element read to its end. */
  lemma LastRead(cfg: Config, ord: Ordering, args: seq<string>, i: nat, nc: string)
    requires i + 1 == |args| && nc != "" && Decode(cfg, args[i], nc, None).missing
    ensures ParseFrom(cfg, ord, args, i, nc) == Parsed([Decode(cfg, args[i], nc, None).ev], [true], true)
  {
    hide ParseFrom;
    hide Decode;
    ParseStep(cfg, ord, args, i, nc);
    NothingLeft(cfg, ord, args);
    assert Const(true, 1) + [] == [true];
  }

  lemma NothingLeft(cfg: Config, ord: Ordering, args: seq<string>)
    ensures ParseFrom(cfg, ord, args, |args|, "") == Parsed([], [], false)
  {
  }

  lemma {:induction false} LackingGroup(cfg: Config, ord: Ordering, args: seq<string>, i: nat, flags: string, c: char)
    requires i + 1 == |args| && AllShort(cfg, args[i], flags + [c], |flags| + 1)
    requires FlagsOnly(cfg.optstring, flags) && Declared(cfg.optstring, c, 1)
    ensures ParseFrom(cfg, ord, args, i, flags + [c]) == Parsed(EndAnswers(cfg, LacksShort(flags, c)), [true], true)
    decreases |flags|
  {
    hide ParseFrom;
    hide DecodeShort;
    hide Declared;
    hide Decode;
    ReadShort(cfg, args[i], flags + [c], |flags| + 1, None);
    if flags == "" {
      ReadArgument(cfg, c, "", None, 1);
      assert flags + [c] == [c] == [c] + "";
      LastRead(cfg, ord, args, i, [c]);
    } else {
      var rest := flags[1..] + [c];
      assert flags + [c] == [flags[0]] + rest;
      ReadFlag(cfg, flags[0], rest, None);
      StepRead(cfg, ord, args, i, [flags[0]] + rest, FlagAnswer(cfg.optstring, flags[0]), 0, rest);
      RestShort(cfg, args[i], flags, Bare(c));
      LackingGroup(cfg, ord, args, i, flags[1..], c);
      assert Const(true, 0) + [true] == [true];
      LackingAnswers(cfg, flags, c);
    }
  }

  lemma LackingAnswers(cfg: Config, flags: string, c: char)
    requires flags != ""
    ensures EndAnswers(cfg, LacksShort(flags, c))
         == [FlagAnswer(cfg.optstring, flags[0])] + EndAnswers(cfg, LacksShort(flags[1..], c))
  {
    Assoc([FlagAnswer(cfg.optstring, flags[0])], FlagAnswers(cfg.optstring, flags[1..]),
          EndAnswers(cfg, LacksShort("", c)));
  }

  /** What was written is read: the answers, what belongs to the options, and whether an argument was missing. */
  lemma ParseUndoesWrite(cfg: Config, ord: Ordering, pre: seq<string>, items: seq<Item>, e: Ending)
    requires AllSuitable(cfg, items) && EndSuitable(cfg, ord, e)
    requires ord == Permute || forall k :: 0 <= k < |items| ==> !items[k].Operand?
    ensures Parse(cfg, ord, pre + (Written(items) + EndWords(e)), |pre|)
         == Parsed(AllAnswers(cfg, items) + EndAnswers(cfg, e), AllFlags(items) + EndFlags(e),
                   e.LacksShort? || e.LacksLong?)
  {
    hide ParseFrom;
    hide Written;
    hide AllSuitable;
    hide EndSuitable;
    hide AllAnswers;
    hide AllFlags;
    hide EndAnswers;
    hide EndFlags;
    hide EndWords;
    var args, n := pre + (Written(items) + EndWords(e)), |pre| + |Written(items)|;
    WrittenStands(pre, Written(items), EndWords(e));
    ItemsRead(cfg, ord, args, |pre|, items);
    EndRead(cfg, ord, args, n, e);
  }

  lemma WrittenStands(x: seq<string>, y: seq<string>, z: seq<string>)
    ensures var s, n := x + (y + z), |x| + |y|; s[|x|..n] == y && s[n..] == z && s[|x|..] == y + z && s[..|x|] == x
  {
  }

  // ---------------------------------------------------------------- the list afterwards

  function OptionWords(items: seq<Item>): seq<string> {
    if items == [] then [] else (if items[0].Operand? then [] else Words(items[0])) + OptionWords(items[1..])
  }

  function Operands(items: seq<Item>): seq<string> {
    if items == [] then [] else (if items[0].Operand? then [items[0].text] else []) + Operands(items[1..])
  }

  lemma {:induction false} ItemsSelected(items: seq<Item>)
    ensures |AllFlags(items)| == |Written(items)|
    ensures Select(Written(items), AllFlags(items), true) == OptionWords(items)
    ensures Select(Written(items), AllFlags(items), false) == Operands(items)
    decreases |items|
  {
    hide Select;
    hide Words;
    if items == [] {
      SelectConst<string>([], true, true);
      SelectConst<string>([], true, false);
      assert Const(true, 0) == [];
    } else {
      var it, w := items[0], Words(items[0]);
      ItemsSelected(items[1..]);
      var option := !it.Operand?;
      SelectConcat(w, Const(option, |w|), Written(items[1..]), AllFlags(items[1..]), true);
      SelectConcat(w, Const(option, |w|), Written(items[1..]), AllFlags(items[1..]), false);
      SelectConst(w, option, true);
      SelectConst(w, option, false);
      OperandWord(it);
    }
  }

  lemma OperandWord(it: Item)
    ensures it.Operand? ==> Words(it) == [it.text]
  {
  }

  lemma EndSelected(e: Ending)
    ensures |EndFlags(e)| == |EndWords(e)|
    ensures Select(EndWords(e), EndFlags(e), true)
         == if e.Done? || e.Stops? then [] else [EndWords(e)[0]]
    ensures Select(EndWords(e), EndFlags(e), false)
         == if e.Dashes? || e.Stops? then e.operands else []
  {
    var words, flags := EndWords(e), EndFlags(e);
    if e.Dashes? {
      SelectConst(e.operands, false, true);
      SelectConst(e.operands, false, false);
      assert words[1..] == e.operands && flags[1..] == Const(false, |e.operands|);
    } else if e.Stops? {
      SelectConst(words, false, true);
      SelectConst(words, false, false);
    }
  }

  /** The permuted list: what belongs to the options in order, and behind it the operands in order. */
  lemma PartitionOfWritten(cfg: Config, pre: seq<string>, items: seq<Item>, e: Ending)
    requires AllSuitable(cfg, items) && EndSuitable(cfg, Permute, e)
    ensures var args := pre + (Written(items) + EndWords(e));
      Partition(args, |pre|, Parse(cfg, Permute, args, |pre|).flags)
      == pre + (OptionWords(items) + if e.Done? then [] else [EndWords(e)[0]])
             + (Operands(items) + if e.Dashes? then e.operands else [])
  {
    assert !e.Stops?;
    hide Parse;
    hide Select;
    hide Written;
    hide EndSuitable;
    hide EndWords;
    hide EndFlags;
    hide AllFlags;
    hide OptionWords;
    hide Operands;
    var args := pre + (Written(items) + EndWords(e));
    ParseUndoesWrite(cfg, Permute, pre, items, e);
    ItemsSelected(items);
    EndSelected(e);
    WrittenStands(pre, Written(items), EndWords(e));
    SelectConcat(Written(items), AllFlags(items), EndWords(e), EndFlags(e), true);
    SelectConcat(Written(items), AllFlags(items), EndWords(e), EndFlags(e), false);
  }
}
