/** What the lines of a device map mean, character by character: which are ignored, which map a drive, and that the
    ignored ones make no difference. */
module DeviceMapLines {
  import opened Seqs
  import opened Decimal
  import opened DeviceMap

  // ---------------------------------------------------------------- forms

  /** A blank, a tab, or one of the other four characters that isspace knows. */
  predicate Blank(c: char) {
    c == ' ' || 9 <= c as int <= 13
  }

  /** Only blanks from `p` to `q`. */
  ghost predicate Blanks(s: string, p: nat, q: nat) {
    p <= q <= |s| && forall i :: p <= i < q ==> Blank(s[i])
  }

  /** The text ends at `p`. */
  predicate EndsAt(s: string, p: nat) {
    p == |s| || (p < |s| && s[p] == '\0')
  }

  /** A drive's name starts at `p`, behind nothing but blanks. */
  ghost predicate DriveAt(s: string, p: nat) {
    Blanks(s, 0, p) && p + 2 < |s| && s[p] == '(' && (s[p + 1] == 'f' || s[p + 1] == 'h') && s[p + 2] == 'd'
  }

  /** The digits of a number stand from `d` to `q`. */
  ghost predicate DigitsAt(s: string, d: nat, q: nat) {
    d < q <= |s| && AllDigits(s[d..q]) && (q < |s| ==> !('0' <= s[q] <= '9'))
  }

  /** A number, read into 32 bits without a sign and stored as an int. */
  function Stored(negative: bool, n: nat): int {
    var u := if n > 0xFFFF_FFFF then 0xFFFF_FFFF else if negative && n > 0 then 0x1_0000_0000 - n else n;
    if u >= 0x8000_0000 then u - 0x1_0000_0000 else u
  }

  /** A number with value `v` as an int stands from `a` to `q`: blanks, perhaps a sign, and digits from `d` on. */
  ghost predicate NumberAt(s: string, a: nat, b: nat, d: nat, q: nat, v: int) {
    && Blanks(s, a, b) && DigitsAt(s, d, q)
    && (d == b || (d == b + 1 && (s[b] == '+' || s[b] == '-')))
    && v == Stored(d == b + 1 && s[b] == '-', Value(s[d..q]))
  }

  ghost predicate NumberIs(s: string, a: nat, q: nat, v: int) {
    exists b: nat, d: nat :: NumberAt(s, a, b, d, q, v)
  }

  /** A name without blanks from `start` to `end`. */
  ghost predicate NameAt(s: string, start: nat, end: nat, name: string) {
    && start < end <= |s| && name == s[start..end]
    && (forall i :: start <= i < end ==> s[i] != '\0' && !Blank(s[i]))
    && (EndsAt(s, end) || Blank(s[end]))
  }

  /** The drive's number `v` ends at `q`, where a parenthesis is closed; no number at all is zero. */
  ghost predicate Closed(s: string, p: nat, q: nat, v: int) {
    && q < |s| && s[q] == ')' && 0 <= v <= 127
    && (NumberIs(s, p + 3, q, v) || (q == p + 3 && v == 0))
  }

  ghost predicate MapsAt(s: string, p: nat, q: nat, v: int, start: nat, end: nat, name: string) {
    DriveAt(s, p) && Closed(s, p, q, v) && Blanks(s, q + 1, start) && NameAt(s, start, end, name)
  }

  /** `(fdN) name` or `(hdN) name`: a drive number up to 127. */
  ghost predicate MapsForm(s: string, drive: nat, name: string) {
    exists p: nat, q: nat, v: int, start: nat, end: nat ::
      MapsAt(s, p, q, v, start, end, name) && drive == if s[p + 1] == 'f' then v else v + 128
  }

  ghost predicate LargeAt(s: string, p: nat, q: nat, v: int) {
    DriveAt(s, p) && NumberIs(s, p + 3, q, v) && v > 127
  }

  ghost predicate BlankTo(s: string, p: nat) {
    Blanks(s, 0, p) && EndsAt(s, p)
  }

  /** A comment, a line of blanks, or a drive number above 127. */
  ghost predicate IgnoredForm(s: string) {
    || (s != "" && s[0] == '#')
    || (exists p: nat :: BlankTo(s, p))
    || (exists p: nat, q: nat, v: int :: LargeAt(s, p, q, v))
  }

  // ---------------------------------------------------------------- the library functions

  lemma {:induction false} BlanksEnd(s: string, p: nat, q: nat)
    requires Blanks(s, p, q) && (q < |s| ==> !Blank(s[q]))
    ensures SpaceEnd(s, p) == q
    decreases q - p
  {
    if p < q {
      BlanksEnd(s, p + 1, q);
    }
  }

  lemma {:induction false} SkipsBlanks(s: string, p: nat)
    requires p <= |s|
    ensures Blanks(s, p, SpaceEnd(s, p))
    ensures var q := SpaceEnd(s, p); q < |s| ==> !Blank(s[q])
    decreases |s| - p
  {
    if p < |s| && IsSpace(s[p]) {
      SkipsBlanks(s, p + 1);
    }
  }

  lemma {:induction false} NameEnd(s: string, p: nat, q: nat)
    requires p <= q <= |s| && (EndsAt(s, q) || Blank(s[q]))
    requires forall i :: p <= i < q ==> s[i] != '\0' && !Blank(s[i])
    ensures WordEnd(s, p) == q
    decreases q - p
  {
    if p < q {
      NameEnd(s, p + 1, q);
    }
  }

  lemma {:induction false} SkipsName(s: string, p: nat)
    requires p <= |s|
    ensures var q := WordEnd(s, p);
            && (EndsAt(s, q) || Blank(s[q]))
            && forall i :: p <= i < q ==> s[i] != '\0' && !Blank(s[i])
    decreases |s| - p
  {
    if At(s, p) != '\0' && !IsSpace(At(s, p)) {
      SkipsName(s, p + 1);
    }
  }

  /** A number is read to its end, and stored as the conversion to int has it. */
  lemma StrtoulReads(s: string, a: nat, q: nat, v: int)
    requires NumberIs(s, a, q, v)
    ensures var (u, end) := Strtoul(s, a); end == q && Wrap32(u) == v
  {
    hide Value;
    hide DigitEnd;
    hide SpaceEnd;
    var b: nat, d: nat :| NumberAt(s, a, b, d, q, v);
    assert s[d] == s[d..q][0];
    BlanksEnd(s, a, b);
    DigitEndOfRun(s, d, q);
  }

  /** Where something is read, there is a number. */
  lemma StrtoulFinds(s: string, a: nat)
    requires a <= |s|
    ensures var (u, q) := Strtoul(s, a); (q == a && u == 0) || NumberIs(s, a, q, Wrap32(u))
  {
    SkipsBlanks(s, a);
    var b := SpaceEnd(s, a);
    hide SpaceEnd;
    var d := if At(s, b) == '-' || At(s, b) == '+' then b + 1 else b;
    var q := DigitEnd(s, d);
    if q > d {
      DigitsFound(s, b, d, q);
      hide DigitEnd;
      NumberStored(s, a, b, d, q);
      assert NumberAt(s, a, b, d, q, Stored(At(s, b) == '-', Value(s[d..q])));
    }
  }

  lemma DigitsFound(s: string, b: nat, d: nat, q: nat)
    requires q == DigitEnd(s, d) && q > d
    ensures DigitsAt(s, d, q) && (b == d ==> IsDigit(At(s, b)))
  {
  }

  lemma NumberStored(s: string, a: nat, b: nat, d: nat, q: nat)
    requires b == SpaceEnd(s, a) && d == (if At(s, b) == '-' || At(s, b) == '+' then b + 1 else b)
    requires q == DigitEnd(s, d) && DigitsAt(s, d, q)
    ensures var (u, end) := Strtoul(s, a); end == q && Wrap32(u) == Stored(At(s, b) == '-', Value(s[d..q]))
  {
    hide SpaceEnd;
    hide DigitEnd;
    hide Value;
  }

  // ---------------------------------------------------------------- a line

  lemma DriveHead(s: string, p: nat)
    requires DriveAt(s, p)
    ensures SpaceEnd(s, 0) == p && At(s, 0) != '#' && At(s, p) == '('
  {
    BlanksEnd(s, 0, p);
  }

  lemma MapsAreRead(s: string, p: nat, q: nat, v: int, start: nat, end: nat, name: string)
    requires MapsAt(s, p, q, v, start, end, name)
    ensures Classify(s) == Maps(if s[p + 1] == 'f' then v else v + 128, name)
  {
    hide Classify;
    hide SpaceEnd;
    hide WordEnd;
    hide Strtoul;
    hide NumberIs;
    DriveHead(s, p);
    NumberRead(s, p + 3, q, v);
    BlanksEnd(s, q + 1, start);
    NameEnd(s, start, end);
    var (u, _) := Strtoul(s, p + 3);
    PartsClassified(s, p, u, q, start, end);
  }

  lemma PartsClassified(s: string, p: nat, u: nat, q: nat, start: nat, end: nat)
    requires p == SpaceEnd(s, 0) && (u, q) == Strtoul(s, p + 3)
    requires start == SpaceEnd(s, q + 1) && end == WordEnd(s, start)
    requires start < end <= |s| && q < |s| && s[q] == ')' && s[start] != '\0'
    requires p + 2 < |s| && s[p] == '(' && (s[p + 1] == 'f' || s[p + 1] == 'h') && s[p + 2] == 'd'
    requires s[0] != '#' && 0 <= Wrap32(u) <= 127
    ensures Classify(s) == Maps(if s[p + 1] == 'f' then Wrap32(u) else Wrap32(u) + 128, s[start..end])
  {
    hide Strtoul;
    hide SpaceEnd;
    hide WordEnd;
    hide Wrap32;
  }

  lemma NumberRead(s: string, a: nat, q: nat, v: int)
    requires q < |s| && s[q] == ')' && (NumberIs(s, a, q, v) || (q == a && v == 0))
    ensures var (u, end) := Strtoul(s, a); end == q && Wrap32(u) == v
  {
    if NumberIs(s, a, q, v) {
      StrtoulReads(s, a, q, v);
    } else {
      BlanksEnd(s, q, q);
    }
  }

  lemma LargeIsIgnored(s: string, p: nat, q: nat, v: int)
    requires LargeAt(s, p, q, v)
    ensures Classify(s).Ignored?
  {
    DriveHead(s, p);
    StrtoulReads(s, p + 3, q, v);
    hide SpaceEnd;
    hide WordEnd;
    hide Strtoul;
    hide NumberIs;
  }

  lemma BlankIsIgnored(s: string, p: nat)
    requires BlankTo(s, p)
    ensures Classify(s).Ignored?
  {
    BlanksEnd(s, 0, p);
  }

  lemma IgnoredHasForm(s: string)
    requires Classify(s).Ignored? && At(s, 0) != '#'
    ensures IgnoredForm(s)
  {
    SkipsBlanks(s, 0);
    var p := SpaceEnd(s, 0);
    hide SpaceEnd;
    hide WordEnd;
    if At(s, p) == '\0' {
      assert BlankTo(s, p);
    } else {
      StrtoulFinds(s, p + 3);
      hide Strtoul;
      hide NumberIs;
      var (u, q) := Strtoul(s, p + 3);
      assert LargeAt(s, p, q, Wrap32(u));
    }
  }

  lemma MapsHasForm(s: string)
    requires Classify(s).Maps?
    ensures MapsForm(s, Classify(s).drive, Classify(s).name)
  {
    hide Classify;
    hide SpaceEnd;
    hide WordEnd;
    hide Strtoul;
    hide Parts;
    hide NumberIs;
    hide MapsForm;
    var p := SpaceEnd(s, 0);
    var (u, q) := Strtoul(s, p + 3);
    var start := SpaceEnd(s, q + 1);
    var end, v := WordEnd(s, start), Wrap32(u);
    ClassifiedParts(s, p, u, q, start, end);
    SkipsBlanks(s, 0);
    StrtoulFinds(s, p + 3);
    SkipsBlanks(s, q + 1);
    SkipsName(s, start);
    PartsHaveForm(s, p, v, q, start, end, Classify(s));
  }

  /** What is looked at in a line that maps a drive. */
  ghost predicate Parts(s: string, p: nat, v: int, q: nat, start: nat, end: nat, e: Entry) {
    && p + 2 < |s| && s[p] == '(' && (s[p + 1] == 'f' || s[p + 1] == 'h') && s[p + 2] == 'd'
    && 0 <= v <= 127 && q < |s| && s[q] == ')' && start < end <= |s|
    && e == Maps(if s[p + 1] == 'f' then v else v + 128, s[start..end])
  }

  lemma ClassifiedParts(s: string, p: nat, u: nat, q: nat, start: nat, end: nat)
    requires p == SpaceEnd(s, 0) && (u, q) == Strtoul(s, p + 3)
    requires start == SpaceEnd(s, q + 1) && end == WordEnd(s, start)
    requires Classify(s).Maps?
    ensures Parts(s, p, Wrap32(u), q, start, end, Classify(s)) && p + 2 < |s| && q < |s| && start < |s|
  {
    hide Strtoul;
    hide SpaceEnd;
    hide Wrap32;
  }

  lemma PartsHaveForm(s: string, p: nat, v: int, q: nat, start: nat, end: nat, e: Entry)
    requires Parts(s, p, v, q, start, end, e)
    requires Blanks(s, 0, p) && Blanks(s, q + 1, start) && (NumberIs(s, p + 3, q, v) || (q == p + 3 && v == 0))
    requires (EndsAt(s, end) || Blank(s[end])) && forall i :: start <= i < end ==> s[i] != '\0' && !Blank(s[i])
    ensures MapsForm(s, e.drive, e.name)
  {
    hide NumberIs;
    assert DriveAt(s, p) && Closed(s, p, q, v) && NameAt(s, start, end, e.name);
    hide DriveAt;
    hide Closed;
    hide NameAt;
    assert MapsAt(s, p, q, v, start, end, e.name);
  }

  /** Which lines are ignored, which map which drive to which name, and hence which are malformed. */
  lemma LineMeans(s: string)
    ensures Classify(s).Ignored? <==> IgnoredForm(s)
    ensures forall drive: nat, name :: Classify(s) == Maps(drive, name) <==> MapsForm(s, drive, name)
    ensures Classify(s).Malformed? <==> !IgnoredForm(s) && forall drive: nat, name :: !MapsForm(s, drive, name)
  {
    hide Classify;
    IgnoredIff(s);
    hide IgnoredForm;
    forall drive: nat, name
      ensures Classify(s) == Maps(drive, name) <==> MapsForm(s, drive, name)
    {
      if Classify(s) == Maps(drive, name) {
        MapsHasForm(s);
      }
      if MapsForm(s, drive, name) {
        var p: nat, q: nat, v: int, start: nat, end: nat :|
          MapsAt(s, p, q, v, start, end, name) && drive == if s[p + 1] == 'f' then v else v + 128;
        MapsAreRead(s, p, q, v, start, end, name);
      }
    }
  }

  lemma IgnoredIff(s: string)
    ensures Classify(s).Ignored? <==> IgnoredForm(s)
  {
    if At(s, 0) == '#' {
      assert Classify(s).Ignored?;
    } else {
      hide Classify;
      if Classify(s).Ignored? {
        IgnoredHasForm(s);
      }
      if p: nat :| BlankTo(s, p) {
        BlankIsIgnored(s, p);
      }
      if p: nat, q: nat, v: int :| LargeAt(s, p, q, v) {
        LargeIsIgnored(s, p, q, v);
      }
    }
  }

  // ---------------------------------------------------------------- a file

  function Essential(es: seq<Entry>): seq<Entry> {
    if es == [] then []
    else Essential(es[..|es| - 1]) + if es[|es| - 1].Ignored? then [] else [es[|es| - 1]]
  }

  lemma AcceptableStep(es: seq<Entry>, e: Entry, m: seq<Option<string>>)
    requires |m| == NUM_DISKS
    ensures Acceptable(es + [e], m) <==> Acceptable(es, m) && Fits(es + [e], |es|, m)
  {
    var all := es + [e];
    assert all[..|es|] == es && all[..|es| + 1] == all;
    if Acceptable(es, m) {
      AcceptableSnoc(all, |es|, m);
    } else if Acceptable(all, m) {
      forall i | 0 <= i < |es|
        ensures Fits(es, i, m)
      {
        assert Fits(all, i, m);
      }
    }
  }

  /** The same drives are named. */
  ghost predicate SameDrives(es: seq<Entry>, fs: seq<Entry>) {
    forall e: Entry :: e.Maps? ==> (e in es <==> e in fs)
  }

  lemma {:induction false} EssentialNames(es: seq<Entry>)
    ensures SameDrives(es, Essential(es))
  {
    if es != [] {
      EssentialNames(es[..|es| - 1]);
      assert es == es[..|es| - 1] + [es[|es| - 1]];
    }
  }

  lemma FitsSame(es: seq<Entry>, fs: seq<Entry>, e: Entry, m: seq<Option<string>>)
    requires |m| == NUM_DISKS && SameDrives(es, fs)
    ensures Fits(es + [e], |es|, m) <==> Fits(fs + [e], |fs|, m)
  {
    FitsIff(es, e, m);
    FitsIff(fs, e, m);
    hide Fits;
  }

  ghost predicate NewDrive(es: seq<Entry>, e: Entry, m: seq<Option<string>>)
    requires |m| == NUM_DISKS
  {
    && !e.Malformed?
    && (e.Maps? ==>
          && e.drive < NUM_DISKS && m[e.drive].None?
          && forall f :: f in es && f.Maps? ==> f.drive != e.drive)
  }

  lemma FitsIff(es: seq<Entry>, e: Entry, m: seq<Option<string>>)
    requires |m| == NUM_DISKS
    ensures Fits(es + [e], |es|, m) <==> NewDrive(es, e, m)
  {
    var all := es + [e];
    assert forall j :: 0 <= j < |es| ==> all[j] == es[j];
  }

  /** Leaving out what is ignored changes neither whether a list of entries is accepted nor the map it makes. */
  lemma {:induction false} EssentialAccepted(es: seq<Entry>, m: seq<Option<string>>)
    requires |m| == NUM_DISKS
    ensures Acceptable(es, m) <==> Acceptable(Essential(es), m)
  {
    hide Fits;
    hide Acceptable;
    if es != [] {
      var front, e := es[..|es| - 1], es[|es| - 1];
      EssentialAccepted(front, m);
      assert es == front + [e];
      AcceptableStep(front, e, m);
      if e.Ignored? {
        FitsIff(front, e, m);
        assert Essential(es) == Essential(front);
      } else {
        EssentialNames(front);
        FitsSame(front, Essential(front), e, m);
        AcceptableStep(Essential(front), e, m);
      }
    }
  }

  lemma EssentialMerged(es: seq<Entry>, m: seq<Option<string>>, now: seq<Option<string>>)
    requires |m| == |now| == NUM_DISKS
    ensures Merged(es, m, now) <==> Merged(Essential(es), m, now)
  {
    hide Essential;
    EssentialNames(es);
    MergedIff(es, m, now);
    MergedIff(Essential(es), m, now);
    hide Merged;
  }

  ghost predicate Holds(es: seq<Entry>, m: seq<Option<string>>, now: seq<Option<string>>)
    requires |m| == |now| == NUM_DISKS
  {
    && (forall e: Entry :: e in es && e.Maps? && e.drive < NUM_DISKS ==> now[e.drive] == Some(e.name))
    && forall d: nat :: d < NUM_DISKS && now[d] != m[d] ==> exists e: Entry :: e in es && e.Maps? && e.drive == d
  }

  lemma MergedIff(es: seq<Entry>, m: seq<Option<string>>, now: seq<Option<string>>)
    requires |m| == |now| == NUM_DISKS
    ensures Merged(es, m, now) <==> Holds(es, m, now)
  {
    if Merged(es, m, now) {
      forall d: nat | d < NUM_DISKS && now[d] != m[d]
        ensures exists e: Entry :: e in es && e.Maps? && e.drive == d
      {
        var i :| 0 <= i < |es| && es[i].Maps? && es[i].drive == d;
        assert es[i] in es;
      }
    }
    if Holds(es, m, now) {
      forall i | 0 <= i < |es| && es[i].Maps? && es[i].drive < NUM_DISKS
        ensures now[es[i].drive] == Some(es[i].name)
      {
        assert es[i] in es;
      }
      forall d | 0 <= d < NUM_DISKS && now[d] != m[d]
        ensures exists i :: 0 <= i < |es| && es[i].Maps? && es[i].drive == d
      {
        var e: Entry :| e in es && e.Maps? && e.drive == d;
        var i :| 0 <= i < |es| && es[i] == e;
      }
    }
  }

  // ---------------------------------------------------------------- lines

  /** What one fgets takes: a line with its newline at the end, or as much as fits without one. */
  ghost predicate IsPiece(piece: string, rest: string) {
    && 0 < |piece| <= 1023
    && (forall i :: 0 <= i < |piece| - 1 ==> piece[i] != '\n')
    && (piece[|piece| - 1] == '\n' || |piece| == 1023 || rest == "")
  }

  /** How a file falls apart. */
  lemma PieceTaken(piece: string, rest: string)
    requires IsPiece(piece, rest)
    ensures Lines(piece + rest) == [piece] + Lines(rest)
  {
    PieceEnd(piece, rest, BUF_SIZE - 1);
    TakenApart(piece, rest);
  }

  lemma {:induction false} PieceEnd(piece: string, rest: string, room: nat)
    requires 0 < |piece| <= room && forall i :: 0 <= i < |piece| - 1 ==> piece[i] != '\n'
    requires piece[|piece| - 1] == '\n' || |piece| == room || rest == ""
    ensures FgetsEnd(piece + rest, room) == |piece|
  {
    assert (piece + rest)[1..] == piece[1..] + rest;
    if |piece| > 1 {
      PieceEnd(piece[1..], rest, room - 1);
    }
  }

  /** The file is empty or ends with a newline. */
  predicate WholeLines(text: string) {
    text == "" || text[|text| - 1] == '\n'
  }

  lemma {:induction false} EndBefore(text: string, rest: string, room: nat)
    requires text != "" && text[|text| - 1] == '\n' && room > 0
    ensures FgetsEnd(text + rest, room) == FgetsEnd(text, room)
  {
    assert (text + rest)[1..] == text[1..] + rest;
    if text[0] != '\n' && room > 1 {
      EndBefore(text[1..], rest, room - 1);
    }
  }

  lemma {:induction false} LinesJoin(text: string, rest: string)
    requires WholeLines(text)
    ensures Lines(text + rest) == Lines(text) + Lines(rest)
    decreases |text|
  {
    if text == "" {
      assert text + rest == rest;
    } else {
      EndBefore(text, rest, BUF_SIZE - 1);
      var n := FgetsEnd(text, BUF_SIZE - 1);
      hide FgetsEnd;
      var head, tail := text[..n], text[n..];
      assert text + rest == head + (tail + rest);
      TakenApart(head, tail + rest);
      assert text == head + tail;
      TakenApart(head, tail);
      LinesJoin(tail, rest);
      hide Lines;
      Assoc([head], Lines(tail), Lines(rest));
    }
  }

  /** A line that is ignored can be removed: the file is accepted as before, and makes the same map. */
  lemma IgnoredLineRemoved(before: string, line: string, after: string, m: seq<Option<string>>,
                           now: seq<Option<string>>)
    requires WholeLines(before) && IsPiece(line, after) && IgnoredForm(line) && |m| == |now| == NUM_DISKS
    ensures var with, without := Entries(Lines(before + (line + after))), Entries(Lines(before + after));
      && (Acceptable(with, m) <==> Acceptable(without, m))
      && (Merged(with, m, now) <==> Merged(without, m, now))
  {
    hide Lines;
    hide Entries;
    hide Classify;
    hide Acceptable;
    hide Merged;
    hide IgnoredForm;
    hide IsPiece;
    IgnoredIff(line);
    LinesJoin(before, line + after);
    LinesJoin(before, after);
    PieceTaken(line, after);
    EntriesJoin(Lines(before), Lines(after));
    EntriesJoin(Lines(before), [line] + Lines(after));
    EntriesJoin([line], Lines(after));
    EntryAlone(line);
    EntryRemoved(Entries(Lines(before)), Classify(line), Entries(Lines(after)), m, now);
  }

  lemma EntriesJoin(a: seq<string>, b: seq<string>)
    ensures Entries(a + b) == Entries(a) + Entries(b)
  {
    hide Classify;
  }

  lemma EntryAlone(line: string)
    ensures Entries([line]) == [Classify(line)]
  {
    hide Classify;
  }

  lemma EntryRemoved(b: seq<Entry>, e: Entry, a: seq<Entry>, m: seq<Option<string>>, now: seq<Option<string>>)
    requires e.Ignored? && |m| == |now| == NUM_DISKS
    ensures Acceptable(b + ([e] + a), m) <==> Acceptable(b + a, m)
    ensures Merged(b + ([e] + a), m, now) <==> Merged(b + a, m, now)
  {
    hide Acceptable;
    hide Merged;
    EssentialRemoved(b, e, a);
    hide Essential;
    EssentialAccepted(b + a, m);
    EssentialAccepted(b + ([e] + a), m);
    EssentialMerged(b + a, m, now);
    EssentialMerged(b + ([e] + a), m, now);
  }

  lemma {:induction false} EssentialJoin(a: seq<Entry>, b: seq<Entry>)
    ensures Essential(a + b) == Essential(a) + Essential(b)
    decreases |b|
  {
    if b == [] {
      assert a + b == a;
    } else {
      var front, e := b[..|b| - 1], b[|b| - 1];
      assert (a + b)[..|a + b| - 1] == a + front;
      EssentialJoin(a, front);
    }
  }

  lemma EssentialRemoved(b: seq<Entry>, e: Entry, a: seq<Entry>)
    requires e.Ignored?
    ensures Essential(b + ([e] + a)) == Essential(b + a)
  {
    EssentialJoin(b, [e] + a);
    EssentialJoin(b, a);
    EssentialJoin([e], a);
    assert Essential([e]) == [];
  }
}
