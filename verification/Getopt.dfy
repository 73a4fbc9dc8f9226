/** The resumable option scanner of lib/getopt.c: its state lives in optind, nextchar, first_nonopt and
    last_nonopt between calls, and it permutes the argument vector in place as it goes. */
module Getopt {
  import opened Seqs
  import opened GetoptSpec

  // ---------------------------------------------------------------- exchange

  /** The greatest common divisor by repeated subtraction. */
  ghost function Gcd(a: nat, b: nat): nat
    decreases a + b
  {
    if a == 0 then b
    else if b == 0 then a
    else if a <= b then Gcd(a, b - a)
    else Gcd(a - b, b)
  }

  lemma GcdStep(a: nat, b: nat)
    requires 0 < a && 0 < b
    ensures b > a ==> Gcd(a, b - a) == Gcd(a, b)
    ensures b <= a ==> Gcd(a - b, b) == Gcd(a, b)
  {
  }

  ghost function Times(d: int, k: int): int {
    d * k
  }

  ghost predicate Divides(d: nat, n: nat) {
    exists k :: n == Times(d, k)
  }

  lemma DividesSum(d: nat, a: nat, b: nat)
    requires Divides(d, a)
    ensures Divides(d, a + b) <==> Divides(d, b)
  {
    var k :| a == Times(d, k);
    if Divides(d, b) {
      var l :| b == Times(d, l);
      assert a + b == Times(d, k + l);
    }
    if Divides(d, a + b) {
      var l :| a + b == Times(d, l);
      assert b == Times(d, l - k);
    }
  }

  /** Gcd is the greatest common divisor: the common divisors of `a` and `b` are exactly its divisors. */
  lemma {:induction false} GcdIsGreatest(a: nat, b: nat, d: nat)
    ensures Divides(d, Gcd(a, b)) <==> Divides(d, a) && Divides(d, b)
    decreases a + b
  {
    assert 0 == Times(d, 0);
    if a != 0 && b != 0 {
      if a <= b {
        GcdIsGreatest(a, b - a, d);
        if Divides(d, a) {
          DividesSum(d, a, b - a);
        }
      } else {
        GcdIsGreatest(a - b, b, d);
        if Divides(d, b) {
          DividesSum(d, b, a - b);
        }
      }
    }
  }

  /** Swaps two disjoint blocks of equal length, element by element. */
  method SwapBlocks(argv: array<string>, i: nat, j: nat, len: nat) returns (ghost swaps: nat)
    requires i + len <= j && j + len <= argv.Length
    modifies argv
    ensures argv[i..i + len] == old(argv[j..j + len]) && argv[j..j + len] == old(argv[i..i + len])
    ensures argv[..i] == old(argv[..i]) && argv[i + len..j] == old(argv[i + len..j])
    ensures argv[j + len..] == old(argv[j + len..])
    ensures swaps == len
  {
    swaps := 0;
    for k := 0 to len
      invariant swaps == k
      invariant forall m :: i <= m < i + k ==> argv[m] == old(argv[m + j - i])
      invariant forall m :: j <= m < j + k ==> argv[m] == old(argv[m - j + i])
      invariant forall m :: 0 <= m < argv.Length && !(i <= m < i + k) && !(j <= m < j + k) ==> argv[m] == old(argv[m])
    {
      var tem := argv[i + k];
      argv[i + k] := argv[j + k];
      argv[j + k] := tem;
      swaps := swaps + 1;
    }
  }

  /** What the part still to be rotated must become. */
  ghost function Rotated(s: seq<string>, lo: nat, bottom: nat, middle: nat, top: nat, hi: nat): seq<string>
    requires lo <= bottom <= middle <= top <= hi <= |s|
  {
    s[lo..bottom] + (s[middle..top] + s[bottom..middle]) + s[top..hi]
  }

  /** Swapping the bottom part with the far end of a longer top part leaves it in its place. */
  lemma BottomShort(was: seq<string>, now: seq<string>, lo: nat, bottom: nat, middle: nat, top: nat, hi: nat)
    requires |was| == |now| && lo <= bottom <= middle <= top <= hi <= |was|
    requires middle - bottom <= top - middle
    requires var len := middle - bottom;
      && now[bottom..middle] == was[top - len..top] && now[top - len..top] == was[bottom..middle]
      && now[..bottom] == was[..bottom] && now[middle..top - len] == was[middle..top - len]
      && now[top..] == was[top..]
    ensures Rotated(now, lo, bottom, middle, top - (middle - bottom), hi)
         == Rotated(was, lo, bottom, middle, top, hi)
  {
    var cut := top - (middle - bottom);
    SliceOfSlice(was, 0, bottom, lo, bottom);
    SliceOfSlice(now, 0, bottom, lo, bottom);
    SliceOfSlice(was, top, |was|, 0, hi - top);
    SliceOfSlice(now, top, |now|, 0, hi - top);
    SplitAt(was, middle, cut, top);
    SplitAt(now, cut, top, hi);
    Regroup(was[lo..bottom], was[middle..cut], was[cut..top], was[bottom..middle], was[top..hi]);
  }

  lemma Regroup(l: seq<string>, x: seq<string>, y: seq<string>, a: seq<string>, h: seq<string>)
    ensures l + ((x + y) + a) + h == l + (x + y) + (a + h)
  {
  }

  lemma Regroup'(l: seq<string>, b: seq<string>, x: seq<string>, y: seq<string>, h: seq<string>)
    ensures l + (b + (x + y)) + h == (l + b) + (x + y) + h
  {
  }

  /** Swapping the top part with the bottom part of a bottom at least as long leaves it in its place. */
  lemma TopShort(was: seq<string>, now: seq<string>, lo: nat, bottom: nat, middle: nat, top: nat, hi: nat)
    requires |was| == |now| && lo <= bottom <= middle <= top <= hi <= |was|
    requires top - middle <= middle - bottom
    requires var len := top - middle;
      && now[bottom..bottom + len] == was[middle..top] && now[middle..top] == was[bottom..bottom + len]
      && now[..bottom] == was[..bottom] && now[bottom + len..middle] == was[bottom + len..middle]
      && now[top..] == was[top..]
    ensures Rotated(now, lo, bottom + (top - middle), middle, top, hi)
         == Rotated(was, lo, bottom, middle, top, hi)
  {
    var cut := bottom + (top - middle);
    SliceOfSlice(was, 0, bottom, lo, bottom);
    SliceOfSlice(now, 0, bottom, lo, bottom);
    SliceOfSlice(was, top, |was|, 0, hi - top);
    SliceOfSlice(now, top, |now|, 0, hi - top);
    SplitAt(was, bottom, cut, middle);
    SplitAt(now, lo, bottom, cut);
    Regroup'(was[lo..bottom], was[middle..top], was[bottom..cut], was[cut..middle], was[top..hi]);
  }

  lemma RotatedDone(s: seq<string>, lo: nat, bottom: nat, middle: nat, top: nat, hi: nat)
    requires lo <= bottom <= middle <= top <= hi <= |s| && (middle == bottom || middle == top)
    ensures Rotated(s, lo, bottom, middle, top, hi) == s[lo..hi]
  {
    SplitAt(s, lo, bottom, hi);
    SplitAt(s, bottom, top, hi);
    assert s[bottom..top] == s[middle..top] + s[bottom..middle];
  }

  /** One round of exchange: the shorter part is swapped into its place. */
  method RotateStep(argv: array<string>, lo: nat, bottom: nat, middle: nat, top: nat, hi: nat)
    returns (bottom': nat, top': nat, ghost swaps: nat)
    requires lo <= bottom < middle < top <= hi <= argv.Length
    modifies argv
    ensures bottom <= bottom' <= middle <= top' <= top && 0 < swaps
    ensures top' - bottom' == top - bottom - swaps
    ensures Rotated(argv[..], lo, bottom', middle, top', hi)
         == old(Rotated(argv[..], lo, bottom, middle, top, hi))
    ensures argv[..lo] == old(argv[..lo]) && argv[hi..] == old(argv[hi..])
    ensures Gcd(middle - bottom', top' - middle) == Gcd(middle - bottom, top - middle)
  {
    hide Rotated;
    hide Gcd;
    GcdStep(middle - bottom, top - middle);
    bottom', top' := bottom, top;
    if top - middle > middle - bottom {
      swaps := SwapBottom(argv, lo, bottom, middle, top, hi);
      top' := top - (middle - bottom);
    } else {
      swaps := SwapTop(argv, lo, bottom, middle, top, hi);
      bottom' := bottom + (top - middle);
    }
  }

  /** The bottom part is the shorter one: swap it with the far end of the top part. */
  method SwapBottom(argv: array<string>, lo: nat, bottom: nat, middle: nat, top: nat, hi: nat)
    returns (ghost swaps: nat)
    requires lo <= bottom < middle < top <= hi <= argv.Length && middle - bottom <= top - middle
    modifies argv
    ensures Rotated(argv[..], lo, bottom, middle, top - (middle - bottom), hi)
         == old(Rotated(argv[..], lo, bottom, middle, top, hi))
    ensures swaps == middle - bottom
    ensures argv[..lo] == old(argv[..lo]) && argv[hi..] == old(argv[hi..])
  {
    hide Rotated;
    ghost var was := argv[..];
    var len := middle - bottom;
    swaps := SwapBlocks(argv, bottom, top - len, len);
    ghost var now := argv[..];
    assert now[bottom..middle] == was[top - len..top] && now[top - len..top] == was[bottom..middle];
    assert now[middle..top - len] == was[middle..top - len];
    assert now[..bottom] == was[..bottom] && now[top..] == was[top..];
    BottomShort(was, now, lo, bottom, middle, top, hi);
    OutsideKept(was, now, bottom, top, lo, hi);
  }

  /** The top part is the shorter one: swap it with the near end of the bottom part. */
  method SwapTop(argv: array<string>, lo: nat, bottom: nat, middle: nat, top: nat, hi: nat)
    returns (ghost swaps: nat)
    requires lo <= bottom < middle < top <= hi <= argv.Length && top - middle <= middle - bottom
    modifies argv
    ensures Rotated(argv[..], lo, bottom + (top - middle), middle, top, hi)
         == old(Rotated(argv[..], lo, bottom, middle, top, hi))
    ensures swaps == top - middle
    ensures argv[..lo] == old(argv[..lo]) && argv[hi..] == old(argv[hi..])
  {
    hide Rotated;
    ghost var was := argv[..];
    var len := top - middle;
    swaps := SwapBlocks(argv, bottom, middle, len);
    ghost var now := argv[..];
    assert now[bottom..bottom + len] == was[middle..top] && now[middle..top] == was[bottom..bottom + len];
    assert now[bottom + len..middle] == was[bottom + len..middle];
    assert now[..bottom] == was[..bottom] && now[top..] == was[top..];
    TopShort(was, now, lo, bottom, middle, top, hi);
    OutsideKept(was, now, bottom, top, lo, hi);
  }

  lemma OutsideKept(was: seq<string>, now: seq<string>, bottom: nat, top: nat, lo: nat, hi: nat)
    requires |was| == |now| && lo <= bottom <= top <= hi <= |was|
    requires now[..bottom] == was[..bottom] && now[top..] == was[top..]
    ensures now[..lo] == was[..lo] && now[hi..] == was[hi..]
  {
    SliceOfSlice(was, 0, bottom, 0, lo);
    SliceOfSlice(now, 0, bottom, 0, lo);
    assert was[top..][hi - top..] == was[hi..] && now[top..][hi - top..] == now[hi..];
  }

  /** exchange's loop: rotates argv[lo..hi] so that what starts at mid comes first, with
      (a + b) - gcd(a, b) swaps for parts of lengths a and b. */
  method Rotate(argv: array<string>, lo: nat, mid: nat, hi: nat) returns (ghost swaps: nat)
    requires lo <= mid <= hi <= argv.Length
    modifies argv
    ensures argv[lo..hi] == old(argv[mid..hi]) + old(argv[lo..mid])
    ensures argv[..lo] == old(argv[..lo]) && argv[hi..] == old(argv[hi..])
    ensures swaps + Gcd(mid - lo, hi - mid) == hi - lo
  {
    var bottom, middle, top := lo, mid, hi;
    swaps := 0;
    ghost var goal := Rotated(argv[..], lo, lo, mid, hi, hi);
    assert goal == old(argv[mid..hi]) + old(argv[lo..mid]);
    hide Rotated;
    while top > middle && middle > bottom
      invariant lo <= bottom <= middle <= top <= hi
      invariant Rotated(argv[..], lo, bottom, middle, top, hi) == goal
      invariant argv[..lo] == old(argv[..lo]) && argv[hi..] == old(argv[hi..])
      invariant Gcd(middle - bottom, top - middle) == Gcd(mid - lo, hi - mid)
      invariant swaps + (top - bottom) == hi - lo
      decreases top - bottom
    {
      ghost var more;
      bottom, top, more := RotateStep(argv, lo, bottom, middle, top, hi);
      swaps := swaps + more;
    }
    RotatedDone(argv[..], lo, bottom, middle, top, hi);
    assert argv[lo..hi] == argv[..][lo..hi];
  }

  // ---------------------------------------------------------------- reading one option

  /** my_index, as an index. */
  method MyIndex(s: string, c: char) returns (i: nat)
    ensures i == IndexOf(s, c)
  {
    i := 0;
    while i < |s| && s[i] != c
      invariant i <= |s| && c !in s[..i]
    {
      i := i + 1;
    }
    IndexUnique(s, c, i);
  }

  lemma {:induction false} IndexUnique(s: string, c: char, i: nat)
    requires i <= |s| && c !in s[..i] && (i < |s| ==> s[i] == c)
    ensures IndexOf(s, c) == i
  {
    if i > 0 {
      assert s[0] == s[..i][0];
      assert s[1..][..i - 1] == s[..i][1..];
      IndexUnique(s[1..], c, i - 1);
    }
  }

  /** The loop over the long option table: pfound/indfound, exact and ambig as in the source. */
  method FindLong(table: seq<LongOption>, name: string) returns (r: Match)
    ensures r == Lookup(table, name)
  {
    var indfound := -1;
    var exact, ambig := false, false;
    var i := 0;
    while i < |table|
      invariant 0 <= i <= |table| && !exact
      invariant FirstExact(table[..i], name).None?
      invariant var near := Abbreviated(table[..i], name, 0);
                && (indfound == -1 <==> near == [])
                && (near != [] ==> indfound == near[0])
                && (ambig <==> |near| > 1)
    {
      assert table[..i + 1] == table[..i] + [table[i]];
      NearSnoc(table[..i], table[i], name, 0);
      ExactSnoc(table[..i], table[i], name);
      if name <= table[i].name {
        if |name| == |table[i].name| {
          assert name == table[i].name;
          ExactPrefix(table, i, name);
          return Found(i);
        } else if indfound == -1 {
          indfound := i;
        } else {
          ambig := true;
        }
      }
      i := i + 1;
    }
    assert table[..|table|] == table;
    if ambig {
      return Ambiguous;
    }
    if indfound != -1 {
      return Found(indfound);
    }
    return Unknown;
  }

  lemma {:induction false} NearSnoc(table: seq<LongOption>, o: LongOption, name: string, at: nat)
    ensures Abbreviated(table + [o], name, at)
         == Abbreviated(table, name, at) + if Abbreviates(name, o) then [at + |table|] else []
  {
    if table == [] {
      assert (table + [o])[1..] == [];
    } else {
      assert (table + [o])[1..] == table[1..] + [o];
      NearSnoc(table[1..], o, name, at + 1);
    }
  }

  lemma {:induction false} ExactSnoc(table: seq<LongOption>, o: LongOption, name: string)
    requires FirstExact(table, name).None?
    ensures FirstExact(table + [o], name) == if o.name == name then Some(|table|) else None
  {
    if table == [] {
      assert (table + [o])[1..] == [];
    } else {
      assert (table + [o])[1..] == table[1..] + [o];
      ExactSnoc(table[1..], o, name);
    }
  }

  lemma {:induction false} ExactPrefix(table: seq<LongOption>, i: nat, name: string)
    requires i < |table| && FirstExact(table[..i + 1], name) == Some(i)
    ensures FirstExact(table, name) == Some(i)
  {
    assert table[..i + 1][0] == table[0];
    if i > 0 {
      assert table[..i + 1][1..] == table[1..][..i];
      ExactPrefix(table[1..], i - 1, name);
    }
  }

  /** One more argument passed. */
  lemma SelectOne(orig: seq<string>, base: nat, i: nat, fl: seq<bool>, c: bool, b: bool)
    requires base <= i < |orig| && |fl| == i - base
    ensures Select(orig[base..i + 1], fl + [c], b)
         == Select(orig[base..i], fl, b) + if c == b then [orig[i]] else []
  {
    assert orig[base..i + 1] == orig[base..i] + [orig[i]];
    SelectConcat(orig[base..i], fl, [orig[i]], [c], b);
    assert [orig[i]][1..] == [] && [c][1..] == [];
  }

  /** `used` more arguments passed, all on the option side. */
  lemma SelectMore(orig: seq<string>, base: nat, i: nat, used: nat, fl: seq<bool>)
    requires base <= i && i + used <= |orig| && |fl| == i - base
    ensures Select(orig[base..i + used], fl + Const(true, used), true)
         == Select(orig[base..i], fl, true) + orig[i..i + used]
    ensures Select(orig[base..i + used], fl + Const(true, used), false) == Select(orig[base..i], fl, false)
  {
    var x := orig[i..i + used];
    assert orig[base..i + used] == orig[base..i] + x;
    SelectConcat(orig[base..i], fl, x, Const(true, used), true);
    SelectConcat(orig[base..i], fl, x, Const(true, used), false);
    SelectConst(x, true, true);
    SelectConst(x, true, false);
  }

  /** When only non-options are ahead, the arguments are in their final order. */
  lemma FinalOrder(now: seq<string>, orig: seq<string>, base: nat, f: nat, i: nat, fl: seq<bool>, flags: seq<bool>)
    requires |now| == |orig| && base <= f <= i <= |orig| && |fl| == i - base
    requires now[..base] == orig[..base] && now[i..] == orig[i..]
    requires now[base..f] == Select(orig[base..i], fl, true) && now[f..i] == Select(orig[base..i], fl, false)
    requires flags == fl + Const(false, |orig| - i)
    ensures now == Partition(orig, base, flags) && f == base + CountTrue(flags)
  {
    var tail := orig[i..];
    assert orig[base..] == orig[base..i] + tail;
    SelectConcat(orig[base..i], fl, tail, Const(false, |tail|), true);
    SelectConcat(orig[base..i], fl, tail, Const(false, |tail|), false);
    SelectConst(tail, false, true);
    SelectConst(tail, false, false);
    SelectCount(orig[base..i], fl);
    CountTrueConcat(fl, Const(false, |tail|));
    CountTrueConst(false, |tail|);
    hide Select;
    hide CountTrue;
    var t, n := Select(orig[base..i], fl, true), Select(orig[base..i], fl, false);
    assert t + [] == t;
    SplitFour(now, base, f, i);
  }

  lemma SplitFour(s: seq<string>, a: nat, b: nat, c: nat)
    requires a <= b <= c <= |s|
    ensures s == s[..a] + s[a..b] + (s[b..c] + s[c..])
  {
  }

  /** The argument vector `now` while `orig` is being scanned from `base` and index `i` has been reached:
      options found before the skipped non-options, the non-options now[f..l], options found since; what is
      ahead has not been touched. */
  ghost predicate ArrangedAs(now: seq<string>, orig: seq<string>, base: nat, f: int, l: int, i: int, fl: seq<bool>) {
    && |now| == |orig| && 1 <= base <= f <= l <= i <= |now| && |fl| == i - base
    && now[..base] == orig[..base] && now[i..] == orig[i..]
    && now[base..f] + now[l..i] == Select(orig[base..i], fl, true)
    && now[f..l] == Select(orig[base..i], fl, false)
  }

  /** The same with everything passed in its final order. */
  ghost predicate GatheredAs(now: seq<string>, orig: seq<string>, base: nat, f: int, i: int, fl: seq<bool>) {
    && |now| == |orig| && 1 <= base <= f <= i <= |now| && |fl| == i - base
    && now[..base] == orig[..base] && now[i..] == orig[i..]
    && now[base..f] == Select(orig[base..i], fl, true)
    && now[f..i] == Select(orig[base..i], fl, false)
  }

  /** The answers given and to come are those of an unpermuted reading of the original arguments. */
  ghost predicate Tracks(cfg: Config, ord: Ordering, orig: seq<string>, base: nat, done: seq<Event>,
                         fl: seq<bool>, i: int, nc: string)
  {
    && base <= |orig| && 0 <= i <= |orig| && (nc != "" ==> i < |orig|)
    && var whole := Parse(cfg, ord, orig, base);
       var ahead := ParseFrom(cfg, ord, orig, i, nc);
       whole.events == done + ahead.events && whole.flags == fl + ahead.flags
  }

  lemma FinalGathered(now: seq<string>, orig: seq<string>, base: nat, f: int, i: int, fl: seq<bool>, flags: seq<bool>)
    requires GatheredAs(now, orig, base, f, i, fl) && flags == fl + Const(false, |orig| - i)
    ensures now == Partition(orig, base, flags) && f == base + CountTrue(flags) && base <= f <= |orig|
  {
    FinalOrder(now, orig, base, f, i, fl, flags);
  }

  lemma DashesAhead(now: seq<string>, orig: seq<string>, base: nat, f: int, l: int, i: int, fl: seq<bool>)
    requires ArrangedAs(now, orig, base, f, l, i, fl) && i < |now|
    ensures 0 <= i && |orig| == |now| && orig[i] == now[i]
  {
    hide Select;
    NextUntouched(now, orig, i);
  }

  lemma DecodesShort(cfg: Config, el: string, nc: string, next: Option<string>)
    requires nc != "" && !TriesLong(cfg, el)
    ensures Decode(cfg, el, nc, next) == DecodeShort(cfg, nc, next)
  {
  }

  lemma NextUntouched(now: seq<string>, orig: seq<string>, i: nat)
    requires |now| == |orig| && i < |now| && now[i..] == orig[i..]
    ensures now[i] == orig[i] && now[i + 1..] == orig[i + 1..] && NextOf(now, i) == NextOf(orig, i)
  {
    assert now[i..][0] == orig[i..][0];
    assert now[i + 1..] == now[i..][1..] && orig[i + 1..] == orig[i..][1..];
    assert i + 1 < |now| ==> now[i + 1..][0] == orig[i + 1..][0];
  }

  lemma PassNonOption(now: seq<string>, orig: seq<string>, base: nat, f: int, i: int, fl: seq<bool>)
    requires GatheredAs(now, orig, base, f, i, fl) && i < |now|
    ensures GatheredAs(now, orig, base, f, i + 1, fl + [false])
  {
    NextUntouched(now, orig, i);
    SelectOne(orig, base, i, fl, false, true);
    SelectOne(orig, base, i, fl, false, false);
    hide Select;
    assert now[f..i + 1] == now[f..i] + [now[i]];
  }

  lemma PassOptions(now: seq<string>, orig: seq<string>, base: nat, f: int, l: int, i: int, fl: seq<bool>, used: nat)
    requires ArrangedAs(now, orig, base, f, l, i, fl) && i + used <= |now|
    ensures ArrangedAs(now, orig, base, f, l, i + used, fl + Const(true, used))
  {
    hide Select;
    SelectMore(orig, base, i, used, fl);
    SliceOfTail(now, orig, i, used);
    SplitAt(now, l, i, i + used);
    Assoc(now[base..f], now[l..i], now[i..i + used]);
  }

  lemma SliceOfTail(now: seq<string>, orig: seq<string>, i: nat, n: nat)
    requires |now| == |orig| && i + n <= |now| && now[i..] == orig[i..]
    ensures now[i..i + n] == orig[i..i + n] && now[i + n..] == orig[i + n..]
  {
    assert now[i..][..n] == now[i..i + n] && orig[i..][..n] == orig[i..i + n];
    assert now[i..][n..] == now[i + n..] && orig[i..][n..] == orig[i + n..];
  }

  lemma TrackNonOption(cfg: Config, orig: seq<string>, base: nat, done: seq<Event>, fl: seq<bool>, i: int)
    requires Tracks(cfg, Permute, orig, base, done, fl, i, "") && i < |orig| && NonOption(orig[i])
    ensures Tracks(cfg, Permute, orig, base, done, fl + [false], i + 1, "")
  {
    hide ParseFrom;
    ParseNonOption(cfg, orig, i);
    Assoc(fl, [false], ParseFrom(cfg, Permute, orig, i + 1, "").flags);
  }

  lemma TrackDecode(cfg: Config, ord: Ordering, orig: seq<string>, base: nat, done: seq<Event>, fl: seq<bool>,
                    i: int, nc: string, d: Decoded)
    requires Tracks(cfg, ord, orig, base, done, fl, i, nc) && nc != ""
    requires d == Decode(cfg, orig[i], nc, NextOf(orig, i))
    ensures Tracks(cfg, ord, orig, base, done + [d.ev], fl + Const(true, d.used), i + d.used, d.rest)
  {
    hide Decode;
    hide ParseFrom;
    ParseStep(cfg, ord, orig, i, nc);
    var ahead := ParseFrom(cfg, ord, orig, i + d.used, d.rest);
    Assoc(done, [d.ev], ahead.events);
    Assoc(fl, Const(true, d.used), ahead.flags);
  }

  /** Nothing but non-options is ahead: the scan is over. */
  lemma TrackEnd(cfg: Config, ord: Ordering, orig: seq<string>, base: nat, done: seq<Event>, fl: seq<bool>, i: int)
    requires Tracks(cfg, ord, orig, base, done, fl, i, "")
    requires i < |orig| ==> ord == RequireOrder && NonOption(orig[i])
    ensures var whole := Parse(cfg, ord, orig, base);
            done == whole.events && whole.flags == fl + Const(false, |orig| - i)
  {
    assert done + [] == done;
  }

  lemma TrackDashes(cfg: Config, ord: Ordering, orig: seq<string>, base: nat, done: seq<Event>, fl: seq<bool>, i: int)
    requires Tracks(cfg, ord, orig, base, done, fl, i, "") && i < |orig| && orig[i] == "--"
    ensures var whole := Parse(cfg, ord, orig, base);
            done == whole.events && whole.flags == (fl + Const(true, 1)) + Const(false, |orig| - i - 1)
  {
    assert done + [] == done;
    assert [true] == Const(true, 1);
    assert fl + ([true] + Const(false, |orig| - i - 1)) == (fl + [true]) + Const(false, |orig| - i - 1);
  }

  lemma TrackBody(cfg: Config, ord: Ordering, orig: seq<string>, base: nat, done: seq<Event>, fl: seq<bool>, i: int)
    requires Tracks(cfg, ord, orig, base, done, fl, i, "") && i < |orig| && IsOptionElement(orig[i])
    ensures Tracks(cfg, ord, orig, base, done, fl, i, Body(cfg, orig[i]))
  {
    ParseBody(cfg, ord, orig, i);
    hide ParseFrom;
  }

  class Scanner {
    const argv: array<string>
    const posixlyCorrect: bool
    var initialized: bool
    var optind: int
    var nextchar: string
    var firstNonopt: int
    var lastNonopt: int
    var ordering: Ordering
    var optarg: Option<string>
    var optopt: int
    var longind: Option<nat>

    constructor (argv: array<string>, posixlyCorrect: bool)
      ensures this.argv == argv && this.posixlyCorrect == posixlyCorrect
      ensures !initialized && optind == 1 && nextchar == ""
    {
      this.argv, this.posixlyCorrect := argv, posixlyCorrect;
      initialized, optind, nextchar := false, 1, "";
      firstNonopt, lastNonopt, ordering := 0, 0, Permute;
      optarg, optopt, longind := None, '?' as int, None;
    }

    /** The short option at nextchar (the last part of _getopt_internal). */
    method ShortOption(cfg: Config) returns (ev: Event, ghost missing: bool)
      requires Supported(cfg) && nextchar != "" && 0 <= optind < argv.Length && optarg == None
      modifies `optind, `nextchar, `optarg, `optopt
      ensures old(optind) <= optind
      ensures Decoded(ev, optind - old(optind), nextchar, missing)
           == DecodeShort(cfg, old(nextchar), NextOf(argv[..], old(optind)))
      ensures optarg == ev.optarg && (ev.optopt.Some? ==> optopt == ev.optopt.value)
    {
      var optstring := cfg.optstring;
      var c := nextchar[0];
      nextchar := nextchar[1..];
      missing := false;
      var temp := MyIndex(optstring, c);
      if nextchar == "" {
        optind := optind + 1;
      }
      if temp == |optstring| || c == ':' {
        optopt := c as int;
        return Event('?' as int, None, None, Some(c as int)), false;
      }
      ev := Event(c as int, None, None, None);
      if CharAt(optstring, temp + 1) == ':' {
        if CharAt(optstring, temp + 2) == ':' {
          if nextchar != "" {
            optarg := Some(nextchar);
            optind := optind + 1;
          } else {
            optarg := None;
          }
        } else {
          if nextchar != "" {
            optarg := Some(nextchar);
            optind := optind + 1;
          } else if optind == argv.Length {
            optopt := c as int;
            missing := true;
            ev := Event(MissingChar(cfg) as int, None, None, Some(c as int));
          } else {
            optarg := Some(argv[optind]);
            optind := optind + 1;
          }
        }
        nextchar := "";
        ev := ev.(optarg := optarg);
      }
    }

    /** The long option branch of _getopt_internal; `tryShort` says that it falls through to short options. */
    method LongOptionBranch(cfg: Config) returns (ev: Event, tryShort: bool, ghost missing: bool)
      requires nextchar != "" && 0 <= optind < argv.Length && optarg == None
      requires TriesLong(cfg, argv[optind])
      modifies `optind, `nextchar, `optarg, `optopt, `longind
      ensures tryShort ==> optind == old(optind) && nextchar == old(nextchar) && optarg == None
      ensures tryShort ==>
        Decode(cfg, argv[optind], nextchar, NextOf(argv[..], optind))
        == DecodeShort(cfg, nextchar, NextOf(argv[..], optind))
      ensures !tryShort ==>
        && old(optind) <= optind
        && Decoded(ev, optind - old(optind), nextchar, missing)
           == Decode(cfg, argv[old(optind)], old(nextchar), NextOf(argv[..], old(optind)))
        && optarg == ev.optarg && (ev.optopt.Some? ==> optopt == ev.optopt.value)
        && (ev.longind.Some? ==> longind == ev.longind)
    {
      var table := cfg.longopts.value;
      var el := argv[optind];
      tryShort, missing := false, false;
      ev := Event('?' as int, None, None, Some(0));
      var nameend := MyIndex(nextchar, '=');
      var found := FindLong(table, nextchar[..nameend]);
      hide Lookup;
      hide DecodeShort;
      match found {
        case Ambiguous =>
          nextchar := "";
          optind := optind + 1;
          optopt := 0;
        case Found(i) =>
          ev, missing := FoundLong(cfg, table[i], i, nameend);
        case Unknown =>
          if !cfg.longOnly || CharAt(el, 1) == '-' || nextchar[0] !in cfg.optstring {
            nextchar := "";
            optind := optind + 1;
            optopt := 0;
          } else {
            tryShort := true;
          }
      }
    }

    /** A long option has been found: take its argument and report it. */
    method FoundLong(cfg: Config, o: LongOption, index: nat, nameend: nat) returns (ev: Event, ghost missing: bool)
      requires 0 <= optind < argv.Length && optarg == None && nameend <= |nextchar|
      modifies `optind, `nextchar, `optarg, `optopt, `longind
      ensures old(optind) <= optind
      ensures var value := if nameend < |old(nextchar)| then Some(old(nextchar)[nameend + 1..]) else None;
              Decoded(ev, optind - old(optind), nextchar, missing)
              == DecodeLong(cfg, o, index, value, NextOf(argv[..], old(optind)))
      ensures optarg == ev.optarg && (ev.optopt.Some? ==> optopt == ev.optopt.value)
      ensures ev.longind.Some? ==> longind == ev.longind
    {
      missing := false;
      optind := optind + 1;
      if nameend < |nextchar| {
        if o.hasArg != 0 {
          optarg := Some(nextchar[nameend + 1..]);
        } else {
          nextchar := "";
          optopt := o.val;
          return Event('?' as int, None, None, Some(o.val)), false;
        }
      } else if o.hasArg == 1 {
        if optind < argv.Length {
          optarg := Some(argv[optind]);
          optind := optind + 1;
        } else {
          nextchar := "";
          optopt := o.val;
          return Event(MissingChar(cfg) as int, None, None, Some(o.val)), true;
        }
      }
      nextchar := "";
      longind := Some(index);
      ev := Event(if o.flag then 0 else o.val, optarg, longind, None);
    }

    /** The decoding half of _getopt_internal. */
    method DecodeOption(cfg: Config) returns (ev: Event, ghost missing: bool)
      requires Supported(cfg) && nextchar != "" && 0 <= optind < argv.Length && optarg == None
      modifies `optind, `nextchar, `optarg, `optopt, `longind
      ensures old(optind) <= optind
      ensures Decoded(ev, optind - old(optind), nextchar, missing)
           == Decode(cfg, argv[old(optind)], old(nextchar), NextOf(argv[..], old(optind)))
      ensures optarg == ev.optarg && (ev.optopt.Some? ==> optopt == ev.optopt.value)
      ensures ev.longind.Some? ==> longind == ev.longind
    {
      hide Decode;
      var el := argv[optind];
      if TriesLong(cfg, el) {
        var tryShort;
        ev, tryShort, missing := LongOptionBranch(cfg);
        if !tryShort {
          return;
        }
      } else {
        DecodesShort(cfg, el, nextchar, NextOf(argv[..], optind));
      }
      ev, missing := ShortOption(cfg);
    }

    // -------------------------------------------------------------- the state between calls

    ghost var orig: seq<string>   // the arguments when the scan started
    ghost var base: nat           // where it started
    ghost var fl: seq<bool>       // for every argument passed, whether it belongs to the options
    ghost var done: seq<Event>    // the answers given

    ghost predicate Sound(cfg: Config)
      reads this, argv
    {
      && initialized && 1 <= optind <= argv.Length
      && ArrangedAs(argv[..], orig, base, firstNonopt, lastNonopt, optind, fl)
      && (nextchar != "" ==> optind < argv.Length && IsOptionElement(argv[optind]))
      && (ordering == RequireOrder ==> firstNonopt == lastNonopt == base)
      && Tracks(cfg, ordering, orig, base, done, fl, optind, nextchar)
    }

    /** The scan is over: the arguments are partitioned, optind stands at the boundary and every answer has
        been given. */
    ghost predicate Finished(cfg: Config)
      reads this, argv
    {
      && argv.Length == |orig| && base <= |orig|
      && var whole := Parse(cfg, ordering, orig, base);
         && argv[..] == Partition(orig, base, whole.flags)
         && optind == base + CountTrue(whole.flags)
         && done == whole.events
    }

    /** _getopt_initialize */
    method Initialize()
      requires 0 <= optind <= argv.Length && 1 <= argv.Length
      modifies `initialized, `optind, `nextchar, `firstNonopt, `lastNonopt, `ordering, `orig, `base, `fl, `done
      ensures initialized && optind == (if old(optind) == 0 then 1 else old(optind)) && nextchar == ""
      ensures ordering == if posixlyCorrect then RequireOrder else Permute
      ensures orig == argv[..] && base == optind && done == [] && fl == []
      ensures firstNonopt == lastNonopt == optind
    {
      if optind == 0 {
        optind := 1;
      }
      firstNonopt, lastNonopt := optind, optind;
      nextchar := "";
      ordering := if posixlyCorrect then RequireOrder else Permute;
      initialized := true;
      orig, base, fl, done := argv[..], optind, [], [];
    }

    /** exchange: the skipped non-options and the options found since change places. */
    method Exchange()
      requires 0 <= firstNonopt <= lastNonopt <= optind <= argv.Length
      modifies argv, `firstNonopt, `lastNonopt
      ensures lastNonopt == optind && firstNonopt == old(firstNonopt) + (optind - old(lastNonopt))
      ensures argv[old(firstNonopt)..firstNonopt] == old(argv[lastNonopt..optind])
      ensures argv[firstNonopt..lastNonopt] == old(argv[firstNonopt..lastNonopt])
      ensures argv[..old(firstNonopt)] == old(argv[..firstNonopt]) && argv[optind..] == old(argv[optind..])
    {
      ghost var x, y := argv[lastNonopt..optind], argv[firstNonopt..lastNonopt];
      ghost var lo := firstNonopt;
      var _ := Rotate(argv, firstNonopt, lastNonopt, optind);
      SliceOfConcat(argv[..], lo, optind, x, y);
      firstNonopt := firstNonopt + (optind - lastNonopt);
      lastNonopt := optind;
      assert argv[lo..firstNonopt] == argv[..][lo..firstNonopt];
      assert argv[firstNonopt..lastNonopt] == argv[..][firstNonopt..lastNonopt];
    }

    /** If options have been found since the non-options, move them in front. */
    method Gather()
      requires ArrangedAs(argv[..], orig, base, firstNonopt, lastNonopt, optind, fl)
      modifies argv, `firstNonopt, `lastNonopt
      ensures GatheredAs(argv[..], orig, base, firstNonopt, optind, fl)
    {
      hide Select;
      ghost var lo, b, was := firstNonopt, base, argv[..];
      if firstNonopt != lastNonopt && lastNonopt != optind {
        ghost var l := lastNonopt;
        Exchange();
        ghost var now := argv[..];
        assert now[b..lo] == was[b..lo] by {
          assert now[..lo] == was[..lo];
          SliceOfSlice(now, 0, lo, b, lo);
          SliceOfSlice(was, 0, lo, b, lo);
        }
        assert now[..base] == now[..lo][..base] == was[..lo][..base];
        SplitAt(now, b, lo, firstNonopt);
        assert now[lo..firstNonopt] == was[l..optind];
        assert now[firstNonopt..optind] == was[lo..l];
        assert now[optind..] == was[optind..];
      } else if lastNonopt != optind {
        firstNonopt := optind;
        SplitAt(was, b, lo, optind);
      } else {
        assert was[b..lo] + was[optind..optind] == was[b..lo];
      }
    }

    /** Passes over non-options, which extend the skipped range. */
    method SkipNonOptions(cfg: Config)
      requires GatheredAs(argv[..], orig, base, firstNonopt, optind, fl)
      requires Tracks(cfg, Permute, orig, base, done, fl, optind, "")
      modifies `optind, `lastNonopt, `fl
      ensures GatheredAs(argv[..], orig, base, firstNonopt, optind, fl)
      ensures Tracks(cfg, Permute, orig, base, done, fl, optind, "")
      ensures lastNonopt == optind && old(optind) <= optind
      ensures optind < argv.Length ==> !NonOption(argv[optind])
    {
      hide Tracks;
      while optind < argv.Length && NonOption(argv[optind])
        invariant GatheredAs(argv[..], orig, base, firstNonopt, optind, fl)
        invariant Tracks(cfg, Permute, orig, base, done, fl, optind, "")
        invariant old(optind) <= optind
      {
        NextUntouched(argv[..], orig, optind);
        PassNonOption(argv[..], orig, base, firstNonopt, optind, fl);
        TrackNonOption(cfg, orig, base, done, fl, optind);
        fl := fl + [false];
        optind := optind + 1;
      }
      lastNonopt := optind;
    }

    /** `--` is passed like an option, and everything behind it is a non-option. */
    method EndAtDashes(cfg: Config)
      requires ArrangedAs(argv[..], orig, base, firstNonopt, lastNonopt, optind, fl)
      requires Tracks(cfg, ordering, orig, base, done, fl, optind, "")
      requires optind < argv.Length && argv[optind] == "--" && (firstNonopt == lastNonopt || lastNonopt == optind)
      modifies argv, `optind, `firstNonopt, `lastNonopt, `fl
      ensures optind == lastNonopt == argv.Length && base <= firstNonopt <= argv.Length == |orig|
      ensures var whole := Parse(cfg, ordering, orig, base);
        && argv[..] == Partition(orig, base, whole.flags) && firstNonopt == base + CountTrue(whole.flags)
        && done == whole.events
    {
      hide Tracks;
      hide ArrangedAs;
      hide GatheredAs;
      DashesAhead(argv[..], orig, base, firstNonopt, lastNonopt, optind, fl);
      TrackDashes(cfg, ordering, orig, base, done, fl, optind);
      PassOptions(argv[..], orig, base, firstNonopt, lastNonopt, optind, fl, 1);
      fl := fl + Const(true, 1);
      optind := optind + 1;
      Gather();
      FinalGathered(argv[..], orig, base, firstNonopt, optind, fl, Parse(cfg, ordering, orig, base).flags);
      lastNonopt := argv.Length;
      optind := argv.Length;
    }

    /** The scan is over without `--`: optind is set to the boundary. */
    lemma OverWithoutDashes(cfg: Config, f: int)
      requires ArrangedAs(argv[..], orig, base, firstNonopt, lastNonopt, optind, fl)
      requires Tracks(cfg, ordering, orig, base, done, fl, optind, "")
      requires optind < argv.Length ==> ordering == RequireOrder && NonOption(orig[optind])
      requires ordering == RequireOrder ==> firstNonopt == lastNonopt && f == optind
      requires ordering == Permute ==> lastNonopt == optind && f == firstNonopt
      ensures var whole := Parse(cfg, ordering, orig, base);
              argv[..] == Partition(orig, base, whole.flags) && f == base + CountTrue(whole.flags)
              && done == whole.events
    {
      hide Select;
      TrackEnd(cfg, ordering, orig, base, done, fl, optind);
      var now := argv[..];
      if ordering == RequireOrder {
        SplitAt(now, base, firstNonopt, optind);
        assert now[f..optind] == [];
      } else {
        assert now[base..f] + now[lastNonopt..optind] == now[base..f];
      }
      assert GatheredAs(now, orig, base, f, optind, fl);
      hide GatheredAs;
      hide Tracks;
      FinalGathered(now, orig, base, f, optind, fl, Parse(cfg, ordering, orig, base).flags);
    }

    /** The permuting part of advancing: options found since the last non-options go in front, and further
        non-options are passed over. */
    method PermuteAndSkip(cfg: Config)
      requires ArrangedAs(argv[..], orig, base, firstNonopt, lastNonopt, optind, fl)
      requires Tracks(cfg, Permute, orig, base, done, fl, optind, "")
      modifies argv, `optind, `firstNonopt, `lastNonopt, `fl
      ensures ArrangedAs(argv[..], orig, base, firstNonopt, lastNonopt, optind, fl)
      ensures Tracks(cfg, Permute, orig, base, done, fl, optind, "")
      ensures lastNonopt == optind && old(optind) <= optind
      ensures optind < argv.Length ==> !NonOption(argv[optind])
      ensures argv[optind..] == old(argv[..])[optind..]
    {
      hide Tracks;
      hide Select;
      ghost var was := argv[..];
      Gather();
      SkipNonOptions(cfg);
      ghost var now := argv[..];
      assert now[base..firstNonopt] + now[optind..optind] == now[base..firstNonopt];
      SliceOfTail(was, orig, old(optind), optind - old(optind));
    }

    /** The first half of _getopt_internal, entered when the last element is used up. */
    method Advance(cfg: Config) returns (over: bool)
      requires Sound(cfg) && nextchar == ""
      modifies argv, `optind, `firstNonopt, `lastNonopt, `nextchar, `fl
      ensures over ==> Finished(cfg)
      ensures !over ==> Sound(cfg) && nextchar != "" && old(optind) <= optind < argv.Length
      ensures !over ==> |nextchar| < |argv[optind]| && argv[optind] == old(argv[..])[optind]
    {
      hide Tracks;
      hide Select;
      hide Parse;
      // first_nonopt and last_nonopt never exceed optind here, so the source's clamping has no effect.
      if ordering == Permute {
        PermuteAndSkip(cfg);
      }
      if optind != argv.Length && argv[optind] == "--" {
        EndAtDashes(cfg);
        if firstNonopt != lastNonopt {
          optind := firstNonopt;
        }
        return true;
      }
      if optind == argv.Length {
        OverWithoutDashes(cfg, if ordering == Permute then firstNonopt else optind);
        if firstNonopt != lastNonopt {
          optind := firstNonopt;
        }
        return true;
      }
      NextUntouched(argv[..], orig, optind);
      if NonOption(argv[optind]) {
        OverWithoutDashes(cfg, optind);
        return true;
      }
      TrackBody(cfg, ordering, orig, base, done, fl, optind);
      nextchar := if cfg.longopts.Some? && argv[optind][1] == '-' then argv[optind][2..] else argv[optind][1..];
      over := false;
    }

    /** A call may be made: a scan is under way, or the next call starts one. */
    ghost predicate Callable(cfg: Config)
      reads this, argv
    {
      if initialized && optind != 0 then Sound(cfg)
      else 0 <= optind <= argv.Length && 1 <= argv.Length && (optind != 0 ==> nextchar == "")
    }

    /** How much of the current element is left. */
    ghost function Left(): nat
      reads this, argv
    {
      if nextchar != "" then |nextchar| else if 0 <= optind < argv.Length then |argv[optind]| else 0
    }

    lemma FreshIsSound(cfg: Config)
      requires initialized && nextchar == "" && 1 <= optind <= argv.Length
      requires orig == argv[..] && base == optind && done == [] && fl == []
      requires firstNonopt == lastNonopt == optind
      ensures Sound(cfg)
    {
      var whole := Parse(cfg, ordering, orig, base);
      assert [] + whole.events == whole.events && [] + whole.flags == whole.flags;
      assert orig[base..optind] == [];
    }

    /** _getopt_internal; None is the return value -1. Every other answer is the next one of the unpermuted
        reading and uses up some of what is left to scan. */
    method GetoptInternal(cfg: Config) returns (r: Option<Event>)
      requires Supported(cfg) && Callable(cfg)
      modifies this, argv
      ensures initialized
      ensures if old(initialized && optind != 0)
              then (orig, base, ordering) == old((orig, base, ordering))
              else orig == old(argv[..]) && base == (if old(optind) == 0 then 1 else old(optind))
                   && ordering == (if posixlyCorrect then RequireOrder else Permute)
      ensures done == old(if initialized && optind != 0 then done else []) + if r.Some? then [r.value] else []
      ensures r.None? ==> Finished(cfg)
      ensures r.Some? ==>
        && Sound(cfg) && optarg == r.value.optarg
        && (optind > old(optind) || (optind == old(optind) && Left() < old(Left())))
    {
      hide ArrangedAs;
      hide Tracks;
      hide Finished;
      optarg := None;
      if !initialized || optind == 0 {
        Initialize();
        FreshIsSound(cfg);
      }
      if nextchar == "" {
        var over := Advance(cfg);
        if over {
          return None;
        }
      }
      var ev := NextAnswer(cfg);
      r := Some(ev);
    }

    /** The second half of _getopt_internal, and what it keeps. */
    method NextAnswer(cfg: Config) returns (ev: Event)
      requires Supported(cfg) && Sound(cfg) && nextchar != "" && optarg == None
      modifies `optind, `nextchar, `optarg, `optopt, `longind, `fl, `done
      ensures Sound(cfg) && done == old(done) + [ev] && optarg == ev.optarg
      ensures optind > old(optind) || (optind == old(optind) && nextchar != "" && |nextchar| < |old(nextchar)|)
    {
      hide ArrangedAs;
      hide Decode;
      hide Tracks;
      Foretell(cfg);
      ghost var d := Decode(cfg, argv[optind], nextchar, NextOf(argv[..], optind));
      ghost var missing;
      ev, missing := DecodeOption(cfg);
      fl := fl + Const(true, d.used);
      done := done + [ev];
    }

    /** Where decoding the next option leads. */
    lemma Foretell(cfg: Config)
      requires Sound(cfg) && nextchar != ""
      ensures 0 <= optind < argv.Length
      ensures var d := Decode(cfg, argv[optind], nextchar, NextOf(argv[..], optind));
              && 1 <= optind + d.used <= argv.Length
              && ArrangedAs(argv[..], orig, base, firstNonopt, lastNonopt, optind + d.used, fl + Const(true, d.used))
              && Tracks(cfg, ordering, orig, base, done + [d.ev], fl + Const(true, d.used), optind + d.used, d.rest)
    {
      hide Decode;
      hide Select;
      NextUntouched(argv[..], orig, optind);
      var d := Decode(cfg, argv[optind], nextchar, NextOf(argv[..], optind));
      TrackDecode(cfg, ordering, orig, base, done, fl, optind, nextchar, d);
      PassOptions(argv[..], orig, base, firstNonopt, lastNonopt, optind, fl, d.used);
    }
  }

  /** The loop every caller runs: call until -1. */
  method ScanAll(argv: array<string>, posixlyCorrect: bool, cfg: Config) returns (events: seq<Event>, optind: int)
    requires Supported(cfg) && 1 <= argv.Length
    modifies argv
    ensures var ord := if posixlyCorrect then RequireOrder else Permute;
            var p := Parse(cfg, ord, old(argv[..]), 1);
            && events == p.events
            && argv[..] == Partition(old(argv[..]), 1, p.flags)
            && optind == 1 + CountTrue(p.flags)
  {
    var s := new Scanner(argv, posixlyCorrect);
    events := [];
    while true
      invariant s.argv == argv && fresh(s) && s.posixlyCorrect == posixlyCorrect
      invariant s.Callable(cfg)
      invariant if s.initialized
        then s.orig == old(argv[..]) && s.base == 1 && s.done == events && s.optind >= 1
             && s.ordering == (if posixlyCorrect then RequireOrder else Permute)
        else events == [] && s.optind == 1 && argv[..] == old(argv[..])
      decreases argv.Length - s.optind, s.Left()
    {
      hide s.Sound;
      var r := s.GetoptInternal(cfg);
      if r.None? {
        break;
      }
      events := events + [r.value];
    }
    optind := s.optind;
  }

  /** Scanning in permuting mode and then scanning the permuted arguments again in strict order. */
  method ScanTwice(argv: array<string>, cfg: Config)
    returns (first: seq<Event>, second: seq<Event>, optind: int, optind': int)
    requires Supported(cfg) && 1 <= argv.Length
    modifies argv
    ensures var p := Parse(cfg, Permute, old(argv[..]), 1);
            first == second && optind == optind'
            <==> !(p.missing && Select(old(argv[..])[1..], p.flags, false) != [])
  {
    ghost var orig := argv[..];
    first, optind := ScanAll(argv, false, cfg);
    second, optind' := ScanAll(argv, true, cfg);
    RescanAgrees(cfg, orig, 1);
  }
}
