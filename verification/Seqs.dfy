/** Types and facts about sequences that every module needs. */
module Seqs {
  /** unsigned char */
  type Byte = b: int | 0 <= b < 256

  datatype Option<+T> = None | Some(value: T)

  /** `x`, `n` times. */
  function Const<T>(x: T, n: nat): (r: seq<T>)
    ensures |r| == n && forall i :: 0 <= i < n ==> r[i] == x
  {
    seq(n, _ => x)
  }

  lemma SliceOfSlice<T>(s: seq<T>, lo: nat, hi: nat, a: nat, b: nat)
    requires lo <= hi <= |s| && a <= b <= hi - lo
    ensures s[lo..hi][a..b] == s[lo + a..lo + b]
  {
    var t := s[lo..hi];
    forall i | 0 <= i < b - a
      ensures t[a..b][i] == s[lo + a..lo + b][i]
    {
      assert t[a..b][i] == t[a + i] == s[lo + (a + i)];
    }
  }

  lemma SplitAt<T>(s: seq<T>, lo: nat, mid: nat, hi: nat)
    requires lo <= mid <= hi <= |s|
    ensures s[lo..hi] == s[lo..mid] + s[mid..hi]
  {
  }

  /** Cutting a slice known to be a concatenation. */
  lemma SliceOfConcat<T>(s: seq<T>, lo: nat, hi: nat, x: seq<T>, y: seq<T>)
    requires lo <= hi <= |s| && s[lo..hi] == x + y
    ensures s[lo..lo + |x|] == x && s[lo + |x|..hi] == y
  {
    SliceOfSlice(s, lo, hi, 0, |x|);
    SliceOfSlice(s, lo, hi, |x|, hi - lo);
    assert (x + y)[..|x|] == x && (x + y)[|x|..] == y;
  }

  /** Cutting the front off a tail known to be a concatenation of three. */
  lemma TailOfConcat<T>(s: seq<T>, lo: nat, x: seq<T>, y: seq<T>, z: seq<T>)
    requires lo <= |s| && s[lo..] == (x + y) + z
    ensures lo + |x| <= |s| && s[lo..lo + |x|] == x && s[lo + |x|..] == y + z
  {
    assert (x + y) + z == x + (y + z);
    assert s[lo..|s|] == s[lo..];
    SliceOfConcat(s, lo, |s|, x, y + z);
  }

  lemma PartsOfConcat<T>(x: seq<T>, y: seq<T>)
    ensures (x + y)[..|x|] == x && (x + y)[|x|..] == y
  {
  }

  lemma Assoc<T>(x: seq<T>, y: seq<T>, z: seq<T>)
    ensures x + (y + z) == (x + y) + z
  {
  }

  lemma HeadTail<T>(s: seq<T>)
    requires s != []
    ensures s == [s[0]] + s[1..]
  {
  }

  /** `a` is `b` with some elements left out. */
  ghost predicate Subsequence<T>(a: seq<T>, b: seq<T>)
    decreases |b|
  {
    if a == [] then true
    else if b == [] then false
    else if a[|a| - 1] == b[|b| - 1] && Subsequence(a[..|a| - 1], b[..|b| - 1]) then true
    else Subsequence(a, b[..|b| - 1])
  }

  lemma {:induction false} SubsequenceDrop<T>(a: seq<T>, b: seq<T>, x: seq<T>)
    requires Subsequence(a, b)
    ensures Subsequence(a, b + x)
    decreases |x|
  {
    if x == [] {
      assert b + x == b;
    } else {
      assert (b + x)[..|b + x| - 1] == b + x[..|x| - 1];
      SubsequenceDrop(a, b, x[..|x| - 1]);
    }
  }

  lemma SubsequenceSnoc<T>(a: seq<T>, b: seq<T>, f: T)
    requires Subsequence(a, b)
    ensures Subsequence(a + [f], b + [f])
  {
    assert (a + [f])[..|a|] == a && (b + [f])[..|b|] == b;
  }
}
