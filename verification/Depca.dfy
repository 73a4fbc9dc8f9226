/** The probe of the DEPCA Ethernet adapter (netboot/depca.c): finding the signature in the address PROM and
    checking the address checksum. A read of the PROM port is the next byte of a stream. */
module Depca {
  import opened Seqs

  const SIG: seq<Byte> := [0xFF, 0x00, 0x55, 0xAA, 0xFF, 0x00, 0x55, 0xAA]
  const PROBE_LENGTH: nat := 32

  /** `stream` ends with the first `k` bytes of the signature. */
  ghost predicate EndsWith(stream: seq<Byte>, k: nat) {
    k <= 8 && k <= |stream| && stream[|stream| - k..] == SIG[..k]
  }

  /** `j` is the length of the longest proper or full signature prefix that `stream` ends with. */
  ghost predicate Longest(stream: seq<Byte>, j: nat) {
    EndsWith(stream, j) && forall k :: j < k <= 8 ==> !EndsWith(stream, k)
  }

  /** The matcher's next state: advance on a match, otherwise fall back to one or nothing. */
  function Track(j: nat, data: Byte): (r: nat)
    requires j < 8
    ensures r <= 8
  {
    if data == SIG[j] then j + 1 else if data == SIG[0] then 1 else 0
  }

  /** Ending with `k + 1` signature bytes is ending with `k` before the last byte, and the last byte fitting. */
  lemma EndsWithSnoc(stream: seq<Byte>, data: Byte, k: nat)
    requires k < 8
    ensures EndsWith(stream + [data], k + 1) <==> EndsWith(stream, k) && data == SIG[k]
  {
    var s := stream + [data];
    if k <= |stream| {
      assert s[|s| - (k + 1)..] == stream[|stream| - k..] + [data];
      assert SIG[..k + 1] == SIG[..k] + [SIG[k]];
      assert (stream[|stream| - k..] + [data])[..k] == stream[|stream| - k..];
      assert (SIG[..k] + [SIG[k]])[..k] == SIG[..k];
    }
  }

  /** A stream that ends with `j` signature bytes ends with a shorter signature prefix `k` exactly when the
      signature overlaps itself that way: four apart. */
  lemma Overlap(stream: seq<Byte>, j: nat, k: nat)
    requires EndsWith(stream, j) && k <= j <= 8
    ensures EndsWith(stream, k) <==> SIG[j - k..j] == SIG[..k]
  {
    SliceOfSlice(stream, |stream| - j, |stream|, j - k, j);
    SliceOfSlice(SIG, 0, j, j - k, j);
    assert stream[|stream| - j..|stream|] == stream[|stream| - j..];
    assert stream[|stream| - k..|stream|] == stream[|stream| - k..];
  }

  /** The signature overlaps itself only at distance four. */
  lemma SelfOverlap(j: nat, k: nat)
    requires 0 < k < j <= 8
    ensures SIG[j - k..j] == SIG[..k] <==> k + 4 == j
  {
    assert SIG[j - k..j][0] == SIG[j - k] && SIG[..k][0] == SIG[0];
    if k + 4 == j {
      assert SIG[j - k..j] == SIG[4..4 + k];
    } else if k == 4 {
    }
  }

  /** The signature's period. */
  lemma SigRepeats(k: nat)
    requires k < 4
    ensures SIG[k] == SIG[k + 4]
  {
    assert k == 0 || k == 1 || k == 2 || k == 3;
  }

  /** After one more byte the stream ends with `k + 1` signature bytes only in the three ways the matcher knows. */
  lemma EndsWithNext(stream: seq<Byte>, j: nat, data: Byte, k: nat)
    requires j < 8 && Longest(stream, j) && k < 8
    ensures EndsWith(stream + [data], k + 1) <==> data == SIG[k] && (k == j || k == 0 || (k < j && k + 4 == j))
  {
    hide EndsWith;
    EndsWithSnoc(stream, data, k);
    if k == 0 {
      EmptyEnd(stream);
    } else if k < j {
      Overlap(stream, j, k);
      SelfOverlap(j, k);
    }
  }

  /** The matcher's naive fallback is exact: it always holds the longest signature prefix the stream ends with.
      This depends on the signature repeating after four bytes. */
  lemma TrackIsLongest(stream: seq<Byte>, j: nat, data: Byte)
    requires j < 8 && Longest(stream, j)
    ensures Longest(stream + [data], Track(j, data))
  {
    hide EndsWith;
    var s := stream + [data];
    var r := Track(j, data);
    if r == 0 {
      EmptyEnd(s);
    } else {
      EndsWithNext(stream, j, data, r - 1);
    }
    forall k | r < k <= 8
      ensures !EndsWith(s, k)
    {
      EndsWithNext(stream, j, data, k - 1);
      if (k - 1) + 4 == j {
        SigRepeats(k - 1);
      }
    }
  }

  /** Every stream ends with no bytes of the signature. */
  lemma EmptyEnd(s: seq<Byte>)
    ensures EndsWith(s, 0)
  {
    assert s[|s|..] == [] == SIG[..0];
  }

  /** The search loop of depca_probe1: it stops right behind the first occurrence of the signature, or finds none
      in the bytes it may read. */
  method FindSignature(stream: seq<Byte>) returns (found: bool, i: nat)
    requires |stream| >= PROBE_LENGTH + 8 - 1
    ensures i <= PROBE_LENGTH + 8 - 1
    ensures found ==> EndsWith(stream[..i], 8) && forall m :: 0 <= m < i ==> !EndsWith(stream[..m], 8)
    ensures !found ==> forall m :: 0 <= m <= PROBE_LENGTH + 8 - 1 ==> !EndsWith(stream[..m], 8)
  {
    i := 0;
    var j := 0;
    assert Longest(stream[..0], 0);
    while j < 8 && i < PROBE_LENGTH + 8 - 1
      invariant i <= PROBE_LENGTH + 8 - 1 && j <= 8 && Longest(stream[..i], j)
      invariant forall m :: 0 <= m < i ==> !EndsWith(stream[..m], 8)
      decreases PROBE_LENGTH + 8 - i
    {
      hide EndsWith;
      var data := stream[i];
      TrackIsLongest(stream[..i], j, data);
      assert stream[..i + 1] == stream[..i] + [data];
      if data == SIG[j] {
        j := j + 1;
      } else {
        j := if data == SIG[0] then 1 else 0;
      }
      i := i + 1;
    }
    found := j == 8;
  }

  /** What reading `n` bytes yields when the PROM's address counter stands at `start`. */
  function Reads(prom: seq<Byte>, start: nat, n: nat): (r: seq<Byte>)
    requires |prom| == PROBE_LENGTH
    ensures |r| == n
  {
    seq(n, i => prom[(start + i) % PROBE_LENGTH])
  }

  /** The signature stands at address `at`, possibly round the end. */
  ghost predicate SignatureAt(prom: seq<Byte>, at: nat)
    requires |prom| == PROBE_LENGTH
  {
    Reads(prom, at, 8) == SIG
  }

  /** Wherever the counter starts, 39 reads meet every address the signature may stand at. */
  lemma ReadsSuffice(prom: seq<Byte>, start: nat, at: nat) returns (m: nat)
    requires |prom| == PROBE_LENGTH && SignatureAt(prom, at)
    ensures 8 <= m <= PROBE_LENGTH + 8 - 1
    ensures EndsWith(Reads(prom, start, PROBE_LENGTH + 8 - 1)[..m], 8)
  {
    var p := (at - start) % PROBE_LENGTH;
    m := p + 8;
    var stream := Reads(prom, start, PROBE_LENGTH + 8 - 1);
    var q := (at - start) / PROBE_LENGTH;
    forall t | 0 <= t < 8
      ensures stream[..m][p..][t] == SIG[t]
    {
      assert start + (p + t) == at + t - PROBE_LENGTH * q;
      SameAddress(start + (p + t), at + t, q);
      assert Reads(prom, at, 8)[t] == prom[(at + t) % PROBE_LENGTH];
    }
    assert stream[..m][p..] == SIG[..8];
  }

  lemma SameAddress(a: int, b: int, q: int)
    requires a == b - PROBE_LENGTH * q
    ensures a % PROBE_LENGTH == b % PROBE_LENGTH
  {
  }

  /** Conversely, an occurrence in the bytes read is the signature standing in the PROM, and the counter is left
      right behind it. */
  lemma OccurrenceIsSignature(prom: seq<Byte>, start: nat, n: nat, m: nat)
    requires |prom| == PROBE_LENGTH && m <= n && EndsWith(Reads(prom, start, n)[..m], 8)
    ensures SignatureAt(prom, start + m - 8)
  {
    var stream := Reads(prom, start, n);
    var tail := stream[..m][m - 8..];
    forall t | 0 <= t < 8
      ensures Reads(prom, start + m - 8, 8)[t] == SIG[t]
    {
      assert tail[t] == stream[m - 8 + t] == prom[(start + (m - 8 + t)) % PROBE_LENGTH];
      assert tail[t] == SIG[..8][t];
    }
  }

  /** The probe finds the signature exactly when the PROM holds it, from any start of the address counter. */
  method ProbeProm(prom: seq<Byte>, start: nat) returns (found: bool, counter: nat)
    requires |prom| == PROBE_LENGTH
    ensures found <==> exists at :: SignatureAt(prom, at)
    ensures found ==> start + 8 <= counter && SignatureAt(prom, counter - 8)
  {
    var stream := Reads(prom, start, PROBE_LENGTH + 8 - 1);
    var i;
    found, i := FindSignature(stream);
    counter := start + i;
    if found {
      OccurrenceIsSignature(prom, start, PROBE_LENGTH + 8 - 1, i);
    }
    forall at | SignatureAt(prom, at)
      ensures found
    {
      var m := ReadsSuffice(prom, start, at);
    }
  }

  // ---------------------------------------------------------------- checksum

  /** The words of the address, each counting twice as much as the next one. */
  ghost function DoublingSum(words: seq<(Byte, Byte)>): nat {
    if words == [] then 0
    else
      var last := words[|words| - 1];
      var low: int, high: int := last.0, last.1;
      2 * DoublingSum(words[..|words| - 1]) + low + 256 * high
  }

  /** The sum for the six octets of an address. */
  lemma SumOfAddress(a: seq<Byte>)
    requires |a| == 6
    ensures DoublingSum([(a[0], a[1]), (a[2], a[3]), (a[4], a[5])])
         == 4 * (a[0] as int + 256 * a[1] as int) + 2 * (a[2] as int + 256 * a[3] as int)
            + (a[4] as int + 256 * a[5] as int)
  {
    var w0, w1, w2 := (a[0], a[1]), (a[2], a[3]), (a[4], a[5]);
    assert [w0, w1, w2][..2] == [w0, w1] && [w0, w1][..1] == [w0];
    assert DoublingSum([w0]) == 2 * DoublingSum([w0][..0]) + a[0] as int + 256 * a[1] as int;
  }

  lemma SameResidue(sum: int, total: int, w: int)
    requires sum % 65535 == total % 65535
    ensures (2 * sum + w) % 65535 == (2 * total + w) % 65535
  {
    var k := sum / 65535 - total / 65535;
    assert sum == total + 65535 * k;
    assert 2 * sum + w == 2 * total + w + 65535 * (2 * k);
  }

  /** The checksum loop of depca_probe1 over any number of words: every intermediate sum fits sixteen bits, and
      the result is the doubling sum modulo 65535. */
  method Checksum(words: seq<(Byte, Byte)>) returns (sum: nat)
    ensures sum == DoublingSum(words) % 65535
  {
    sum := 0;
    for j := 0 to |words|
      invariant sum <= 0xFFFF && sum % 65535 == DoublingSum(words[..j]) % 65535
    {
      ghost var before := sum;
      var low: int, high: int := words[j].0, words[j].1;
      assert words[..j + 1][..j] == words[..j];
      SameResidue(sum, DoublingSum(words[..j]), low + 256 * high);
      sum := sum * 2;
      if sum > 0xFFFF {
        sum := sum - 0xFFFF;
      }
      sum := sum + low;
      sum := sum + high * 256;
      if sum > 0xFFFF {
        sum := sum - 0xFFFF;
      }
      Casting(2 * before + low + 256 * high, sum);
    }
    assert words[..|words|] == words;
    if sum == 0xFFFF {
      sum := 0;
    }
  }

  /** Casting out 65535 keeps the residue. */
  lemma Casting(x: nat, y: nat)
    requires y == x || y == x - 65535 || y == x - 2 * 65535
    ensures y % 65535 == x % 65535
  {
  }
}
