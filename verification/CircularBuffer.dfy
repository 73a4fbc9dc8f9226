/** Circular reading and writing of a byte ring, as a receiving chip writes frames and its driver reads them
    back across the wrap-around (netboot/etherboot.h has the frame sizes). */
module CircularBuffer {
  import opened Seqs

  /** The smallest and the largest Ethernet frame, without the check sequence. */
  const ETH_ZLEN: nat := 60
  const ETH_FRAME_LEN: nat := 1514

  /** A little-endian unsigned short. */
  function Word(low: Byte, high: Byte): nat {
    var l: int, h: int := low, high;
    l + 256 * h
  }

  /** The offset `i`, taken round the ring once if need be. */
  function Wrap(i: nat, size: nat): (r: nat)
    requires i < 2 * size
    ensures r < size
  {
    if i < size then i else i - size
  }

  /** The `n` bytes from `start` on. */
  function ReadRing(ring: seq<Byte>, start: nat, n: nat): (r: seq<Byte>)
    requires start < |ring| && n <= |ring|
    ensures |r| == n
  {
    if start + n <= |ring| then ring[start..start + n]
    else ring[start..] + ring[..start + n - |ring|]
  }

  /** The ring with `data` stored from `start` on. */
  function WriteRing(ring: seq<Byte>, start: nat, data: seq<Byte>): (r: seq<Byte>)
    requires start < |ring| && |data| <= |ring|
    ensures |r| == |ring|
  {
    if start + |data| <= |ring| then ring[..start] + data + ring[start + |data|..]
    else
      var k := |ring| - start;
      data[k..] + ring[|data| - k..start] + data[..k]
  }

  lemma ReadAt(ring: seq<Byte>, start: nat, n: nat, k: nat)
    requires start < |ring| && k < n <= |ring|
    ensures ReadRing(ring, start, n)[k] == ring[Wrap(start + k, |ring|)]
  {
  }

  lemma WriteAt(ring: seq<Byte>, start: nat, data: seq<Byte>, i: nat)
    requires start < |ring| && |data| <= |ring| && i < |ring|
    ensures var d := if i >= start then i - start else i - start + |ring|;
            WriteRing(ring, start, data)[i] == if d < |data| then data[d] else ring[i]
  {
  }

  /** Reading in two parts is reading in one. */
  lemma ReadSplit(ring: seq<Byte>, start: nat, a: nat, b: nat)
    requires start < |ring| && a + b <= |ring|
    ensures ReadRing(ring, start, a + b)
         == ReadRing(ring, start, a) + ReadRing(ring, Wrap(start + a, |ring|), b)
  {
    hide ReadRing;
    var x, y := ReadRing(ring, start, a), ReadRing(ring, Wrap(start + a, |ring|), b);
    forall k | 0 <= k < a + b
      ensures ReadRing(ring, start, a + b)[k] == (x + y)[k]
    {
      ReadAt(ring, start, a + b, k);
      if k < a {
        ReadAt(ring, start, a, k);
      } else {
        ReadAt(ring, Wrap(start + a, |ring|), b, k - a);
      }
    }
  }

  /** What has been written is read back. */
  lemma ReadBack(ring: seq<Byte>, start: nat, data: seq<Byte>)
    requires start < |ring| && |data| <= |ring|
    ensures ReadRing(WriteRing(ring, start, data), start, |data|) == data
  {
    var after := WriteRing(ring, start, data);
    forall k | 0 <= k < |data|
      ensures ReadRing(after, start, |data|)[k] == data[k]
    {
      ReadAt(after, start, |data|, k);
      WriteAt(ring, start, data, Wrap(start + k, |ring|));
    }
  }

  /** Writing behind the bytes in use leaves them alone. */
  lemma ReadUnchanged(ring: seq<Byte>, start: nat, used: nat, data: seq<Byte>)
    requires start < |ring| && used + |data| <= |ring|
    ensures ReadRing(WriteRing(ring, Wrap(start + used, |ring|), data), start, used) == ReadRing(ring, start, used)
  {
    var at := Wrap(start + used, |ring|);
    var after := WriteRing(ring, at, data);
    forall k | 0 <= k < used
      ensures ReadRing(after, start, used)[k] == ReadRing(ring, start, used)[k]
    {
      ReadAt(after, start, used, k);
      ReadAt(ring, start, used, k);
      WriteAt(ring, at, data, Wrap(start + k, |ring|));
    }
  }

  /** Appending: after the write, the bytes in use are the old ones followed by the new ones. */
  lemma AppendRing(ring: seq<Byte>, start: nat, used: nat, data: seq<Byte>)
    requires start < |ring| && used + |data| <= |ring|
    ensures var after := WriteRing(ring, Wrap(start + used, |ring|), data);
            ReadRing(after, start, used + |data|) == ReadRing(ring, start, used) + data
  {
    var at := Wrap(start + used, |ring|);
    var after := WriteRing(ring, at, data);
    ReadSplit(after, start, used, |data|);
    ReadUnchanged(ring, start, used, data);
    ReadBack(ring, at, data);
  }

  /** Reading a ring that is the end of a larger memory. */
  lemma ReadWindow(mem: seq<Byte>, base: nat, at: nat, n: nat)
    requires base + at < |mem| && n <= |mem| - base
    ensures ReadRing(mem[base..], at, n)
         == if base + at + n <= |mem| then mem[base + at..base + at + n]
            else mem[base + at..|mem|] + mem[base..base + (base + at + n - |mem|)]
  {
    var ring := mem[base..];
    if base + at + n <= |mem| {
      assert ring[at..at + n] == mem[base + at..base + at + n];
    } else {
      assert ring[at..] == mem[base + at..|mem|];
      assert ring[..at + n - |ring|] == mem[base..base + (at + n - |ring|)];
    }
  }

  /** The frames delivered by steps that each deliver one or none. */
  function Delivered<T>(outputs: seq<Option<T>>): seq<T> {
    if outputs == [] then []
    else
      Delivered(outputs[..|outputs| - 1])
      + if outputs[|outputs| - 1].Some? then [outputs[|outputs| - 1].value] else []
  }

  lemma DeliveredSnoc<T>(outputs: seq<Option<T>>, o: Option<T>)
    ensures Delivered(outputs + [o]) == if o.Some? then Delivered(outputs) + [o.value] else Delivered(outputs)
  {
    assert (outputs + [o])[..|outputs|] == outputs;
  }

  lemma DeliveredNone<T>()
    ensures Delivered<T>([]) == []
  {
  }
}
