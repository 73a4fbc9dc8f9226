/** The receive ring of the RTL8139 driver (netboot/rtl8139.c): a byte ring in which every frame starts at a
    multiple of four behind a four-byte header, read through a cursor that grows without bound modulo 2^32.

    The chip is modelled by what it writes; timers and the transmitter are not part of the model. */
module Rtl8139 {
  import opened Seqs
  import opened CircularBuffer
  import opened ByteQueue

  // RX_BUF_LEN is 8192; it is written out below so that offsets stay linear arithmetic.

  ghost predicate IsRecord(rec: seq<Byte>, r: Received) {
    && |rec| == Stride(|r.frame|)
    && Word(rec[0], rec[1]) == r.status
    && Word(rec[2], rec[3]) == |r.frame| + 4
    && rec[4..4 + |r.frame|] == r.frame
  }

  /** `bytes` is the records of `queue`, one after the other. */
  ghost predicate Holds(bytes: seq<Byte>, queue: seq<Received>)
    decreases |queue|
  {
    if queue == [] then bytes == []
    else
      var s := Stride(|queue[0].frame|);
      && s <= |bytes| && IsRecord(bytes[..s], queue[0]) && Holds(bytes[s..], queue[1..])
  }

  lemma {:induction false} HoldsUsed(bytes: seq<Byte>, queue: seq<Received>)
    requires Holds(bytes, queue)
    ensures |bytes| == Used(queue)
    decreases |queue|
  {
    if queue != [] {
      HoldsUsed(bytes[Stride(|queue[0].frame|)..], queue[1..]);
    }
  }

  /** The `used` bytes from offset `at` on hold the frames of `queue`. */
  ghost predicate Stores(ring: seq<Byte>, at: nat, used: nat, queue: seq<Received>) {
    && |ring| == 8192 && at < 8192 && used <= 8192 && at % 4 == 0 && used % 4 == 0
    && Holds(ReadRing(ring, at, used), queue)
  }

  lemma {:induction false} HoldsAppend(bytes: seq<Byte>, queue: seq<Received>, rec: seq<Byte>, r: Received)
    requires Holds(bytes, queue) && IsRecord(rec, r)
    ensures Holds(bytes + rec, queue + [r])
    decreases |queue|
  {
    if queue == [] {
      assert bytes + rec == rec && rec[..|rec|] == rec && rec[|rec|..] == [];
      assert [r][1..] == [];
    } else {
      var s := Stride(|queue[0].frame|);
      assert (bytes + rec)[..s] == bytes[..s] && (bytes + rec)[s..] == bytes[s..] + rec;
      assert (queue + [r])[1..] == queue[1..] + [r];
      HoldsAppend(bytes[s..], queue[1..], rec, r);
    }
  }

  lemma ArrivalStores(ring: seq<Byte>, at: nat, used: nat, queue: seq<Received>, rec: seq<Byte>, r: Received)
    requires Stores(ring, at, used, queue) && IsRecord(rec, r) && used + |rec| <= 8192
    ensures Stores(WriteRing(ring, Wrap(at + used, 8192), rec), at, used + |rec|, queue + [r])
  {
    hide ReadRing;
    hide WriteRing;
    hide Holds;
    hide Stride;
    hide Wrap;
    AppendRing(ring, at, used, rec);
    HoldsAppend(ReadRing(ring, at, used), queue, rec, r);
  }

  /** The head record, and what is stored behind it. */
  lemma HeadRecord(ring: seq<Byte>, at: nat, used: nat, queue: seq<Received>)
    requires Stores(ring, at, used, queue) && queue != []
    ensures var s := Stride(|queue[0].frame|);
            && s <= used <= 8192
            && IsRecord(ReadRing(ring, at, s), queue[0])
            && Stores(ring, Wrap(at + s, 8192), used - s, queue[1..])
  {
    hide ReadRing;
    hide IsRecord;
    hide Holds;
    hide Stride;
    var s := Stride(|queue[0].frame|);
    HoldsHead(ReadRing(ring, at, used), queue);
    HeadBytes(ring, at, used, s);
  }

  lemma HoldsHead(bytes: seq<Byte>, queue: seq<Received>)
    requires Holds(bytes, queue) && queue != []
    ensures var s := Stride(|queue[0].frame|);
            s <= |bytes| && IsRecord(bytes[..s], queue[0]) && Holds(bytes[s..], queue[1..])
  {
  }

  lemma HeadBytes(ring: seq<Byte>, at: nat, used: nat, s: nat)
    requires |ring| == 8192 && at < 8192 && s <= used <= 8192
    ensures ReadRing(ring, at, used)[..s] == ReadRing(ring, at, s)
    ensures ReadRing(ring, at, used)[s..] == ReadRing(ring, Wrap(at + s, 8192), used - s)
  {
    hide ReadRing;
    ReadSplit(ring, at, s, used - s);
    PartsOfConcat(ReadRing(ring, at, s), ReadRing(ring, Wrap(at + s, 8192), used - s));
  }

  /** The header never straddles the end of the ring, and the frame behind it is read circularly. */
  lemma HeadInRing(ring: seq<Byte>, at: nat, used: nat, queue: seq<Received>)
    requires Stores(ring, at, used, queue) && queue != []
    ensures var n := |queue[0].frame|;
            && at + 4 <= 8192 && n + 8 <= 8192
            && Word(ring[at], ring[at + 1]) == queue[0].status
            && Word(ring[at + 2], ring[at + 3]) == n + 4
            && queue[0].frame == ReadRing(ring, Wrap(at + 4, 8192), n)
  {
    HeadRecord(ring, at, used, queue);
    var n, s := |queue[0].frame|, Stride(|queue[0].frame|);
    RecordParts(ring, at, s, n);
  }

  lemma RecordParts(ring: seq<Byte>, at: nat, s: nat, n: nat)
    requires |ring| == 8192 && at < 8192 && at % 4 == 0 && n + 4 <= s <= 8192
    ensures at + 4 <= 8192
    ensures var rec := ReadRing(ring, at, s);
            && rec[0] == ring[at] && rec[1] == ring[at + 1] && rec[2] == ring[at + 2] && rec[3] == ring[at + 3]
            && rec[4..4 + n] == ReadRing(ring, Wrap(at + 4, 8192), n)
  {
    assert at <= 8188;
    hide ReadRing;
    ReadAt(ring, at, s, 0);
    ReadAt(ring, at, s, 1);
    ReadAt(ring, at, s, 2);
    ReadAt(ring, at, s, 3);
    FrameBytes(ring, at, s, n);
  }

  lemma FrameBytes(ring: seq<Byte>, at: nat, s: nat, n: nat)
    requires |ring| == 8192 && at < 8192 && n + 4 <= s <= 8192
    ensures ReadRing(ring, at, s)[4..4 + n] == ReadRing(ring, Wrap(at + 4, 8192), n)
  {
    hide ReadRing;
    HeadBytes(ring, at, s, 4);
    HeadBytes(ring, Wrap(at + 4, 8192), s - 4, n);
    var rec := ReadRing(ring, at, s);
    assert rec[4..][..n] == rec[4..4 + n];
  }

  /** The cursor behind a record whose header gives `size`: rounded up, in 32-bit arithmetic. */
  function NextCursor(cur: nat, size: nat): nat {
    var sum := (cur + size + 4 + 3) % 0x1_0000_0000;
    sum - sum % 4
  }

  /** The 16-bit value written to the chip's read pointer. */
  function RxBufPtr(cur: nat): nat {
    (cur - 16) % 0x1_0000
  }

  /** Advancing the 32-bit cursor past a record advances the offset in the ring past it, even when the cursor
      wraps: the ring size divides 2^32. */
  lemma CursorAdvances(cur: nat, n: nat)
    requires cur < 0x1_0000_0000 && cur % 4 == 0 && n + 12 <= 8192
    ensures var next := NextCursor(cur, n + 4);
            && next < 0x1_0000_0000 && next % 4 == 0
            && next % 8192 == Wrap(cur % 8192 + Stride(n), 8192)
  {
    var sum := cur + (n + 4) + 4 + 3;
    RoundUp(cur, n);
    OffsetMoves(cur, Stride(n));
    hide Stride;
    if sum >= 0x1_0000_0000 {
      WrapsCleanly(sum);
    }
  }

  lemma RoundUp(cur: nat, n: nat)
    requires cur % 4 == 0
    ensures var sum := cur + (n + 4) + 4 + 3; sum - sum % 4 == cur + Stride(n)
  {
  }

  lemma OffsetMoves(cur: nat, s: nat)
    requires s <= 8192
    ensures (cur + s) % 8192 == Wrap(cur % 8192 + s, 8192)
  {
  }

  lemma WrapTwice(x: nat, n: nat)
    requires x + n < 2 * 8192 && n <= 8192
    ensures Wrap(Wrap(x, 8192) + n, 8192) == Wrap(x + n, 8192)
  {
  }

  lemma WrapsCleanly(sum: nat)
    requires 0x1_0000_0000 <= sum < 0x2_0000_0000
    ensures var next := sum % 0x1_0000_0000;
            next - next % 4 == sum - sum % 4 - 0x1_0000_0000 && (next - next % 4) % 8192 == (sum - sum % 4) % 8192
  {
    var next := sum % 0x1_0000_0000;
    assert next == sum - 0x1_0000_0000;
    WholeWords(next);
    WholeRings(next - next % 4);
  }

  /** 2^32 is a multiple of the word and of the ring. */
  lemma WholeWords(x: nat)
    ensures (x + 0x1_0000_0000) % 4 == x % 4
  {
  }

  lemma WholeRings(x: nat)
    ensures (x + 0x1_0000_0000) % 8192 == x % 8192
  {
  }

  class Driver {
    const packet: array<Byte> // nic->packet
    var ring: seq<Byte>       // rx_ring
    var curRx: nat            // cur_rx, an unsigned 32-bit number
    var capr: nat             // the chip's RxBufPtr register, 16 bits
    var cbr: nat              // where the chip writes next
    var packetlen: nat        // nic->packetlen
    ghost var pending: nat    // bytes in use
    ghost var queue: seq<Received>

    /** The chip and the driver agree on where the next frame starts, and the frames stored from there on are those
        of the queue. */
    ghost predicate Valid()
      reads `ring, `curRx, `capr, `cbr, `pending, `queue
    {
      && packet.Length == ETH_FRAME_LEN
      && curRx < 0x1_0000_0000 && curRx % 4 == 0 && (capr + 16) % 8192 == curRx % 8192 && pending < 8192
      && Stores(ring, curRx % 8192, pending, queue)
      && cbr == Wrap(curRx % 8192 + pending, 8192)
    }

    constructor (ring: seq<Byte>)
      requires |ring| == 8192
      ensures Valid() && queue == [] && fresh(packet)
    {
      this.ring := ring;
      packet := new Byte[ETH_FRAME_LEN];
      curRx, capr, cbr, pending, packetlen := 0, 0xFFF0, 0, 0, 0;
      queue := [];
    }

    /** rtl_reset: the chip forgets its frames and starts at the ring's beginning again. */
    method Reset()
      requires Valid()
      modifies `curRx, `capr, `cbr, `pending, `queue
      ensures Valid() && queue == [] && curRx == 0
    {
      curRx := 0;
      capr, cbr := 0xFFF0, 0;
      pending, queue := 0, [];
    }

    /** The bytes in use as the chip computes them from its own registers. */
    method ChipUsed() returns (used: nat)
      requires Valid()
      ensures used == pending == Used(queue)
    {
      used := (cbr - (capr + 16)) % 8192;
      ghost var at := curRx % 8192;
      assert cbr - at == pending || cbr - at == pending - 8192;
      SameOffset(cbr, capr + 16, at, pending);
      HoldsUsed(ReadRing(ring, at, pending), queue);
    }

    /** The chip stores a frame if that leaves room to tell a full ring from an empty one. */
    method FrameArrives(r: Received, fcs: seq<Byte>, pad: seq<Byte>) returns (stored: bool)
      requires Valid() && r.status < 0x1_0000 && |r.frame| + 4 < 0x1_0000 && |fcs| == 4
      requires |pad| == Stride(|r.frame|) - |r.frame| - 8
      modifies `ring, `cbr, `pending, `queue
      ensures Valid()
      ensures stored <==> Used(old(queue)) + Stride(|r.frame|) < 8192
      ensures queue == if stored then old(queue) + [r] else old(queue)
    {
      hide Stores;
      var size := |r.frame| + 4;
      var header: seq<Byte> := [r.status % 256, r.status / 256, size % 256, size / 256];
      var rec := header + r.frame + fcs + pad;
      assert IsRecord(rec, r) by {
        assert rec[4..4 + |r.frame|] == r.frame;
      }
      var used := ChipUsed();
      stored := used + |rec| < 8192;
      if stored {
        Store(rec, r);
      }
    }

    method Store(rec: seq<Byte>, ghost r: Received)
      requires Valid() && IsRecord(rec, r) && pending + |rec| < 8192
      modifies `ring, `cbr, `pending, `queue
      ensures Valid() && queue == old(queue) + [r]
    {
      hide WriteRing;
      hide IsRecord;
      hide Wrap;
      hide Holds;
      ghost var at := curRx % 8192;
      ArrivalStores(ring, at, pending, queue, rec, r);
      WrapTwice(at + pending, |rec|);
      ring := WriteRing(ring, cbr, rec);
      cbr := Wrap(cbr + |rec|, 8192);
      pending := pending + |rec|;
      queue := queue + [r];
    }

    /** memcpy out of the ring. */
    method Copy(dst: nat, src: nat, n: nat)
      requires src + n <= |ring| && dst + n <= packet.Length
      modifies packet
      ensures packet[dst..dst + n] == ring[src..src + n] && packet[..dst] == old(packet[..dst])
    {
      for i := 0 to n
        invariant packet[dst..dst + i] == ring[src..src + i] && packet[..dst] == old(packet[..dst])
      {
        packet[dst + i] := ring[src + i];
      }
    }

    /** Copies a frame of `n` bytes behind the header at `offs`, in two parts when it wraps. */
    method CopyFrame(offs: nat, n: nat)
      requires |ring| == 8192 && packet.Length == ETH_FRAME_LEN
      requires offs + 4 <= 8192 && n <= ETH_FRAME_LEN
      modifies packet
      ensures packet[..n] == ReadRing(ring, Wrap(offs + 4, 8192), n)
    {
      if offs + 4 + (n + 4) - 4 > 8192 {
        var semi := 8192 - offs - 4;
        Copy(0, offs + 4, semi);
        Copy(semi, 0, n - semi);
        assert packet[..n] == packet[..semi] + packet[semi..n];
        assert packet[..semi] == ring[offs + 4..];
      } else {
        Copy(0, offs + 4, n);
        assert packet[..n] == packet[0..n];
      }
    }

    /** rtl_poll: delivers the head of the queue without its check sequence, or resets the receiver when the
        header reports an error or an impossible size. */
    method Poll() returns (ret: bool)
      requires Valid()
      modifies packet, `curRx, `capr, `cbr, `pending, `packetlen, `queue
      ensures Valid()
      ensures ret <==> old(queue) != [] && Deliverable(old(queue)[0])
      ensures ret ==>
        && queue == old(queue)[1..]
        && packetlen == |old(queue)[0].frame| && packet[..packetlen] == old(queue)[0].frame
      ensures !ret ==> queue == [] && (old(queue) == [] ==> curRx == old(curRx))
    {
      hide ReadRing;
      var used := ChipUsed();
      if used == 0 {
        return false;
      }
      HeadFacts(ring, curRx, pending, queue);
      hide Stores;
      var offs := curRx % 8192;
      var status := Word(ring[offs], ring[offs + 1]);
      var size := Word(ring[offs + 2], ring[offs + 3]);
      hide Word;
      if !GoodStatus(status) || size < ETH_ZLEN || size > ETH_FRAME_LEN + 4 {
        Reset();
        return false;
      }
      packetlen := size - 4;
      CopyFrame(offs, packetlen);
      Advance(size);
      ret := true;
    }

    /** The cursor moves past the frame, and the chip is told. */
    method Advance(size: nat)
      requires Valid() && queue != [] && size == |queue[0].frame| + 4 <= ETH_FRAME_LEN + 4
      modifies `curRx, `capr, `pending, `queue
      ensures Valid() && queue == old(queue)[1..]
    {
      hide Stores;
      hide NextCursor;
      hide RxBufPtr;
      hide Stride;
      hide Wrap;
      HeadRecord(ring, curRx % 8192, pending, queue);
      AdvanceFacts(curRx, size - 4, pending);
      curRx := NextCursor(curRx, size);
      capr := RxBufPtr(curRx);
      pending := pending - Stride(size - 4);
      queue := queue[1..];
    }
  }

  lemma SameOffset(cbr: nat, start: nat, at: nat, used: nat)
    requires start % 8192 == at && used < 8192 && (cbr - at == used || cbr - at == used - 8192)
    ensures (cbr - start) % 8192 == used
  {
    var q := start / 8192;
    assert start == 8192 * q + at;
    var x := cbr - start;
    assert x == used + 8192 * (-q) || x == used + 8192 * (-q - 1);
  }

  /** The cursor arithmetic of one delivery. */
  lemma AdvanceFacts(cur: nat, n: nat, used: nat)
    requires cur < 0x1_0000_0000 && cur % 4 == 0 && n <= ETH_FRAME_LEN && Stride(n) <= used <= 8192
    ensures var next := NextCursor(cur, n + 4);
            && next < 0x1_0000_0000 && next % 4 == 0
            && next % 8192 == Wrap(cur % 8192 + Stride(n), 8192)
            && Wrap(next % 8192 + (used - Stride(n)), 8192) == Wrap(cur % 8192 + used, 8192)
            && (RxBufPtr(next) + 16) % 8192 == next % 8192
  {
    CursorAdvances(cur, n);
    hide NextCursor;
    WrapShift(cur % 8192, Stride(n), used);
    CaprTracks(NextCursor(cur, n + 4));
  }

  lemma WrapShift(at: nat, s: nat, used: nat)
    requires at < 8192 && s <= used <= 8192
    ensures Wrap(Wrap(at + s, 8192) + (used - s), 8192) == Wrap(at + used, 8192)
  {
  }

  lemma CaprTracks(cur: nat)
    ensures (RxBufPtr(cur) + 16) % 8192 == cur % 8192
  {
    var c := (cur - 16) % 0x1_0000;
    var q := (cur - 16) / 0x1_0000;
    assert c + 16 == cur - 8192 * (8 * q);
  }

  /** What the driver reads at its cursor when the ring is not empty. */
  lemma HeadFacts(ring: seq<Byte>, cur: nat, used: nat, queue: seq<Received>)
    requires Stores(ring, cur % 8192, used, queue) && used > 0
    ensures queue != []
    ensures var at, n := cur % 8192, |queue[0].frame|;
            && |ring| == 8192 && at + 4 <= 8192
            && Word(ring[at], ring[at + 1]) == queue[0].status
            && Word(ring[at + 2], ring[at + 3]) == n + 4
            && queue[0].frame == ReadRing(ring, Wrap(at + 4, 8192), n)
  {
    assert queue != [] by {
      assert |ReadRing(ring, cur % 8192, used)| == used;
    }
    hide ReadRing;
    HeadInRing(ring, cur % 8192, used, queue);
  }

  // ---------------------------------------------------------------- whole runs

  /** Any interleaving of arrivals and polls, from any state and for any number of frames: the ring behaves as the
      plain queue. */
  method RunRing(driver: Driver, steps: seq<Step>) returns (outputs: seq<Option<seq<Byte>>>)
    requires driver.Valid()
    requires forall i :: 0 <= i < |steps| ==> WellFormed(steps[i])
    modifies driver, driver.packet
    ensures driver.Valid() && (driver.queue, outputs) == FifoRun(old(driver.queue), steps)
  {
    hide Stores;
    hide FifoRun;
    hide Used;
    ghost var start := driver.queue;
    outputs := [];
    EmptyRun(start);
    assert steps[..0] == [];
    for n := 0 to |steps|
      invariant driver.Valid() && (driver.queue, outputs) == FifoRun(start, steps[..n])
    {
      FifoRunSnoc(start, steps[..n], steps[n]);
      assert steps[..n + 1] == steps[..n] + [steps[n]];
      var step := steps[n];
      var output := None;
      if step.Arrival? {
        var _ := driver.FrameArrives(step.r, step.fcs, step.pad);
      } else {
        var ret := driver.Poll();
        if ret {
          output := Some(driver.packet[..driver.packetlen]);
        }
      }
      outputs := outputs + [output];
    }
    assert steps[..|steps|] == steps;
  }
}
