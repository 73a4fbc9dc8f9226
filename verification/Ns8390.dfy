/** The receive ring of the NS8390 driver (netboot/ns8390.c): pages of 256 bytes between the registers BOUND
    and CURR, each frame stored behind a four-byte header and linked to the next by a page number.

    The chip is modelled by what it does to its memory and registers when a frame arrives; port I/O, the
    transmitter and board-specific memory switching are not part of the model. */
module Ns8390 {
  import opened Seqs
  import opened CircularBuffer
  import opened PageQueue

  /** The page `k` pages further round the ring of pages lo..hi. */
  function PageAfter(page: nat, k: nat, lo: nat, hi: nat): (r: nat)
    requires lo <= page < hi && k <= hi - lo
    ensures lo <= r < hi
  {
    if page + k < hi then page + k else page + k - (hi - lo)
  }

  /** How many pages `to` is ahead of `from`. */
  function Distance(from: nat, to: nat, lo: nat, hi: nat): (k: nat)
    requires lo <= from < hi && lo <= to < hi
    ensures k < hi - lo && PageAfter(from, k, lo, hi) == to
  {
    if to >= from then to - from else to - from + (hi - lo)
  }

  /** `rec` is the stored form of `frame`, linked to page `next`. */
  ghost predicate IsRecord(rec: seq<Byte>, frame: Frame, next: nat) {
    && |rec| == Pages(|frame|) * 256
    && rec[0] % 2 == 1
    && rec[1] == next
    && Word(rec[2], rec[3]) == |frame| + 4
    && rec[4..4 + |frame|] == frame
  }

  /** `bytes` is the frames of `queue`, stored one after the other from page `page` on. */
  ghost predicate Holds(bytes: seq<Byte>, page: nat, queue: seq<Frame>, lo: nat, hi: nat)
    requires lo <= page < hi
    decreases |queue|
  {
    if queue == [] then bytes == []
    else
      var k := Pages(|queue[0]|);
      && k <= hi - lo && k * 256 <= |bytes|
      && IsRecord(bytes[..k * 256], queue[0], PageAfter(page, k, lo, hi))
      && Holds(bytes[k * 256..], PageAfter(page, k, lo, hi), queue[1..], lo, hi)
  }

  lemma {:induction false} HoldsPages(bytes: seq<Byte>, page: nat, queue: seq<Frame>, lo: nat, hi: nat)
    requires lo <= page < hi && Holds(bytes, page, queue, lo, hi)
    ensures |bytes| == PagesUsed(queue) * 256
    decreases |queue|
  {
    hide IsRecord;
    if queue != [] {
      var k := Pages(|queue[0]|);
      HoldsPages(bytes[k * 256..], PageAfter(page, k, lo, hi), queue[1..], lo, hi);
    }
  }

  /** The ring part of the memory. */
  ghost function Ring(mem: seq<Byte>, lo: nat, hi: nat): (r: seq<Byte>)
    requires lo < hi && |mem| == hi * 256
    ensures |r| == (hi - lo) * 256
  {
    mem[lo * 256..]
  }

  /** The `d` pages from `next` on hold the frames of `queue`. */
  ghost predicate Stores(mem: seq<Byte>, lo: nat, hi: nat, next: nat, d: nat, queue: seq<Frame>) {
    && lo <= next < hi && |mem| == hi * 256 && d < hi - lo
    && Holds(ReadRing(Ring(mem, lo, hi), (next - lo) * 256, d * 256), next, queue, lo, hi)
  }

  lemma StoresPages(mem: seq<Byte>, lo: nat, hi: nat, next: nat, d: nat, queue: seq<Frame>)
    requires Stores(mem, lo, hi, next, d, queue)
    ensures d == PagesUsed(queue)
  {
    hide Holds;
    HoldsPages(ReadRing(Ring(mem, lo, hi), (next - lo) * 256, d * 256), next, queue, lo, hi);
  }

  lemma {:induction false} HoldsAppend(bytes: seq<Byte>, page: nat, queue: seq<Frame>, lo: nat, hi: nat,
                                       rec: seq<Byte>, frame: Frame, total: nat)
    requires lo <= page < hi && Holds(bytes, page, queue, lo, hi)
    requires |bytes| == total * 256 && total + Pages(|frame|) < hi - lo
    requires var k := Pages(|frame|);
             IsRecord(rec, frame, PageAfter(PageAfter(page, total, lo, hi), k, lo, hi))
    ensures Holds(bytes + rec, page, queue + [frame], lo, hi)
    decreases |queue|
  {
    if queue == [] {
      assert bytes + rec == rec;
      assert rec[..|rec|] == rec && rec[|rec|..] == [];
      assert ([frame])[1..] == [];
    } else {
      var k := Pages(|queue[0]|);
      var p := PageAfter(page, k, lo, hi);
      assert k <= total;
      assert (bytes + rec)[..k * 256] == bytes[..k * 256];
      assert (bytes + rec)[k * 256..] == bytes[k * 256..] + rec;
      assert (queue + [frame])[1..] == queue[1..] + [frame];
      HoldsAppend(bytes[k * 256..], p, queue[1..], lo, hi, rec, frame, total - k);
    }
  }

  /** Byte offsets follow page numbers round the ring. */
  lemma OffsetAfter(page: nat, k: nat, lo: nat, hi: nat)
    requires lo <= page < hi && k <= hi - lo
    ensures (page - lo) * 256 + k * 256 < 2 * ((hi - lo) * 256)
    ensures Wrap((page - lo) * 256 + k * 256, (hi - lo) * 256) == (PageAfter(page, k, lo, hi) - lo) * 256
  {
  }

  lemma DistanceGrows(from: nat, to: nat, k: nat, lo: nat, hi: nat)
    requires lo <= from < hi && lo <= to < hi && Distance(from, to, lo, hi) + k < hi - lo
    ensures Distance(from, PageAfter(to, k, lo, hi), lo, hi) == Distance(from, to, lo, hi) + k
  {
  }

  lemma DistanceShrinks(from: nat, to: nat, k: nat, lo: nat, hi: nat)
    requires lo <= from < hi && lo <= to < hi && k <= Distance(from, to, lo, hi)
    ensures Distance(PageAfter(from, k, lo, hi), to, lo, hi) == Distance(from, to, lo, hi) - k
  {
  }

  lemma ArrivalBytes(ring: seq<Byte>, lo: nat, hi: nat, next: nat, d: nat, rec: seq<Byte>, k: nat)
    requires lo <= next < hi && |ring| == (hi - lo) * 256 && d + k < hi - lo && |rec| == k * 256
    ensures var at := (PageAfter(next, d, lo, hi) - lo) * 256;
            ReadRing(WriteRing(ring, at, rec), (next - lo) * 256, (d + k) * 256)
            == ReadRing(ring, (next - lo) * 256, d * 256) + rec
  {
    hide ReadRing;
    hide WriteRing;
    OffsetAfter(next, d, lo, hi);
    var start, used := (next - lo) * 256, d * 256;
    assert used + |rec| == (d + k) * 256 <= |ring|;
    hide PageAfter;
    hide Wrap;
    AppendRing(ring, start, used, rec);
  }

  /** A frame arrives: its record is written at CURR and CURR moves on. */
  lemma ArrivalStores(mem: seq<Byte>, lo: nat, hi: nat, next: nat, d: nat, queue: seq<Frame>,
                      frame: Frame, rec: seq<Byte>, mem': seq<Byte>)
    requires Stores(mem, lo, hi, next, d, queue) && d + Pages(|frame|) < hi - lo && |mem'| == |mem|
    requires var at := PageAfter(next, d, lo, hi);
             && IsRecord(rec, frame, PageAfter(at, Pages(|frame|), lo, hi))
             && Ring(mem', lo, hi) == WriteRing(Ring(mem, lo, hi), (at - lo) * 256, rec)
    ensures Stores(mem', lo, hi, next, d + Pages(|frame|), queue + [frame])
  {
    var ring := Ring(mem, lo, hi);
    ArrivalBytes(ring, lo, hi, next, d, rec, Pages(|frame|));
    HoldsAppend(ReadRing(ring, (next - lo) * 256, d * 256), next, queue, lo, hi, rec, frame, d);
  }

  /** The bytes of the head record and the bytes behind it. */
  lemma HeadBytes(ring: seq<Byte>, lo: nat, hi: nat, next: nat, d: nat, k: nat)
    requires lo <= next < hi && |ring| == (hi - lo) * 256 && k <= d < hi - lo
    ensures var bytes := ReadRing(ring, (next - lo) * 256, d * 256);
            && bytes[..k * 256] == ReadRing(ring, (next - lo) * 256, k * 256)
            && bytes[k * 256..] == ReadRing(ring, (PageAfter(next, k, lo, hi) - lo) * 256, (d - k) * 256)
  {
    hide ReadRing;
    hide PageAfter;
    hide Wrap;
    OffsetAfter(next, k, lo, hi);
    var start, a, b := (next - lo) * 256, k * 256, (d - k) * 256;
    ReadSplit(ring, start, a, b);
    PartsOfConcat(ReadRing(ring, start, a), ReadRing(ring, Wrap(start + a, |ring|), b));
    assert a + b == d * 256;
  }

  /** The record of the head frame is what the ring holds from the next page on, and the rest is stored from the
      page its header names. */
  lemma HeadRecord(mem: seq<Byte>, lo: nat, hi: nat, next: nat, d: nat, queue: seq<Frame>)
    requires Stores(mem, lo, hi, next, d, queue) && queue != []
    ensures var k := Pages(|queue[0]|);
            && 0 < k <= d
            && IsRecord(ReadRing(Ring(mem, lo, hi), (next - lo) * 256, k * 256), queue[0], PageAfter(next, k, lo, hi))
            && Stores(mem, lo, hi, PageAfter(next, k, lo, hi), d - k, queue[1..])
  {
    var k := Pages(|queue[0]|);
    assert k <= d;
    HeadBytes(Ring(mem, lo, hi), lo, hi, next, d, k);
    hide ReadRing;
    hide IsRecord;
  }

  /** What the header fields and the frame of a record are in memory. */
  ghost predicate InMemory(mem: seq<Byte>, lo: nat, hi: nat, next: nat, frame: Frame)
    requires lo <= next < hi && |mem| == hi * 256 && |frame| <= (hi - lo) * 256
  {
    var at := next * 256;
    && Pages(|frame|) <= hi - lo
    && mem[at] % 2 == 1
    && mem[at + 1] == PageAfter(next, Pages(|frame|), lo, hi)
    && Word(mem[at + 2], mem[at + 3]) == |frame| + 4
    && frame == ReadRing(Ring(mem, lo, hi), (next - lo) * 256 + 4, |frame|)
  }

  lemma RecordInMemory(mem: seq<Byte>, lo: nat, hi: nat, next: nat, frame: Frame)
    requires lo <= next < hi && |mem| == hi * 256 && Pages(|frame|) <= hi - lo
    requires var k := Pages(|frame|);
             IsRecord(ReadRing(Ring(mem, lo, hi), (next - lo) * 256, k * 256), frame, PageAfter(next, k, lo, hi))
    ensures InMemory(mem, lo, hi, next, frame)
  {
    hide ReadRing;
    var ring := Ring(mem, lo, hi);
    var start, n, size := (next - lo) * 256, |frame|, Pages(|frame|) * 256;
    var rec := ReadRing(ring, start, size);
    forall i | 0 <= i < 4
      ensures rec[i] == mem[next * 256 + i]
    {
      ReadAt(ring, start, size, i);
    }
    ReadPart(ring, start, 4, n, size);
  }

  /** Part of a reading is a reading. */
  lemma ReadPart(ring: seq<Byte>, start: nat, skip: nat, n: nat, size: nat)
    requires start + skip < |ring| && skip + n <= size <= |ring|
    ensures ReadRing(ring, start, size)[skip..skip + n] == ReadRing(ring, start + skip, n)
  {
    hide ReadRing;
    ReadSplit(ring, start, skip, size - skip);
    ReadSplit(ring, start + skip, n, size - skip - n);
    SliceOfSlice(ReadRing(ring, start, size), skip, size, 0, n);
    var tail := ReadRing(ring, start + skip, size - skip);
    assert ReadRing(ring, start, size)[skip..] == tail;
    assert tail[..n] == ReadRing(ring, start + skip, n);
  }

  /** The head frame lies in memory at the next page. */
  lemma HeadInMemory(mem: seq<Byte>, lo: nat, hi: nat, next: nat, d: nat, queue: seq<Frame>)
    requires Stores(mem, lo, hi, next, d, queue) && queue != []
    ensures d > 0 && |queue[0]| <= (hi - lo) * 256
    ensures InMemory(mem, lo, hi, next, queue[0])
  {
    HeadRecord(mem, lo, hi, next, d, queue);
    hide Stores;
    RecordInMemory(mem, lo, hi, next, queue[0]);
  }

  /** Where the `len` bytes behind the header at page `next` lie: to the end of memory and on from the first page,
      or in one piece. The first of two pieces is of even length. */
  lemma FrameInMemory(mem: seq<Byte>, lo: nat, hi: nat, next: nat, len: nat)
    requires lo <= next < hi && |mem| == hi * 256 && len + 8 <= (hi - lo) * 256
    ensures var pktoff := next * 256 + 4;
            var frag := hi * 256 - pktoff;
            var frame := ReadRing(Ring(mem, lo, hi), (next - lo) * 256 + 4, len);
            && frag % 2 == 0
            && if len > frag then frame == mem[pktoff..pktoff + frag] + mem[lo * 256..lo * 256 + (len - frag)]
               else frame == mem[pktoff..pktoff + len]
  {
    hide ReadRing;
    FrameAt(mem, lo * 256, next * 256 + 4, len);
    EvenPart(hi, next);
  }

  lemma EvenPart(hi: nat, next: nat)
    ensures (hi * 256 - (next * 256 + 4)) % 2 == 0
  {
    assert hi * 256 - (next * 256 + 4) == 2 * ((hi - next) * 128 - 2);
  }

  lemma FrameAt(mem: seq<Byte>, base: nat, pktoff: nat, len: nat)
    requires base <= pktoff < |mem| && len <= |mem| - base
    ensures var frag := |mem| - pktoff;
            ReadRing(mem[base..], pktoff - base, len)
            == if len > frag then mem[pktoff..pktoff + frag] + mem[base..base + (len - frag)]
               else mem[pktoff..pktoff + len]
  {
    hide ReadRing;
    ReadWindow(mem, base, pktoff - base, len);
  }

  class Driver {
    const lo: nat             // eth_rx_start
    const hi: nat             // eth_memsize
    const pio: bool           // FLAG_PIO
    const word: bool          // FLAG_16BIT
    const packet: array<Byte> // nic->packet
    var mem: seq<Byte>        // the chip's memory
    var bound: Byte           // D8390_P0_BOUND
    var curr: Byte            // D8390_P1_CURR
    var prx: bool             // D8390_RSTAT_PRX in the receive status
    var ovw: bool             // D8390_ISR_OVW in the interrupt status
    var drain: bool           // eth_drain_receiver
    var packetlen: nat        // nic->packetlen
    ghost var queue: seq<Frame>

    ghost predicate Shape()
      reads `mem, `bound, `curr
    {
      && lo < hi <= 255 && |mem| == hi * 256 && lo <= bound < hi && lo <= curr < hi
      && packet.Length == ETH_FRAME_LEN
    }

    /** The page after BOUND, where the next frame starts. */
    ghost function Next(): (p: nat)
      requires Shape()
      reads `mem, `bound, `curr
      ensures lo <= p < hi
    {
      if bound + 1 >= hi then lo else bound + 1
    }

    ghost predicate Valid()
      reads `mem, `bound, `curr, `queue
    {
      Shape() && Stores(mem, lo, hi, Next(), Distance(Next(), curr, lo, hi), queue)
    }

    ghost function AsFifo(): Fifo
      reads `queue, `prx, `ovw
    {
      Fifo(queue, prx, ovw)
    }

    constructor (lo: nat, hi: nat, pio: bool, word: bool, mem: seq<Byte>)
      requires lo < hi <= 255 && |mem| == hi * 256
      ensures Valid() && queue == [] && !drain && !ovw && !prx && fresh(packet)
      ensures this.lo == lo && this.hi == hi
    {
      this.lo, this.hi, this.pio, this.word, this.mem := lo, hi, pio, word, mem;
      packet := new Byte[ETH_FRAME_LEN];
      packetlen, queue := 0, [];
      drain, ovw, prx := false, false, false;
      bound, curr := hi - 1, lo;
    }

    /** ns8390_reset: the ring is empty and BOUND is the page before CURR. */
    method Reset()
      requires Valid()
      modifies `bound, `curr, `drain, `ovw, `queue
      ensures Valid() && queue == [] && !drain && !ovw
    {
      drain := false;
      bound := hi - 1;
      curr := lo;
      ovw := false;
      queue := [];
    }

    /** The chip receives an intact frame: it stores it if that leaves the page at BOUND free, and otherwise
        reports an overrun. `fcs` and `pad` are the bytes it writes behind the frame. */
    method FrameArrives(frame: Frame, status: Byte, fcs: seq<Byte>, pad: seq<Byte>) returns (stored: bool)
      requires Valid() && |frame| + 4 < 0x1_0000 && |fcs| == 4 && status % 2 == 1
      requires |pad| == Pages(|frame|) * 256 - |frame| - 8
      modifies `mem, `curr, `prx, `ovw, `queue
      ensures Valid()
      ensures stored <==> PagesUsed(old(queue)) + Pages(|frame|) < hi - lo
      ensures stored ==> queue == old(queue) + [frame] && prx && ovw == old(ovw)
      ensures !stored ==> queue == old(queue) && ovw && prx == old(prx) && mem == old(mem) && curr == old(curr)
    {
      hide Stores;
      var k := Pages(|frame|);
      var next := if bound + 1 >= hi then lo else bound + 1;
      StoresPages(mem, lo, hi, next, Distance(next, curr, lo, hi), queue);
      stored := Distance(next, curr, lo, hi) + k < hi - lo;
      if !stored {
        ovw := true;
        return;
      }
      var to := PageAfter(curr, k, lo, hi);
      DistanceGrows(next, curr, k, lo, hi);
      Store(next, frame, Header(status, to, |frame| + 4) + frame + fcs + pad);
      curr := to;
      prx := true;
      queue := queue + [frame];
    }

    static function Header(status: Byte, next: Byte, len: nat): (h: seq<Byte>)
      requires len < 0x1_0000
      ensures |h| == 4
    {
      [status, next, len % 256, len / 256]
    }

    /** The chip's memory after a record has been written at CURR. */
    method Store(ghost next: nat, ghost frame: Frame, rec: seq<Byte>)
      requires Shape() && lo <= next < hi
      requires var d, k := Distance(next, curr, lo, hi), Pages(|frame|);
        && Stores(mem, lo, hi, next, d, queue) && d + k < hi - lo && |rec| == k * 256
        && rec[0] % 2 == 1 && rec[1] == PageAfter(curr, k, lo, hi)
        && Word(rec[2], rec[3]) == |frame| + 4 && rec[4..4 + |frame|] == frame
      modifies `mem
      ensures |mem| == hi * 256
      ensures Stores(mem, lo, hi, next, Distance(next, curr, lo, hi) + Pages(|frame|), queue + [frame])
    {
      hide Stores;
      hide WriteRing;
      hide PageAfter;
      ghost var d := Distance(next, curr, lo, hi);
      var ring := mem[lo * 256..];
      ghost var was := mem;
      mem := mem[..lo * 256] + WriteRing(ring, (curr - lo) * 256, rec);
      assert mem[lo * 256..] == WriteRing(ring, (curr - lo) * 256, rec);
      ArrivalStores(was, lo, hi, next, d, queue, frame, rec, mem);
    }

    /** The chip sees a damaged frame: only the receive status changes. */
    method BadFrameArrives()
      requires Valid()
      modifies `prx
      ensures Valid() && !prx
    {
      prx := false;
    }

    method CopyBytes(src: nat, dst: nat, n: nat)
      requires src + n <= |mem| && dst + n <= packet.Length
      modifies packet
      ensures packet[dst..dst + n] == mem[src..src + n] && packet[..dst] == old(packet[..dst])
    {
      for i := 0 to n
        invariant packet[dst..dst + i] == mem[src..src + i] && packet[..dst] == old(packet[..dst])
      {
        packet[dst + i] := mem[src + i];
      }
    }

    /** Programmed I/O or a plain copy out of shared memory. In word mode eth_pio_read rounds the count up to an
        even number of bytes. */
    method CopyOut(src: nat, dst: nat, cnt: nat)
      requires src + cnt <= |mem| && dst + cnt <= packet.Length
      requires cnt % 2 == 1 ==> src + cnt < |mem| && dst + cnt < packet.Length
      modifies packet
      ensures packet[dst..dst + cnt] == mem[src..src + cnt] && packet[..dst] == old(packet[..dst])
    {
      var n := if pio && word then cnt + cnt % 2 else cnt;
      CopyBytes(src, dst, n);
      SliceOfSlice(packet[..], dst, dst + n, 0, cnt);
      SliceOfSlice(mem, src, src + n, 0, cnt);
      assert packet[dst..dst + n] == packet[..][dst..dst + n] && packet[dst..dst + cnt] == packet[..][dst..dst + cnt];
    }

    /** Reads a frame of `len` bytes behind the header at page `next`, in two parts when it wraps. The first part
        is always of even length, so rounding never touches what belongs to the second. */
    method ReadFrame(next: nat, len: nat)
      requires Shape() && lo <= next < hi && ETH_ZLEN <= len <= ETH_FRAME_LEN && len + 8 <= (hi - lo) * 256
      modifies packet
      ensures packet[..len] == ReadRing(Ring(mem, lo, hi), (next - lo) * 256 + 4, len)
    {
      hide ReadRing;
      var pktoff := next * 256 + 4;
      var frag := hi * 256 - pktoff;
      FrameInMemory(mem, lo, hi, next, len);
      if len > frag {
        CopyOut(pktoff, 0, frag);
        CopyOut(lo * 256, frag, len - frag);
        assert packet[..len] == packet[..frag] + packet[frag..len];
      } else {
        CopyOut(pktoff, 0, len);
      }
      assert packet[..len] == packet[0..len];
    }

    /** ns8390_poll. Outside a drain, an overrun is recovered from first and nothing is delivered. Otherwise the
        head of the queue is delivered, without its check sequence, if the receive status and its size allow it;
        a frame of another size stays where it is. */
    method Poll() returns (ret: bool)
      requires Valid()
      modifies packet, `bound, `packetlen, `queue, `ovw, `drain
      ensures Valid() && drain == old(drain)
      ensures old(!drain && ovw) ==>
        !ret && !ovw && queue == if prx then Drained(old(queue)) else old(queue)
      ensures old(drain || !ovw) ==>
        && ovw == old(ovw)
        && (ret <==> prx && old(queue) != [] && Legal(old(queue)[0]))
        && (if ret then
              && queue == old(queue)[1..]
              && packetlen == |old(queue)[0]| && packet[..packetlen] == old(queue)[0]
              && Distance(Next(), curr, lo, hi) < old(Distance(Next(), curr, lo, hi))
            else queue == old(queue) && bound == old(bound))
      decreases if drain then 0 else 2
    {
      if !drain && ovw {
        RxOverrun();
        return false;
      }
      if !prx {
        return false;
      }
      ret := TakeHead();
    }

    /** The part of ns8390_poll that reads the ring. */
    method TakeHead() returns (ret: bool)
      requires Valid()
      modifies packet, `bound, `packetlen, `queue
      ensures Valid()
      ensures ret <==> old(queue) != [] && Legal(old(queue)[0])
      ensures if ret then
                && queue == old(queue)[1..]
                && packetlen == |old(queue)[0]| && packet[..packetlen] == old(queue)[0]
                && Distance(Next(), curr, lo, hi) < old(Distance(Next(), curr, lo, hi))
              else queue == old(queue) && bound == old(bound)
    {
      hide Stores;
      hide ReadRing;
      hide Word;
      var next: nat := bound + 1;
      if next >= hi {
        next := lo;
      }
      assert next == Next();
      if curr == next {
        EmptyRing(mem, lo, hi, next, queue);
        return false;
      }
      HeadFacts(mem, lo, hi, next, curr, queue);
      var at := next * 256;
      var len := (Word(mem[at + 2], mem[at + 3]) - 4) % 0x1_0000;
      if mem[at] % 2 == 0 || len < ETH_ZLEN || len > ETH_FRAME_LEN {
        return false;
      }
      packetlen := len;
      ReadFrame(next, len);
      Release(mem[at + 1]);
      queue := queue[1..];
      ret := true;
    }

    /** BOUND becomes the page before the next frame. */
    method Release(link: Byte)
      requires Shape() && lo <= link < hi
      modifies `bound
      ensures Shape() && Next() == link
    {
      var next: nat := link;
      if next == lo {
        next := hi;
      }
      bound := next - 1;
    }

    /** eth_rx_overrun: polls in drain mode until nothing more comes out. */
    method RxOverrun()
      requires Valid() && !drain
      modifies packet, `bound, `packetlen, `queue, `ovw, `drain
      ensures Valid() && !drain && !ovw
      ensures queue == if prx then Drained(old(queue)) else old(queue)
      decreases 1
    {
      hide Stores;
      drain := true;
      var more := Poll();
      while more
        invariant Valid() && drain
        invariant prx ==> Drained(queue) == Drained(old(queue))
        invariant !prx ==> !more && queue == old(queue)
        invariant !more && prx ==> queue == Drained(queue)
        decreases |queue|, more
      {
        more := Poll();
      }
      drain := false;
      ovw := false;
    }
  }

  lemma FrameSize(low: Byte, high: Byte, n: nat)
    requires Word(low, high) == n + 4
    ensures (Word(low, high) - 4) % 0x1_0000 == n
  {
  }

  /** Everything the driver needs to know about the frame at the next page. */
  lemma HeadFacts(mem: seq<Byte>, lo: nat, hi: nat, next: nat, curr: nat, queue: seq<Frame>)
    requires lo <= next < hi <= 255 && |mem| == hi * 256 && lo <= curr < hi && curr != next
    requires Stores(mem, lo, hi, next, Distance(next, curr, lo, hi), queue)
    ensures queue != []
    ensures var at, n := next * 256, |queue[0]|;
      && mem[at] % 2 == 1
      && (Word(mem[at + 2], mem[at + 3]) - 4) % 0x1_0000 == n
      && n + 8 <= (hi - lo) * 256
      && queue[0] == ReadRing(Ring(mem, lo, hi), (next - lo) * 256 + 4, n)
      && lo <= mem[at + 1] < hi
      && Distance(mem[at + 1], curr, lo, hi) < Distance(next, curr, lo, hi)
      && Stores(mem, lo, hi, mem[at + 1], Distance(mem[at + 1], curr, lo, hi), queue[1..])
  {
    var d := Distance(next, curr, lo, hi);
    NonEmptyRing(mem, lo, hi, next, d, queue);
    HeadInMemory(mem, lo, hi, next, d, queue);
    HeadRecord(mem, lo, hi, next, d, queue);
    hide Stores;
    hide ReadRing;
    hide IsRecord;
    DistanceShrinks(next, curr, Pages(|queue[0]|), lo, hi);
    FrameSize(mem[next * 256 + 2], mem[next * 256 + 3], |queue[0]|);
  }

  lemma EmptyRing(mem: seq<Byte>, lo: nat, hi: nat, next: nat, queue: seq<Frame>)
    requires Stores(mem, lo, hi, next, 0, queue)
    ensures queue == []
  {
  }

  lemma NonEmptyRing(mem: seq<Byte>, lo: nat, hi: nat, next: nat, d: nat, queue: seq<Frame>)
    requires Stores(mem, lo, hi, next, d, queue) && d > 0
    ensures queue != []
  {
  }

  // ---------------------------------------------------------------- whole runs

  /** Any interleaving of arrivals and polls, from any state: the ring of pages behaves as the plain queue. */
  method RunRing(driver: Driver, steps: seq<Step>) returns (outputs: seq<Option<Frame>>)
    requires driver.Valid() && !driver.drain
    requires forall i :: 0 <= i < |steps| ==> WellFormed(steps[i])
    modifies driver, driver.packet
    ensures driver.Valid() && !driver.drain
    ensures (driver.AsFifo(), outputs) == FifoRun(driver.hi - driver.lo, old(driver.AsFifo()), steps)
  {
    hide Stores;
    hide FifoRun;
    var size := driver.hi - driver.lo;
    ghost var start := driver.AsFifo();
    outputs := [];
    EmptyRun(size, start);
    assert steps[..0] == [];
    for n := 0 to |steps|
      invariant driver.Valid() && !driver.drain
      invariant (driver.AsFifo(), outputs) == FifoRun(size, start, steps[..n])
    {
      FifoRunSnoc(size, start, steps[..n], steps[n]);
      assert steps[..n + 1] == steps[..n] + [steps[n]];
      var output := TakeStep(driver, steps[n]);
      outputs := outputs + [output];
    }
    assert steps[..|steps|] == steps;
  }

  /** One step of the chip or the driver. */
  method TakeStep(driver: Driver, step: Step) returns (output: Option<Frame>)
    requires driver.Valid() && !driver.drain && WellFormed(step)
    modifies driver, driver.packet
    ensures driver.Valid() && !driver.drain
    ensures (driver.AsFifo(), output) == FifoStep(driver.hi - driver.lo, old(driver.AsFifo()), step)
  {
    hide Stores;
    output := None;
    if step.Arrival? {
      var _ := driver.FrameArrives(step.frame, step.status, step.fcs, step.pad);
    } else if step.BadArrival? {
      driver.BadFrameArrives();
    } else {
      var ret := driver.Poll();
      if ret {
        output := Some(driver.packet[..driver.packetlen]);
      }
    }
  }
}
