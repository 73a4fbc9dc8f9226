/** The RTL8139's receiver (netboot/rtl8139.c) as a plain queue of frames, without ring and cursor, and what comes out
    of such a queue over any run of arrivals and polls. */
module ByteQueue {
  import opened Seqs
  import opened CircularBuffer

  /** A received frame without its check sequence, and the status the chip gave it. */
  datatype Received = Received(status: nat, frame: seq<Byte>)

  /** The bit with the weight `w` is not set. */
  predicate Clear(status: nat, w: nat)
    requires w > 0
  {
    status / w % 2 == 0
  }

  lemma Low32(x: nat)
    ensures x % 32 == 0 <==> x % 2 == 0 && x / 2 % 16 == 0
  {
    var q, s, b := x / 2 / 16, x / 2 % 16, x % 2;
    assert x == 32 * q + (2 * s + b) && 2 * s + b < 32;
  }

  lemma Low16(x: nat)
    ensures x % 16 == 0 <==> x % 2 == 0 && x / 2 % 8 == 0
  {
    var q, s, b := x / 2 / 8, x / 2 % 8, x % 2;
    assert x == 16 * q + (2 * s + b) && 2 * s + b < 16;
  }

  lemma Low8(x: nat)
    ensures x % 8 == 0 <==> x % 2 == 0 && x / 2 % 4 == 0
  {
    var q, s, b := x / 2 / 4, x / 2 % 4, x % 2;
    assert x == 8 * q + (2 * s + b) && 2 * s + b < 8;
  }

  lemma Low4(x: nat)
    ensures x % 4 == 0 <==> x % 2 == 0 && x / 2 % 2 == 0
  {
    var q, s, b := x / 2 / 2, x / 2 % 2, x % 2;
    assert x == 4 * q + (2 * s + b) && 2 * s + b < 4;
  }

  lemma Halves(x: nat)
    ensures x / 2 / 2 == x / 4
    ensures x / 4 / 2 == x / 8
    ensures x / 8 / 2 == x / 16
  {
  }

  lemma Bits(x: nat)
    ensures x % 32 == 0 <==> x % 2 == 0 && x / 2 % 2 == 0 && x / 4 % 2 == 0 && x / 8 % 2 == 0 && x / 16 % 2 == 0
  {
    Halves(x);
    Low32(x);
    Low16(x / 2);
    Low8(x / 4);
    Low4(x / 8);
  }

  /** RxBadSymbol, RxRunt, RxTooLong, RxCRCErr and RxBadAlign are bits 5 to 1. */
  predicate GoodStatus(status: nat) {
    status / 2 % 32 == 0
  }

  lemma GoodStatusIff(status: nat)
    ensures GoodStatus(status) <==>
      Clear(status, 0x20) && Clear(status, 0x10) && Clear(status, 8) && Clear(status, 4) && Clear(status, 2)
  {
    Bits(status / 2);
    assert status / 4 == status / 2 / 2 && status / 8 == status / 2 / 4;
    assert status / 16 == status / 2 / 8 && status / 32 == status / 2 / 16;
  }

  /** The driver hands the frame out; rx_size counts the four check bytes. */
  predicate Deliverable(r: Received) {
    GoodStatus(r.status) && ETH_ZLEN <= |r.frame| + 4 <= ETH_FRAME_LEN + 4
  }

  /** No error bit is set, and the frame without its check sequence has a legal size. */
  lemma DeliverableIff(r: Received)
    ensures Deliverable(r) <==>
      && Clear(r.status, 0x20) && Clear(r.status, 0x10) && Clear(r.status, 8) && Clear(r.status, 4)
      && Clear(r.status, 2) && 56 <= |r.frame| <= 1514
  {
    GoodStatusIff(r.status);
  }

  /** Header, frame and check sequence, rounded up to a multiple of four. */
  function Stride(n: nat): (s: nat)
    ensures s % 4 == 0 && n + 8 <= s < n + 12
  {
    (n + 4 + 4 + 3) / 4 * 4
  }

  /** The bytes the frames of `queue` take up. */
  function Used(queue: seq<Received>): nat {
    if queue == [] then 0 else Stride(|queue[0].frame|) + Used(queue[1..])
  }

  datatype Step = Arrival(r: Received, fcs: seq<Byte>, pad: seq<Byte>) | PollRing

  predicate WellFormed(s: Step) {
    s.Arrival? ==>
      && s.r.status < 0x1_0000 && |s.r.frame| + 4 < 0x1_0000 && |s.fcs| == 4
      && |s.pad| == Stride(|s.r.frame|) - |s.r.frame| - 8
  }

  /** The receiver as a plain queue: a frame that fits is stored, a poll takes the head, and a head that cannot be
      delivered empties the queue. */
  function FifoStep(queue: seq<Received>, s: Step): (seq<Received>, Option<seq<Byte>>) {
    if s.Arrival? then (if Used(queue) + Stride(|s.r.frame|) < 8192 then queue + [s.r] else queue, None)
    else if queue == [] || !Deliverable(queue[0]) then ([], None)
    else (queue[1..], Some(queue[0].frame))
  }

  /** The queue after some steps, and what each step delivered. */
  function FifoRun(start: seq<Received>, steps: seq<Step>): (seq<Received>, seq<Option<seq<Byte>>>) {
    if steps == [] then (start, [])
    else
      var (queue, outputs) := FifoRun(start, steps[..|steps| - 1]);
      var (queue', output) := FifoStep(queue, steps[|steps| - 1]);
      (queue', outputs + [output])
  }

  lemma EmptyRun(start: seq<Received>)
    ensures FifoRun(start, []) == (start, [])
  {
  }

  lemma FifoRunSnoc(start: seq<Received>, steps: seq<Step>, s: Step)
    ensures var (queue, outputs) := FifoRun(start, steps);
            var (queue', output) := FifoStep(queue, s);
            FifoRun(start, steps + [s]) == (queue', outputs + [output])
  {
    assert (steps + [s])[..|steps|] == steps;
  }

  // ---------------------------------------------------------------- what comes out, and in which order

  /** The frames stored. */
  function Accepted(start: seq<Received>, steps: seq<Step>): seq<Received> {
    if steps == [] then []
    else
      var front, last := steps[..|steps| - 1], steps[|steps| - 1];
      Accepted(start, front)
      + if last.Arrival? && Used(FifoRun(start, front).0) + Stride(|last.r.frame|) < 8192 then [last.r] else []
  }

  lemma AcceptedSnoc(start: seq<Received>, front: seq<Step>, last: Step)
    ensures var fits := last.Arrival? && Used(FifoRun(start, front).0) + Stride(|last.r.frame|) < 8192;
            Accepted(start, front + [last])
            == if fits then Accepted(start, front) + [last.r] else Accepted(start, front)
  {
    assert (front + [last])[..|front|] == front;
  }

  function Frames(queue: seq<Received>): (r: seq<seq<Byte>>)
    ensures |r| == |queue| && forall i :: 0 <= i < |r| ==> r[i] == queue[i].frame
  {
    seq(|queue|, i requires 0 <= i < |queue| => queue[i].frame)
  }

  lemma FramesConcat(p: seq<Received>, q: seq<Received>)
    ensures Frames(p + q) == Frames(p) + Frames(q)
  {
  }

  ghost predicate AllDeliverable(q: seq<Received>) {
    forall i :: 0 <= i < |q| ==> Deliverable(q[i])
  }

  lemma AllDeliverableConcat(p: seq<Received>, q: seq<Received>)
    ensures AllDeliverable(p + q) <==> AllDeliverable(p) && AllDeliverable(q)
  {
    assert forall i :: 0 <= i < |p| ==> (p + q)[i] == p[i];
    assert forall i :: 0 <= i < |q| ==> (p + q)[|p| + i] == q[i];
  }

  /** The delivered frames are among those gone, in order and each once, and they are all of them exactly when those
      gone are all deliverable. */
  ghost predicate InOrder(delivered: seq<seq<Byte>>, gone: seq<Received>) {
    && Subsequence(delivered, Frames(gone)) && |delivered| <= |gone|
    && (delivered == Frames(gone) <==> AllDeliverable(gone))
    && (|delivered| == |gone| <==> AllDeliverable(gone))
  }

  /** The frames queued and stored are those gone from the ring followed by those still in it, and what was delivered
      are those gone, as far as they could be. */
  lemma {:induction false} DeliveredInOrder(start: seq<Received>, steps: seq<Step>) returns (gone: seq<Received>)
    ensures gone + FifoRun(start, steps).0 == start + Accepted(start, steps)
    ensures InOrder(Delivered(FifoRun(start, steps).1), gone)
    decreases |steps|
  {
    if steps == [] {
      gone := [];
    } else {
      hide FifoRun;
      hide Accepted;
      hide Delivered;
      hide InOrder;
      var front, last := steps[..|steps| - 1], steps[|steps| - 1];
      gone := DeliveredInOrder(start, front);
      var (queue, outputs) := FifoRun(start, front);
      assert steps == front + [last];
      FifoRunSnoc(start, front, last);
      DeliveredSnoc(outputs, FifoStep(queue, last).1);
      AcceptedSnoc(start, front, last);
      if last.Arrival? {
        Assoc(gone, queue, [last.r]);
        Assoc(start, Accepted(start, front), [last.r]);
      } else {
        gone := PollInOrder(gone, queue, Delivered(outputs));
      }
    }
  }

  /** A poll takes from the queue what it adds to the frames gone. */
  lemma PollInOrder(gone: seq<Received>, queue: seq<Received>, delivered: seq<seq<Byte>>) returns (gone': seq<Received>)
    requires InOrder(delivered, gone)
    ensures var (queue', output) := FifoStep(queue, PollRing);
            && gone' + queue' == gone + queue
            && InOrder(if output.Some? then delivered + [output.value] else delivered, gone')
  {
    hide Subsequence;
    hide AllDeliverable;
    if queue != [] && Deliverable(queue[0]) {
      gone' := gone + [queue[0]];
      HeadTail(queue);
      Assoc(gone, [queue[0]], queue[1..]);
      FramesConcat(gone, [queue[0]]);
      assert Frames([queue[0]]) == [queue[0].frame];
      SubsequenceSnoc(delivered, Frames(gone), queue[0].frame);
      AllDeliverableConcat(gone, [queue[0]]);
      OneDeliverable(queue[0]);
    } else {
      gone' := gone + queue;
      assert gone' + [] == gone';
      FramesConcat(gone, queue);
      SubsequenceDrop(delivered, Frames(gone), Frames(queue));
      AllDeliverableConcat(gone, queue);
      if queue == [] {
        assert gone + queue == gone;
      } else {
        NotDeliverable(queue);
      }
    }
  }

  lemma OneDeliverable(r: Received)
    ensures AllDeliverable([r]) <==> Deliverable(r)
  {
    assert [r][0] == r;
  }

  lemma NotDeliverable(queue: seq<Received>)
    requires queue != [] && !Deliverable(queue[0])
    ensures !AllDeliverable(queue)
  {
  }

  // ---------------------------------------------------------------- when the queued frames come out

  /** How many frames at the head of the queue are deliverable. */
  function GoodPrefix(queue: seq<Received>): (n: nat)
    ensures n <= |queue| && (n < |queue| ==> !Deliverable(queue[n]))
    ensures forall i :: 0 <= i < n ==> Deliverable(queue[i])
  {
    if queue == [] || !Deliverable(queue[0]) then 0 else 1 + GoodPrefix(queue[1..])
  }

  /** The queue after `k` polls: shorter by as many deliverable frames, and empty from the first other one on. */
  function AfterPolls(queue: seq<Received>, k: nat): seq<Received> {
    if k <= GoodPrefix(queue) then queue[k..] else []
  }

  /** The frames `k` polls deliver. */
  function FromPolls(queue: seq<Received>, k: nat): seq<seq<Byte>> {
    Frames(queue[..if k <= GoodPrefix(queue) then k else GoodPrefix(queue)])
  }

  lemma OnePoll(start: seq<Received>, k: nat)
    ensures AfterPolls(start, 0) == start && FromPolls(start, 0) == []
    ensures FifoStep(AfterPolls(start, k), PollRing).0 == AfterPolls(start, k + 1)
    ensures var output := FifoStep(AfterPolls(start, k), PollRing).1;
            FromPolls(start, k + 1)
            == if output.Some? then FromPolls(start, k) + [output.value] else FromPolls(start, k)
  {
    hide GoodPrefix;
    var queue := AfterPolls(start, k);
    if k < GoodPrefix(start) {
      assert queue[0] == start[k] && queue[1..] == start[k + 1..];
      assert start[..k + 1] == start[..k] + [start[k]];
      FramesConcat(start[..k], [start[k]]);
      assert Frames([start[k]]) == [start[k].frame];
    } else if k == GoodPrefix(start) < |start| {
      assert queue[0] == start[k];
    }
  }

  /** `k` polls in a row deliver the deliverable frames at the head, as far as they go; one more empties the queue, so
      a ring never stays blocked. */
  lemma {:induction false} PollsDeliver(start: seq<Received>, k: nat)
    ensures var (queue, outputs) := FifoRun(start, Const(PollRing, k));
            queue == AfterPolls(start, k) && Delivered(outputs) == FromPolls(start, k)
    decreases k
  {
    OnePoll(start, if k > 0 then k - 1 else 0);
    if k == 0 {
      assert Const(PollRing, 0) == [];
    } else {
      hide Delivered;
      hide FifoRun;
      hide FifoStep;
      hide AfterPolls;
      hide FromPolls;
      PollsDeliver(start, k - 1);
      assert Const(PollRing, k) == Const(PollRing, k - 1) + [PollRing];
      FifoRunSnoc(start, Const(PollRing, k - 1), PollRing);
      var (queue, outputs) := FifoRun(start, Const(PollRing, k - 1));
      DeliveredSnoc(outputs, FifoStep(queue, PollRing).1);
    }
  }

  /** As many polls as there are frames always empty the queue, and fewer do exactly from the first frame on that
      cannot be delivered. */
  lemma PollsEmptyIff(start: seq<Received>, k: nat)
    ensures FifoRun(start, Const(PollRing, k)).0 == [] <==> |start| <= k || GoodPrefix(start) < k
  {
    PollsDeliver(start, k);
  }
}
