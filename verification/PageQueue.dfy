/** The NS8390's receiver (netboot/ns8390.c) as a plain queue of frames, without memory and page registers, and what
    comes out of such a queue over any run of arrivals and polls. */
module PageQueue {
  import opened Seqs
  import opened CircularBuffer

  type Frame = seq<Byte>

  /** Pages taken by a frame of `n` bytes: header, frame and check sequence. */
  function Pages(n: nat): (k: nat)
    ensures n + 8 <= k * 256 < n + 8 + 256
  {
    (n + 8 + 256 - 1) / 256
  }

  /** The pages the frames of `queue` take up. */
  function PagesUsed(queue: seq<Frame>): nat {
    if queue == [] then 0 else Pages(|queue[0]|) + PagesUsed(queue[1..])
  }

  /** The frame can be handed to the caller. */
  predicate Legal(frame: Frame) {
    ETH_ZLEN <= |frame| <= ETH_FRAME_LEN
  }

  lemma LegalIff(frame: Frame)
    ensures Legal(frame) <==> 60 <= |frame| <= 1514
  {
  }

  ghost predicate AllLegal(queue: seq<Frame>) {
    forall i :: 0 <= i < |queue| ==> Legal(queue[i])
  }

  /** What an overrun leaves of the queue: frames are thrown away up to the first one the driver refuses. */
  function Drained(queue: seq<Frame>): seq<Frame> {
    if queue == [] || !Legal(queue[0]) then queue else Drained(queue[1..])
  }

  /** How many frames at the head of the queue are legal. */
  function LegalPrefix(queue: seq<Frame>): (n: nat)
    ensures n <= |queue| && (forall i :: 0 <= i < n ==> Legal(queue[i])) && (n < |queue| ==> !Legal(queue[n]))
  {
    if queue == [] || !Legal(queue[0]) then 0 else 1 + LegalPrefix(queue[1..])
  }

  /** An overrun throws away exactly the legal frames at the head. */
  lemma {:induction false} DrainedIs(queue: seq<Frame>)
    ensures Drained(queue) == queue[LegalPrefix(queue)..]
  {
    if queue != [] && Legal(queue[0]) {
      DrainedIs(queue[1..]);
      assert queue[1..][LegalPrefix(queue[1..])..] == queue[LegalPrefix(queue)..];
    }
  }

  /** An overrun empties the ring exactly when all frames in it are legal. */
  lemma DrainedIsEmptyIff(queue: seq<Frame>)
    ensures Drained(queue) == [] <==> AllLegal(queue)
  {
    DrainedIs(queue);
  }

  /** What can happen to the ring. */
  datatype Step = Arrival(frame: Frame, status: Byte, fcs: seq<Byte>, pad: seq<Byte>) | BadArrival | PollRing

  predicate WellFormed(s: Step) {
    s.Arrival? ==>
      && |s.frame| + 4 < 0x1_0000 && |s.fcs| == 4 && s.status % 2 == 1
      && |s.pad| == Pages(|s.frame|) * 256 - |s.frame| - 8
  }

  /** The receiver as a plain queue, with the chip's receive status and overrun flag. */
  datatype Fifo = Fifo(queue: seq<Frame>, prx: bool, ovw: bool)

  predicate Fits(size: nat, queue: seq<Frame>, frame: Frame) {
    PagesUsed(queue) + Pages(|frame|) < size
  }

  /** A frame that fits is stored and one that does not causes an overrun; a poll recovers from an overrun or takes
      the head. */
  function FifoStep(size: nat, f: Fifo, s: Step): (Fifo, Option<Frame>) {
    if s.Arrival? then
      (if Fits(size, f.queue, s.frame) then f.(queue := f.queue + [s.frame], prx := true) else f.(ovw := true), None)
    else if s.BadArrival? then (f.(prx := false), None)
    else if f.ovw then (f.(queue := if f.prx then Drained(f.queue) else f.queue, ovw := false), None)
    else if f.prx && f.queue != [] && Legal(f.queue[0]) then (f.(queue := f.queue[1..]), Some(f.queue[0]))
    else (f, None)
  }

  /** The queue after some steps, and what each step delivered. */
  function FifoRun(size: nat, start: Fifo, steps: seq<Step>): (Fifo, seq<Option<Frame>>) {
    if steps == [] then (start, [])
    else
      var (f, outputs) := FifoRun(size, start, steps[..|steps| - 1]);
      var (f', output) := FifoStep(size, f, steps[|steps| - 1]);
      (f', outputs + [output])
  }

  lemma EmptyRun(size: nat, start: Fifo)
    ensures FifoRun(size, start, []) == (start, [])
  {
  }

  lemma FifoRunSnoc(size: nat, start: Fifo, steps: seq<Step>, s: Step)
    ensures var (f, outputs) := FifoRun(size, start, steps);
            var (f', output) := FifoStep(size, f, s);
            FifoRun(size, start, steps + [s]) == (f', outputs + [output])
  {
    assert (steps + [s])[..|steps|] == steps;
  }

  // ---------------------------------------------------------------- what comes out, and in which order

  /** The frames stored. */
  function Accepted(size: nat, start: Fifo, steps: seq<Step>): seq<Frame> {
    if steps == [] then []
    else
      var front, last := steps[..|steps| - 1], steps[|steps| - 1];
      Accepted(size, start, front)
      + if last.Arrival? && Fits(size, FifoRun(size, start, front).0.queue, last.frame) then [last.frame] else []
  }

  /** No frame was turned away. */
  predicate NoOverflow(size: nat, start: Fifo, steps: seq<Step>) {
    steps == [] ||
      var front, last := steps[..|steps| - 1], steps[|steps| - 1];
      && NoOverflow(size, start, front)
      && (last.Arrival? ==> Fits(size, FifoRun(size, start, front).0.queue, last.frame))
  }

  lemma AcceptedSnoc(size: nat, start: Fifo, front: seq<Step>, last: Step)
    ensures var fits := last.Arrival? && Fits(size, FifoRun(size, start, front).0.queue, last.frame);
            && (Accepted(size, start, front + [last])
                == if fits then Accepted(size, start, front) + [last.frame] else Accepted(size, start, front))
            && (NoOverflow(size, start, front + [last]) <==> NoOverflow(size, start, front) && (last.Arrival? ==> fits))
  {
    assert (front + [last])[..|front|] == front;
  }

  /** The frames queued and stored are those gone from the ring followed by those still in it; the delivered ones are
      among those gone, in order and each once, and as long as the ring never overflows they are all of them. */
  lemma {:induction false} DeliveredInOrder(size: nat, start: Fifo, steps: seq<Step>) returns (gone: seq<Frame>)
    ensures var (f, outputs) := FifoRun(size, start, steps);
            && gone + f.queue == start.queue + Accepted(size, start, steps)
            && Subsequence(Delivered(outputs), gone)
            && (!start.ovw && NoOverflow(size, start, steps) ==> !f.ovw && Delivered(outputs) == gone)
    decreases |steps|
  {
    if steps == [] {
      gone := [];
    } else {
      hide FifoRun;
      hide Accepted;
      hide NoOverflow;
      hide Delivered;
      hide Subsequence;
      var front, last := steps[..|steps| - 1], steps[|steps| - 1];
      gone := DeliveredInOrder(size, start, front);
      var (f, outputs) := FifoRun(size, start, front);
      assert steps == front + [last];
      FifoRunSnoc(size, start, front, last);
      DeliveredSnoc(outputs, FifoStep(size, f, last).1);
      AcceptedSnoc(size, start, front, last);
      if last.Arrival? {
        Assoc(gone, f.queue, [last.frame]);
        Assoc(start.queue, Accepted(size, start, front), [last.frame]);
      } else if last.PollRing? {
        gone := PollInOrder(size, gone, f, Delivered(outputs));
      }
    }
  }

  /** A poll takes from the queue what it adds to the frames gone. */
  lemma PollInOrder(size: nat, gone: seq<Frame>, f: Fifo, delivered: seq<Frame>) returns (gone': seq<Frame>)
    requires Subsequence(delivered, gone)
    ensures var (f', output) := FifoStep(size, f, PollRing);
            var delivered' := if output.Some? then delivered + [output.value] else delivered;
            && gone' + f'.queue == gone + f.queue && Subsequence(delivered', gone')
            && (!f.ovw && delivered == gone ==> !f'.ovw && delivered' == gone')
  {
    gone' := gone;
    if f.ovw {
      if f.prx {
        DrainedIs(f.queue);
        var n := LegalPrefix(f.queue);
        gone' := gone + f.queue[..n];
        assert f.queue == f.queue[..n] + f.queue[n..];
        Assoc(gone, f.queue[..n], f.queue[n..]);
        SubsequenceDrop(delivered, gone, f.queue[..n]);
      }
    } else if f.prx && f.queue != [] && Legal(f.queue[0]) {
      gone' := gone + [f.queue[0]];
      HeadTail(f.queue);
      Assoc(gone, [f.queue[0]], f.queue[1..]);
      SubsequenceSnoc(delivered, gone, f.queue[0]);
    }
  }

  // ---------------------------------------------------------------- when the queued frames come out

  /** A frame of illegal size at the head blocks the ring for good: nothing more is delivered, and the queue only
      grows, whatever happens. */
  lemma {:induction false} IllegalHeadBlocks(size: nat, start: Fifo, steps: seq<Step>)
    requires start.queue != [] && !Legal(start.queue[0])
    ensures var (f, outputs) := FifoRun(size, start, steps);
            start.queue <= f.queue && Delivered(outputs) == []
    decreases |steps|
  {
    hide Delivered;
    hide FifoRun;
    hide FifoStep;
    if steps == [] {
      EmptyRun(size, start);
      DeliveredNone<Frame>();
    } else {
      var front, last := steps[..|steps| - 1], steps[|steps| - 1];
      IllegalHeadBlocks(size, start, front);
      var (f, outputs) := FifoRun(size, start, front);
      assert steps == front + [last];
      FifoRunSnoc(size, start, front, last);
      DeliveredSnoc(outputs, FifoStep(size, f, last).1);
      BlockedStep(size, start, f, last);
    }
  }

  lemma BlockedStep(size: nat, start: Fifo, f: Fifo, s: Step)
    requires start.queue != [] && !Legal(start.queue[0]) && start.queue <= f.queue
    ensures FifoStep(size, f, s).1.None? && start.queue <= FifoStep(size, f, s).0.queue
  {
  }

  function Least(a: nat, b: nat): nat {
    if a <= b then a else b
  }

  /** How many frames `k` polls take. */
  function Taken(f: Fifo, k: nat): (m: nat)
    ensures m <= LegalPrefix(f.queue) && (f.prx && m < LegalPrefix(f.queue) ==> m == k)
  {
    if f.prx then Least(k, LegalPrefix(f.queue)) else 0
  }

  /** The queue after `k` polls, and the frames they deliver. */
  function AfterPolls(f: Fifo, k: nat): Fifo {
    f.(queue := f.queue[Taken(f, k)..])
  }

  function FromPolls(f: Fifo, k: nat): seq<Frame> {
    f.queue[..Taken(f, k)]
  }

  lemma PollTakes(size: nat, f: Fifo, m: nat)
    requires !f.ovw && f.prx && m < LegalPrefix(f.queue)
    ensures FifoStep(size, f.(queue := f.queue[m..]), PollRing) == (f.(queue := f.queue[m + 1..]), Some(f.queue[m]))
    ensures f.queue[..m + 1] == f.queue[..m] + [f.queue[m]]
  {
    hide LegalPrefix;
    var rest := f.queue[m..];
    assert rest[0] == f.queue[m] && rest[1..] == f.queue[m + 1..];
  }

  lemma PollIdles(size: nat, f: Fifo, m: nat)
    requires !f.ovw && m <= LegalPrefix(f.queue) && (f.prx ==> m == LegalPrefix(f.queue))
    ensures FifoStep(size, f.(queue := f.queue[m..]), PollRing) == (f.(queue := f.queue[m..]), None)
  {
    hide LegalPrefix;
    if f.prx && m < |f.queue| {
      assert f.queue[m..][0] == f.queue[m];
    }
  }

  lemma OnePoll(size: nat, start: Fifo, k: nat)
    requires !start.ovw
    ensures var (f, output) := FifoStep(size, AfterPolls(start, k), PollRing);
            && f == AfterPolls(start, k + 1)
            && FromPolls(start, k + 1)
               == if output.Some? then FromPolls(start, k) + [output.value] else FromPolls(start, k)
  {
    hide FifoStep;
    hide LegalPrefix;
    hide Taken;
    TakenNext(start, k);
    var m := Taken(start, k);
    if start.prx && m < LegalPrefix(start.queue) {
      PollTakes(size, start, m);
    } else {
      PollIdles(size, start, m);
    }
  }

  lemma NoPolls(size: nat, start: Fifo)
    ensures FifoRun(size, start, Const(PollRing, 0)) == (start, []) && Delivered<Frame>([]) == []
    ensures AfterPolls(start, 0) == start && FromPolls(start, 0) == []
  {
    hide LegalPrefix;
    assert Const(PollRing, 0) == [];
  }

  lemma TakenNext(f: Fifo, k: nat)
    ensures Taken(f, 0) == 0
    ensures Taken(f, k + 1) == if f.prx && Taken(f, k) < LegalPrefix(f.queue) then Taken(f, k) + 1 else Taken(f, k)
  {
    hide LegalPrefix;
  }

  /** What `k` polls in a row deliver when no overrun is pending: the legal frames at the head, as far as the polls go,
      and nothing at all while the last frame heard was a damaged one. */
  lemma {:induction false} PollsDeliver(size: nat, start: Fifo, k: nat)
    requires !start.ovw
    ensures var (f, outputs) := FifoRun(size, start, Const(PollRing, k));
            f == AfterPolls(start, k) && Delivered(outputs) == FromPolls(start, k)
    decreases k
  {
    hide Delivered;
    hide FifoRun;
    hide FifoStep;
    hide AfterPolls;
    hide FromPolls;
    if k == 0 {
      NoPolls(size, start);
    } else {
      PollsDeliver(size, start, k - 1);
      OnePoll(size, start, k - 1);
      assert Const(PollRing, k) == Const(PollRing, k - 1) + [PollRing];
      FifoRunSnoc(size, start, Const(PollRing, k - 1), PollRing);
      var (f, outputs) := FifoRun(size, start, Const(PollRing, k - 1));
      DeliveredSnoc(outputs, FifoStep(size, f, PollRing).1);
    }
  }

  /** Polling empties a ring exactly when the receive status is good, all frames are legal and there are as many polls
      as frames. */
  lemma PollsEmptyIff(size: nat, start: Fifo, k: nat)
    requires !start.ovw && start.queue != []
    ensures FifoRun(size, start, Const(PollRing, k)).0.queue == []
       <==> start.prx && AllLegal(start.queue) && |start.queue| <= k
  {
    PollsDeliver(size, start, k);
  }

  /** Steps that leave the queued frames where they are, up to a poll that delivers the head. */
  ghost predicate HeadOut(size: nat, f: Fifo, steps: seq<Step>)
    decreases |steps|
  {
    if steps == [] then FifoStep(size, f, PollRing).1.Some?
    else
      var g := FifoStep(size, f, steps[0]).0;
      WellFormed(steps[0]) && f.queue <= g.queue && HeadOut(size, g, steps[1..])
  }

  /** The head can come out: it is legal, and either it can right now or another frame still fits. */
  predicate CanComeOut(size: nat, f: Fifo) {
    f.queue != [] && Legal(f.queue[0]) && ((f.prx && !f.ovw) || PagesUsed(f.queue) + 1 < size)
  }

  lemma {:induction false} HeadOutNeeds(size: nat, f: Fifo, steps: seq<Step>)
    requires f.queue != [] && HeadOut(size, f, steps)
    ensures CanComeOut(size, f)
    decreases |steps|
  {
    if steps != [] {
      var g := FifoStep(size, f, steps[0]).0;
      HeadOutNeeds(size, g, steps[1..]);
      if steps[0].PollRing? && f.ovw && f.prx {
        DrainedIs(f.queue);
      }
    }
  }

  /** A frame that takes up one page. */
  function Shortest(): (s: Step)
    ensures WellFormed(s) && s.Arrival? && Pages(|s.frame|) == 1
  {
    Arrival(seq(60, _ => 0), 1, [0, 0, 0, 0], seq(188, _ => 0))
  }

  lemma HeadOutFrom(size: nat, f: Fifo) returns (steps: seq<Step>)
    requires CanComeOut(size, f)
    ensures HeadOut(size, f, steps)
  {
    if f.prx && !f.ovw {
      steps := [];
    } else {
      var calm := f.(prx := false, ovw := false);
      var ready := FifoStep(size, calm, Shortest()).0;
      assert ready.queue[0] == f.queue[0];
      assert HeadOut(size, ready, []);
      assert HeadOut(size, calm, [Shortest()]);
      assert HeadOut(size, f.(prx := false), [PollRing, Shortest()]) by {
        assert [PollRing, Shortest()][1..] == [Shortest()];
      }
      steps := [BadArrival, PollRing, Shortest()];
      assert steps[1..] == [PollRing, Shortest()];
    }
  }

  ghost predicate EverOut(size: nat, f: Fifo) {
    exists steps: seq<Step> :: HeadOut(size, f, steps)
  }

  /** The head of the queue can ever be delivered exactly when it is legal and either the status is good with no overrun
      pending or another frame still fits: a full ring whose last frame was a damaged one is stuck as well. */
  lemma HeadOutIff(size: nat, f: Fifo)
    requires f.queue != []
    ensures EverOut(size, f) <==> CanComeOut(size, f)
  {
    if CanComeOut(size, f) {
      var steps := HeadOutFrom(size, f);
      assert HeadOut(size, f, steps);
    }
    if EverOut(size, f) {
      var steps: seq<Step> :| HeadOut(size, f, steps);
      HeadOutNeeds(size, f, steps);
    }
  }
}
