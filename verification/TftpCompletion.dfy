/** Which transfers can be completed (netboot/fsys_tftp.c, buf_fill and send_rrq): the file, the answer and the state of
    the client decide whether some behaviour of servers and channel leads to the end of the file. */
module TftpCompletion {
  import opened Decimal
  import opened Oack
  import opened Seqs
  import opened TftpProtocol

  /** The client accepts the answer `opts`, and the file has no more blocks than there are block numbers. */
  predicate Fetchable(size: nat, opts: seq<Opt>) {
    && HonestOpts(size, opts) && Suits(opts)
    && BlkSizeOf(opts) > 0 && BlockCount(size, BlkSizeOf(opts)) <= LAST
  }

  ghost predicate Finishes(env: Env, p: Proto, sched: seq<Choice>, k: nat) {
    Run(env.(sched := sched), p, k).p.eof
  }

  /** Some behaviour of servers and channel leads to the end of the file. */
  ghost predicate CanFinish(env: Env, p: Proto) {
    exists sched, k :: Finishes(env, p, sched, k)
  }

  // ---------------------------------------------------------------- a channel that loses nothing

  /** Every acknowledgement is heard by session `i`, and every block arrives. */
  function Lockstep(file: seq<Byte>, bs: nat, n: nat, i: nat): seq<Choice>
    requires bs > 0 && n > 0 && BlockCount(|file|, bs) <= LAST
    decreases BlockCount(|file|, bs) + 1 - n
  {
    if n > BlockCount(|file|, bs) then []
    else [Hear(i), Deliver(DataPkt(n, Block(file, bs, n)), "")] + Lockstep(file, bs, n + 1, i)
  }

  /** Session `i` has just been acknowledged the client's last block. */
  ghost predicate InStep(env: Env, p: Proto, i: nat) {
    && Coherent(env, p) && Started(env, p)
    && i < |env.sessions| && env.sessions[i] == p.prevblock && Ack(p.prevblock) in env.toServer
    && p.prevblock <= BlockCount(|env.file|, p.packetsize) <= LAST
    && (p.prevblock == BlockCount(|env.file|, p.packetsize) ==> p.eof)
  }

  /** In lockstep the next block arrives. */
  lemma LockstepAwait(env: Env, n: nat, bs: nat, i: nat) returns (e: Env)
    requires env.transfer.Answered? && bs == BlkSizeOf(env.transfer.opts) > 0
    requires 0 < n <= BlockCount(|env.file|, bs) <= LAST && i < |env.sessions|
    requires env.sessions[i] == n - 1 && Ack(n - 1) in env.toServer
    requires env.sched == Lockstep(env.file, bs, n, i)
    ensures var pkt := DataPkt(n, Block(env.file, bs, n));
            && Await(env) == (Packet(pkt, ""), e) && pkt in e.toClient
    ensures e.transfer == env.transfer && e.file == env.file && e.sessions == env.sessions[i := n]
    ensures env.toServer == e.toServer && e.sched == Lockstep(env.file, bs, n + 1, i)
  {
    var pkt := DataPkt(n, Block(env.file, bs, n));
    var later := Lockstep(env.file, bs, n + 1, i);
    assert env.sched == [Hear(i), Deliver(pkt, "")] + later;
    hide Block;
    hide Lockstep;
    var e1 := env.(sched := env.sched[1..]);
    assert e1.sched == [Deliver(pkt, "")] + later;
    assert MayHear(e1, i);
    var e2 := NextBlock(e1, i);
    assert DataFor(e1, n) == pkt;
    e := e2.(sched := e2.sched[1..]);
    assert Await(e2) == (Packet(pkt, ""), e);
  }

  lemma IterateData(env: Env, p: Proto, e: Env, n: Word, payload: seq<Byte>)
    requires Await(env) == (Packet(DataPkt(n, payload), ""), e) && |payload| <= p.packetsize
    ensures var h := Acknowledge(p, n, payload, false);
            && Iterate(env, p, false) == World(Sent(e, h.sent), h.p, h.flow)
            && h.p.packetsize == p.packetsize
  {
    hide Await;
  }

  /** The next block arrives from session `i`, is accepted and acknowledged. */
  lemma BlockRound(env: Env, p: Proto, e: Env, i: nat) returns (w: World)
    requires Coherent(env, p) && !p.eof && Started(e, p)
    requires p.prevblock < BlockCount(|env.file|, p.packetsize) <= LAST
    requires Await(env) == (Packet(DataPkt(p.prevblock + 1, Block(env.file, p.packetsize, p.prevblock + 1)), ""), e)
    requires i < |e.sessions| && e.sessions[i] == p.prevblock + 1
    ensures w == Iterate(env, p, false) && w.flow.Next? && InStep(w.env, w.p, i)
    ensures w.env.sched == e.sched && w.env.file == env.file && w.env.transfer == e.transfer
    ensures w.p.packetsize == p.packetsize && w.p.prevblock == p.prevblock + 1
  {
    hide Coherent;
    hide Await;
    hide Iterate;
    hide Acknowledge;
    hide BlockCount;
    var n, bs := p.prevblock + 1, p.packetsize;
    AwaitKeeps(env, p);
    var payload := Block(env.file, bs, n);
    assert |payload| <= bs;
    AcceptKeeps(e, p, payload);
    IterateData(env, p, e, n, payload);
    w := Iterate(env, p, false);
    LastBlockEnds(w.env, w.p);
  }

  lemma LastBlockEnds(env: Env, p: Proto)
    requires Coherent(env, p) && Started(env, p)
    ensures p.prevblock == BlockCount(|env.file|, p.packetsize) ==> p.eof
  {
    CountExceeds(|env.file|, p.packetsize);
  }

  lemma CountExceeds(size: nat, bs: nat)
    requires bs > 0
    ensures size < BlockCount(size, bs) * bs
  {
  }

  lemma RunRound(env: Env, p: Proto, k: nat)
    requires !p.eof && Iterate(env, p, false).flow.Next?
    ensures var w := Iterate(env, p, false); Run(env, p, k + 1) == Run(w.env, w.p, k)
  {
    hide Iterate;
  }

  lemma {:induction false} LockstepCompletes(env: Env, p: Proto, i: nat) returns (k: nat)
    requires InStep(env, p, i) && env.sched == Lockstep(env.file, p.packetsize, p.prevblock + 1, i)
    ensures Run(env, p, k).p.eof && Run(env, p, k).env.transfer == env.transfer
    decreases LAST - p.prevblock
  {
    hide Coherent;
    hide Iterate;
    hide Lockstep;
    hide BlockCount;
    hide Await;
    if p.eof {
      k := 0;
    } else {
      var e := LockstepAwait(env, p.prevblock + 1, p.packetsize, i);
      var w := BlockRound(env, p, e, i);
      k := LockstepCompletes(w.env, w.p, i);
      RunRound(env, p, k);
      k := k + 1;
    }
  }

  // ---------------------------------------------------------------- what the servers still have

  /** A session has sent block `n`, or an earlier answer when `n` is zero. */
  ghost predicate SentUpTo(env: Env, n: nat) {
    exists i :: 0 <= i < |env.sessions| && env.sessions[i] >= n
  }

  /** Some session is as far as the client, and every session can send its last packet again. */
  ghost predicate Live(env: Env, p: Proto) {
    && (env.transfer.Answered? ==> SentUpTo(env, p.prevblock))
    && (forall i :: 0 <= i < |env.sessions| ==> MayResend(env, i))
    && (forall d :: d in env.toClient && d.DataPkt? ==> SentUpTo(env, d.number))
  }

  /** Sessions that are as far at least have sent as much. */
  lemma SentUpToMore(env: Env, e: Env, n: nat)
    requires SentUpTo(env, n) && |env.sessions| <= |e.sessions|
    requires forall i :: 0 <= i < |env.sessions| ==> env.sessions[i] <= e.sessions[i]
    ensures SentUpTo(e, n)
  {
    var i :| 0 <= i < |env.sessions| && env.sessions[i] >= n;
    assert e.sessions[i] >= n;
  }

  lemma OpenLive(env: Env, p: Proto, opts: seq<Opt>)
    requires Coherent(env, p) && Live(env, p) && MayAnswer(env, opts)
    ensures Live(OpenSession(env, opts), p)
  {
    hide Block;
    HonestBlkSize(|env.file|, opts);
    var e := OpenSession(env, opts);
    var m := |env.sessions|;
    assert forall i :: 0 <= i < m ==> e.sessions[i] == env.sessions[i];
    forall i | 0 <= i < |e.sessions|
      ensures MayResend(e, i)
    {
      if i < m {
        assert MayResend(env, i);
      }
    }
    if env.transfer.Answered? {
      SentUpToMore(env, e, p.prevblock);
    } else {
      assert e.sessions[m] >= p.prevblock;
    }
    forall d | d in e.toClient && d.DataPkt?
      ensures SentUpTo(e, d.number)
    {
      if d in env.toClient {
        SentUpToMore(env, e, d.number);
      } else {
        assert e.sessions[m] >= d.number;
      }
    }
  }

  lemma HearLive(env: Env, p: Proto, i: nat)
    requires Live(env, p) && MayHear(env, i)
    ensures Live(NextBlock(env, i), p)
  {
    hide Block;
    var e := NextBlock(env, i);
    forall k | 0 <= k < |e.sessions|
      ensures MayResend(e, k)
    {
      assert MayResend(env, k);
    }
    SentUpToMore(env, e, p.prevblock);
    forall d | d in e.toClient && d.DataPkt?
      ensures SentUpTo(e, d.number)
    {
      if d in env.toClient {
        SentUpToMore(env, e, d.number);
      } else {
        assert e.sessions[i] >= d.number;
      }
    }
  }

  /** Other changes leave the world live: what the client is sent in addition, a session has sent before. */
  lemma SameLive(env: Env, e: Env, p: Proto)
    requires Live(env, p) && e.file == env.file && e.transfer == env.transfer && e.sessions == env.sessions
    requires forall d :: d in e.toClient && d.DataPkt? ==> d in env.toClient || SentUpTo(env, d.number)
    ensures Live(e, p)
  {
    hide Block;
    hide BlockCount;
    forall i | 0 <= i < |e.sessions|
      ensures MayResend(e, i)
    {
      assert MayResend(env, i);
    }
    if env.transfer.Answered? {
      SentUpToMore(env, e, p.prevblock);
    }
    forall d | d in e.toClient && d.DataPkt?
      ensures SentUpTo(e, d.number)
    {
      SentUpToMore(env, e, d.number);
    }
  }

  lemma ResendLive(env: Env, p: Proto, i: nat)
    requires Live(env, p) && MayResend(env, i)
    ensures Live(Resent(env, i), p)
  {
    hide Block;
    var e, d := Resent(env, i), LastPacket(env, i);
    assert forall x :: x in e.toClient ==> x in env.toClient || x == d;
    assert d.DataPkt? ==> env.sessions[i] >= d.number;
    SameLive(env, e, p);
  }

  lemma MovedLive(env: Env, p: Proto, c: Choice)
    requires Coherent(env, p) && Live(env, p)
    ensures Live(Moved(env, c), p)
  {
    hide Coherent;
    hide Live;
    hide Block;
    hide BlockCount;
    if c.Answer? && MayAnswer(env, c.opts) {
      OpenLive(env, p, c.opts);
    } else if c.Hear? && MayHear(env, c.session) {
      HearLive(env, p, c.session);
    } else if c.Resend? && MayResend(env, c.session) {
      ResendLive(env, p, c.session);
    } else {
      SameLive(env, Moved(env, c), p);
    }
  }

  lemma {:induction false} AwaitLive(env: Env, p: Proto)
    requires Coherent(env, p) && Live(env, p)
    ensures Live(Await(env).1, p)
    decreases |env.sched|
  {
    hide Coherent;
    hide Live;
    hide Moved;
    if env.sched != [] {
      var e, c := env.(sched := env.sched[1..]), env.sched[0];
      SchedIrrelevant(env, e.sched, p);
      SameLive(env, e, p);
      if !EndsWait(e, c) {
        MovedKeeps(e, p, c);
        MovedLive(e, p, c);
        AwaitLive(Moved(e, c), p);
      }
    }
  }

  /** What a packet does to the numbers: nothing, or the block it carries is the new last one. */
  lemma HandleNumbers(p: Proto, pkt: ServerPkt, junk: string)
    ensures var h := Handle(p, pkt, junk, false);
            h.p.prevblock == p.prevblock || (pkt.DataPkt? && h.p.prevblock == pkt.number)
  {
    hide ReadOack;
  }

  lemma AnyProtoLive(env: Env, p: Proto, q: Proto)
    requires Live(env, p) && q.prevblock == p.prevblock
    ensures Live(env, q)
  {
  }

  lemma AcceptedLive(env: Env, p: Proto, q: Proto, sent: set<ClientPkt>, pkt: ServerPkt)
    requires Live(env, p) && pkt in env.toClient && pkt.DataPkt? && q.prevblock == pkt.number
    ensures Live(Sent(env, sent), q)
  {
    var e := Sent(env, sent);
    SameLive(env, e, p);
    assert SentUpTo(e, pkt.number);
  }

  lemma TimeoutLive(env: Env, p: Proto)
    requires Coherent(env, p) && Live(env, p)
    ensures var w := OnTimeout(env, p); Live(w.env, w.p)
  {
    hide MayResend;
  }

  lemma IterateLive(env: Env, p: Proto)
    requires Coherent(env, p) && Live(env, p)
    ensures var w := Iterate(env, p, false); Live(w.env, w.p)
  {
    hide Coherent;
    hide Live;
    hide Handle;
    hide Await;
    hide OnTimeout;
    AwaitKeeps(env, p);
    AwaitLive(env, p);
    var (reply, e) := Await(env);
    if reply.Expired? {
      TimeoutLive(e, p);
    } else if reply.Packet? {
      var h := Handle(p, reply.pkt, reply.junk, false);
      HandleNumbers(p, reply.pkt, reply.junk);
      if h.p.prevblock == p.prevblock {
        SameLive(e, Sent(e, h.sent), p);
        AnyProtoLive(Sent(e, h.sent), p, h.p);
      } else {
        AcceptedLive(e, p, h.p, h.sent, reply.pkt);
      }
    }
  }

  lemma {:induction false} RunLive(env: Env, p: Proto, k: nat)
    requires Coherent(env, p) && Live(env, p)
    ensures var w := Run(env, p, k); Live(w.env, w.p)
    decreases k
  {
    hide Coherent;
    hide Live;
    hide Iterate;
    if k > 0 && !p.eof {
      var w := Iterate(env, p, false);
      IterateLive(env, p);
      IterateKeeps(env, p);
      if w.flow.Next? {
        RunLive(w.env, w.p, k - 1);
      }
    }
  }

  // ---------------------------------------------------------------- how to complete a transfer

  /** A session repeats its last packet, and that arrives. */
  lemma ResendNext(env: Env, i: nat, later: seq<Choice>)
    requires MayResend(env, i) && env.sched == [Resend(i), Deliver(LastPacket(env, i), "")] + later
    ensures Await(env) == (Packet(LastPacket(env, i), ""), Resent(env, i).(sched := later))
  {
    hide Block;
    hide BlockCount;
    var pkt := LastPacket(env, i);
    var e := env.(sched := env.sched[1..]);
    assert e.sched == [Deliver(pkt, "")] + later;
    var f := Resent(e, i);
    assert Moved(e, Resend(i)) == f && pkt in f.toClient;
    assert f.sched[0] == Deliver(pkt, "") && f.sched[1..] == later;
    assert Await(f) == (Packet(pkt, ""), f.(sched := later));
  }

  /** The client agrees with the servers on the block size, and there is a next block. */
  lemma NextExists(env: Env, p: Proto)
    requires Coherent(env, p) && !p.eof && Started(env, p) && Fetchable(|env.file|, env.transfer.opts)
    ensures p.prevblock < BlockCount(|env.file|, p.packetsize) <= LAST
  {
    if p.prevblock >= BlockCount(|env.file|, p.packetsize) {
      CountExceeds(|env.file|, p.packetsize);
      CountMono(BlockCount(|env.file|, p.packetsize), p.prevblock, p.packetsize);
    }
  }

  lemma CountMono(a: nat, b: nat, m: nat)
    requires a <= b
    ensures a * m <= b * m
  {
  }

  /** The first round of a completion: session `i` repeats its last packet. */
  lemma FirstResent(env: Env, p: Proto, i: nat, later: seq<Choice>) returns (env': Env, e: Env)
    requires Coherent(env, p) && i < |env.sessions| && MayResend(env, i)
    ensures env' == env.(sched := [Resend(i), Deliver(LastPacket(env, i), "")] + later)
    ensures Coherent(env', p) && Coherent(e, p) && e == Resent(env, i).(sched := later)
    ensures Await(env') == (Packet(LastPacket(env, i), ""), e) && LastPacket(env, i) in e.toClient
  {
    hide Coherent;
    hide Block;
    hide BlockCount;
    var sched := [Resend(i), Deliver(LastPacket(env, i), "")] + later;
    env' := env.(sched := sched);
    e := Resent(env, i).(sched := later);
    SchedIrrelevant(env, sched, p);
    ResendKeeps(env, p, i);
    SchedIrrelevant(Resent(env, i), later, p);
    ResendNext(env', i, later);
  }

  lemma AheadPacket(env: Env, p: Proto, i: nat)
    requires Coherent(env, p) && i < |env.sessions| && env.sessions[i] == p.prevblock + 1 && MayResend(env, i)
    requires Started(env, p) && !p.eof && p.prevblock < BlockCount(|env.file|, p.packetsize) <= LAST
    ensures LastPacket(env, i) == DataPkt(p.prevblock + 1, Block(env.file, p.packetsize, p.prevblock + 1))
  {
    hide Block;
  }

  /** The session is one block ahead, and that block arrives. */
  lemma FromAhead(env: Env, p: Proto, i: nat) returns (sched: seq<Choice>, k: nat)
    requires Coherent(env, p) && !p.eof && env.transfer.Answered? && Fetchable(|env.file|, env.transfer.opts)
    requires i < |env.sessions| && env.sessions[i] == p.prevblock + 1 && MayResend(env, i) && Started(env, p)
    ensures Finishes(env, p, sched, k) && Run(env.(sched := sched), p, k).env.transfer == env.transfer
  {
    NextExists(env, p);
    hide Coherent;
    hide Lockstep;
    hide BlockCount;
    hide Iterate;
    hide Await;
    var later := Lockstep(env.file, p.packetsize, p.prevblock + 2, i);
    sched := [Resend(i), Deliver(LastPacket(env, i), "")] + later;
    var env', e := FirstResent(env, p, i, later);
    AheadPacket(env, p, i);
    hide LastPacket;
    hide MayResend;
    hide Block;
    var w := BlockRound(env', p, e, i);
    k := LockstepCompletes(w.env, w.p, i);
    RunRound(env', p, k);
    k := k + 1;
  }

  /** The session stands where the client does: its last packet is heard again and acknowledged again, whatever became
      of the first acknowledgement. */
  lemma FromInStep(env: Env, p: Proto, i: nat) returns (sched: seq<Choice>, k: nat)
    requires Coherent(env, p) && !p.eof && env.transfer.Answered? && Fetchable(|env.file|, env.transfer.opts)
    requires i < |env.sessions| && env.sessions[i] == p.prevblock && MayResend(env, i)
    ensures Finishes(env, p, sched, k) && Run(env.(sched := sched), p, k).env.transfer == env.transfer
  {
    hide Coherent;
    hide Lockstep;
    hide BlockCount;
    hide Iterate;
    hide Await;
    var later := Lockstep(env.file, BlkSizeOf(env.transfer.opts), p.prevblock + 1, i);
    sched := [Resend(i), Deliver(LastPacket(env, i), "")] + later;
    var env', e := FirstResent(env, p, i, later);
    var w;
    if p.prevblock == 0 {
      w := OackRound(env', p, e);
    } else {
      w := AgainRound(env', p, e, i);
    }
    NextExists(w.env, w.p);
    k := LockstepCompletes(w.env, w.p, i);
    RunRound(env', p, k);
    k := k + 1;
  }

  /** The last block accepted arrives again. */
  lemma AgainRound(env: Env, p: Proto, e: Env, i: nat) returns (w: World)
    requires Coherent(env, p) && Coherent(e, p) && !p.eof && p.prevblock > 0
    requires i < |e.sessions| && e.sessions[i] == p.prevblock && MayResend(e, i)
    requires Await(env) == (Packet(LastPacket(e, i), ""), e) && LastPacket(e, i) in e.toClient
    ensures w == Iterate(env, p, false) && w.flow.Next? && Coherent(w.env, w.p) && Started(w.env, w.p) && !w.p.eof
    ensures w.p.prevblock == p.prevblock && Ack(p.prevblock) in w.env.toServer
    ensures w.env == e.(toServer := w.env.toServer)
  {
    var pkt := LastPacket(e, i);
    LastAgain(e, p, i);
    IterateKeeps(env, p);
    HandleAnswers(e, p, pkt, "");
    DataStep(e, p, pkt.number, pkt.payload, "");
    hide Coherent;
    hide Await;
    w := Iterate(env, p, false);
    AgainIsOld(p, pkt.number, pkt.payload);
  }

  /** A packet with the last number changes nothing but is acknowledged. */
  lemma AgainIsOld(p: Proto, n: Word, payload: seq<Byte>)
    requires p.prevblock > 0 && n == p.prevblock == p.bcounter && |payload| <= p.packetsize
    ensures var h := Handle(p, DataPkt(n, payload), "", false);
            && h.p.prevblock == p.prevblock && h.p.eof == p.eof && h.flow.Next?
            && h.p.packetsize == p.packetsize && h.sent == {Ack(p.prevblock)}
  {
  }

  lemma LastAgain(env: Env, p: Proto, i: nat)
    requires Coherent(env, p) && !p.eof && p.prevblock > 0 && i < |env.sessions| && env.sessions[i] == p.prevblock
    requires MayResend(env, i)
    ensures var pkt := LastPacket(env, i);
            pkt.DataPkt? && pkt.number == p.prevblock == p.bcounter && |pkt.payload| <= p.packetsize && Started(env, p)
  {
    LastFacts(env, p);
    hide Coherent;
    hide Block;
    hide BlockCount;
    BlockShort(env.file, p.packetsize, p.prevblock);
  }

  lemma LastFacts(env: Env, p: Proto)
    requires Coherent(env, p) && p.prevblock > 0
    ensures Started(env, p) && p.prevblock == p.bcounter <= LAST
  {
  }

  lemma BlockShort(file: seq<Byte>, bs: nat, n: nat)
    requires n > 0
    ensures |Block(file, bs, n)| <= bs
  {
  }

  lemma OackRound(env: Env, p: Proto, e: Env) returns (w: World)
    requires Coherent(env, p) && Coherent(e, p) && !p.eof && p.prevblock == 0 && e.transfer.Answered?
    requires Fetchable(|e.file|, e.transfer.opts)
    requires var pkt := OackPkt(Encode(e.transfer.opts)); Await(env) == (Packet(pkt, ""), e) && pkt in e.toClient
    ensures w == Iterate(env, p, false) && w.flow.Next? && Coherent(w.env, w.p) && Started(w.env, w.p) && !w.p.eof
    ensures w.p.prevblock == 0 && Ack(0) in w.env.toServer
    ensures w.env == e.(toServer := w.env.toServer)
  {
    hide Coherent;
    hide Await;
    hide ReadOack;
    var text := Encode(e.transfer.opts);
    OackStep(e, p, text, "");
    OackReading(e, p, text, "");
    OackKeeps(e, p, text, "");
    w := Iterate(env, p, false);
  }

  /** An answered transfer whose answer suits the client and whose file is not too large can be completed. */
  lemma AnsweredCompletes(env: Env, p: Proto) returns (sched: seq<Choice>, k: nat)
    requires Coherent(env, p) && Live(env, p) && !p.eof && env.transfer.Answered?
    requires Fetchable(|env.file|, env.transfer.opts)
    ensures Finishes(env, p, sched, k) && Run(env.(sched := sched), p, k).env.transfer == env.transfer
  {
    hide Finishes;
    var i :| 0 <= i < |env.sessions| && env.sessions[i] >= p.prevblock;
    assert MayResend(env, i);
    SessionNear(env, p, i);
    if env.sessions[i] == p.prevblock + 1 {
      assert Started(env, p);
      sched, k := FromAhead(env, p, i);
    } else {
      sched, k := FromInStep(env, p, i);
    }
  }

  lemma SessionNear(env: Env, p: Proto, i: nat)
    requires Coherent(env, p) && !p.eof && env.transfer.Answered? && Fetchable(|env.file|, env.transfer.opts)
    requires i < |env.sessions|
    ensures env.sessions[i] <= p.prevblock + 1
  {
    if p.prevblock > 0 {
      NextExists(env, p);
    }
  }

  /** An answer changes nothing else for the client. */
  lemma AnswerFirst(env: Env, p: Proto, opts: seq<Opt>, later: seq<Choice>, k: nat)
    requires MayAnswer(env, opts) && env.sched == [Answer(opts)] + later && !p.eof && k > 0
    ensures Run(env, p, k) == Run(OpenSession(env, opts).(sched := later), p, k)
  {
    var e := env.(sched := later);
    assert env.sched[1..] == later;
    hide Block;
    assert OpenSession(e, opts) == OpenSession(env, opts).(sched := later);
    assert Await(env) == Await(OpenSession(e, opts));
  }

  /** A request that has not been answered can be answered, and then completed. */
  lemma RequestedCompletes(env: Env, p: Proto, opts: seq<Opt>) returns (sched: seq<Choice>, k: nat)
    requires Coherent(env, p) && Live(env, p) && !p.eof && env.transfer.Unanswered? && Rrq in env.toServer
    requires Fetchable(|env.file|, opts)
    ensures Finishes(env, p, sched, k) && Run(env.(sched := sched), p, k).env.transfer == Answered(opts)
    ensures sched != [] && sched[0] == Answer(opts)
  {
    hide Coherent;
    hide Live;
    hide Run;
    hide Block;
    var e := OpenSession(env, opts);
    OpenKeeps(env, p, opts);
    OpenLive(env, p, opts);
    var later;
    later, k := AnsweredCompletes(e, p);
    sched := [Answer(opts)] + later;
    var env' := env.(sched := sched);
    if k == 0 {
      NotYet(e.(sched := later), p);
    }
    AnswerFirst(env', p, opts, later, k);
    assert OpenSession(env', opts).(sched := later) == e.(sched := later);
  }

  lemma NotYet(env: Env, p: Proto)
    requires !p.eof
    ensures !Run(env, p, 0).p.eof
  {
  }

  /** A client that has only sent its request can send it again, have it answered and complete. */
  lemma RepeatCompletes(env: Env, p: Proto, opts: seq<Opt>) returns (sched: seq<Choice>, k: nat)
    requires Coherent(env, p) && Live(env, p) && !p.eof && p.tp.Rrq? && p.retry < MAX_TFTP_RETRIES
    requires Fetchable(|env.file|, opts)
    ensures Finishes(env, p, sched, k)
  {
    hide Live;
    hide Run;
    hide Block;
    var w := OnTimeout(env.(sched := []), p);
    SchedIrrelevant(env, [], p);
    TimeoutKeeps(env.(sched := []), p);
    SameLive(env, env.(sched := []), p);
    TimeoutLive(env.(sched := []), p);
    var later;
    later, k := RequestedCompletes(w.env, w.p, opts);
    sched := [Expire] + later;
    var e := env.(sched := sched);
    assert sched[1..] == later;
    assert Await(e) == (Expired, env.(sched := later));
    assert Iterate(e, p, false) == World(w.env.(sched := later), w.p, Next);
    RunRound(e, p, k);
    k := k + 1;
  }

  // ---------------------------------------------------------------- exactly which transfers can be completed

  /** Some answer of an honest server lets the file be fetched. */
  ghost predicate SomeAnswer(size: nat) {
    exists opts :: Fetchable(size, opts)
  }

  /** The largest block size asked for decides. */
  lemma SomeAnswerIff(size: nat)
    ensures SomeAnswer(size) <==> BlockCount(size, 1432) <= 65535
  {
    if SomeAnswer(size) {
      var opts :| Fetchable(size, opts);
      HonestBlkSize(size, opts);
      LargerBlocks(size, BlkSizeOf(opts), TFTP_MAX_PACKET);
    } else {
      LargestSuits();
      assert !Fetchable(size, [BlkSize(TFTP_MAX_PACKET)]);
    }
  }

  lemma LargerBlocks(size: nat, a: nat, b: nat)
    requires 0 < a <= b
    ensures BlockCount(size, b) <= BlockCount(size, a)
  {
    var q, r := size / b, size / a;
    if q > r {
      assert (r + 1) * a <= q * a <= q * b <= size by {
        CountMono(r + 1, q, a);
        CountMono(a, b, q);
      }
      CountExceeds(size, a);
    }
  }

  lemma LargestSuits()
    ensures Suits([BlkSize(TFTP_MAX_PACKET)]) && BlkSizeOf([BlkSize(TFTP_MAX_PACKET)]) == TFTP_MAX_PACKET
  {
    var opts := [BlkSize(TFTP_MAX_PACKET)];
    assert opts[1..] == [] && opts[..0] == [];
    assert Encode(opts) == EncodeOpt(opts[0]) + "";
    RenderIsShort(TFTP_MAX_PACKET, Pow10(4), 4);
  }

  /** The servers have given an answer that will do; or the request waits for one, or can be repeated, and some answer
      will do. */
  ghost predicate Recoverable(env: Env, p: Proto) {
    if env.transfer.Answered? && Fetchable(|env.file|, env.transfer.opts) then true
    else
      && SomeAnswer(|env.file|)
      && ((env.transfer.Unanswered? && Rrq in env.toServer) || (p.tp.Rrq? && p.retry < 20))
  }

  /** What servers and channel do cannot make a hopeless transfer recoverable. */
  lemma {:induction false} AwaitHopeless(env: Env, p: Proto)
    requires !Recoverable(env, p)
    ensures !Recoverable(Await(env).1, p) && Await(env).1.file == env.file
    decreases |env.sched|
  {
    hide Fetchable;
    hide Moved;
    if env.sched != [] {
      var e, c := env.(sched := env.sched[1..]), env.sched[0];
      if !EndsWait(e, c) {
        MovedHopeless(e, p, c);
        AwaitHopeless(Moved(e, c), p);
      }
    }
  }

  lemma MovedHopeless(env: Env, p: Proto, c: Choice)
    requires !Recoverable(env, p)
    ensures !Recoverable(Moved(env, c), p)
  {
    hide Block;
    hide Fetchable;
    hide BlockCount;
  }

  /** The end of the file is reached only with an answer that will do. */
  lemma EndIsFetchable(env: Env, p: Proto)
    requires Coherent(env, p) && p.eof
    ensures env.transfer.Answered? && Fetchable(|env.file|, env.transfer.opts)
  {
    hide Block;
    hide Encode;
  }

  lemma HandleKeepsRequest(p: Proto, pkt: ServerPkt, junk: string)
    ensures var h := Handle(p, pkt, junk, false); h.p.tp.Rrq? ==> p.tp.Rrq? && h.p.retry == p.retry
    ensures Rrq !in Handle(p, pkt, junk, false).sent
  {
    hide ReadOack;
  }

  lemma IterateHopeless(env: Env, p: Proto)
    requires Coherent(env, p) && !p.eof && !Recoverable(env, p)
    ensures var w := Iterate(env, p, false); !w.p.eof && !Recoverable(w.env, w.p)
  {
    hide Coherent;
    hide Fetchable;
    hide Await;
    hide Handle;
    AwaitHopeless(env, p);
    IterateKeeps(env, p);
    var w := Iterate(env, p, false);
    var (reply, e) := Await(env);
    if reply.Packet? {
      HandleKeepsRequest(p, reply.pkt, reply.junk);
    }
    if w.p.eof {
      EndIsFetchable(w.env, w.p);
    }
  }

  lemma {:induction false} RunHopeless(env: Env, p: Proto, k: nat)
    requires Coherent(env, p) && !p.eof && !Recoverable(env, p)
    ensures !Run(env, p, k).p.eof
    decreases k
  {
    hide Coherent;
    hide Recoverable;
    hide Iterate;
    if k > 0 {
      IterateHopeless(env, p);
      IterateKeeps(env, p);
      var w := Iterate(env, p, false);
      if w.flow.Next? {
        RunHopeless(w.env, w.p, k - 1);
      }
    }
  }

  /** Some behaviour of servers and channel completes an unfinished transfer exactly when it is recoverable. */
  lemma CanFinishIff(env: Env, p: Proto)
    requires Coherent(env, p) && Live(env, p) && !p.eof
    ensures CanFinish(env, p) <==> Recoverable(env, p)
  {
    hide Coherent;
    hide Live;
    hide Finishes;
    hide Fetchable;
    if Recoverable(env, p) {
      var sched, k;
      if env.transfer.Answered? && Fetchable(|env.file|, env.transfer.opts) {
        sched, k := AnsweredCompletes(env, p);
      } else {
        var opts :| Fetchable(|env.file|, opts);
        if env.transfer.Unanswered? && Rrq in env.toServer {
          sched, k := RequestedCompletes(env, p, opts);
        } else {
          sched, k := RepeatCompletes(env, p, opts);
        }
      }
      assert Finishes(env, p, sched, k);
    } else {
      HopelessNeverFinishes(env, p);
    }
  }

  lemma HopelessNeverFinishes(env: Env, p: Proto)
    requires Coherent(env, p) && !p.eof && !Recoverable(env, p)
    ensures !CanFinish(env, p)
  {
    hide Coherent;
    hide Fetchable;
    hide Run;
    forall sched, k
      ensures !Finishes(env, p, sched, k)
    {
      SchedIrrelevant(env, sched, p);
      RunHopeless(env.(sched := sched), p, k);
    }
  }

  /** The same for every state a transfer can get into, from its request on. */
  lemma TransferCanFinishIff(file: seq<Byte>, sched: seq<Choice>, filemax: int, k: nat)
    requires |file| <= INT_MAX
    ensures var w := Run(FreshEnv(file, sched), FreshProto(filemax), k);
            w.p.eof || (CanFinish(w.env, w.p) <==> Recoverable(w.env, w.p))
  {
    var env, p := FreshEnv(file, sched), FreshProto(filemax);
    FreshCoherent(file, sched, filemax);
    hide Coherent;
    assert Live(env, p);
    hide Live;
    RunKeeps(env, p, k);
    RunLive(env, p, k);
    hide Run;
    var w := Run(env, p, k);
    if !w.p.eof {
      CanFinishIff(w.env, w.p);
    }
  }

  // ---------------------------------------------------------------- a fresh request

  /** The transfer can be completed after the servers answered with `opts`. */
  ghost predicate Completes(file: seq<Byte>, opts: seq<Opt>, sched: seq<Choice>, k: nat) {
    var w := Run(FreshEnv(file, sched), FreshProto(-1), k);
    w.p.eof && w.env.transfer == Answered(opts)
  }

  ghost predicate CanFetch(file: seq<Byte>, opts: seq<Opt>) {
    exists sched, k :: Completes(file, opts, sched, k)
  }

  /** A file can be fetched over some channel exactly when the server's answer is acceptable and the
      file has at most 65535 blocks: beyond that the client waits for a block number that no packet
      can carry. */
  lemma FetchableIff(file: seq<Byte>, opts: seq<Opt>)
    requires |file| <= INT_MAX
    ensures CanFetch(file, opts) <==> Fetchable(|file|, opts)
  {
    var env, p := FreshEnv(file, []), FreshProto(-1);
    FreshCoherent(file, [], -1);
    assert Live(env, p);
    if Fetchable(|file|, opts) {
      hide Coherent;
      hide Run;
      var sched, k := RequestedCompletes(env, p, opts);
      assert env.(sched := sched) == FreshEnv(file, sched);
      assert Completes(file, opts, sched, k);
    }
    if CanFetch(file, opts) {
      var sched, k :| Completes(file, opts, sched, k);
      FreshCoherent(file, sched, -1);
      RunKeeps(FreshEnv(file, sched), FreshProto(-1), k);
      hide Run;
      var w := Run(FreshEnv(file, sched), FreshProto(-1), k);
      EndIsFetchable(w.env, w.p);
    }
  }

  // ---------------------------------------------------------------- stranded transfers

  /** The request is gone, and what the client would repeat is not a request. */
  ghost predicate Stranded(env: Env, p: Proto) {
    env.transfer.Unanswered? && Rrq !in env.toServer && !p.tp.Rrq?
  }

  /** Once the client has accepted an OACK it holds the acknowledgement of block 0; a timeout that goes on repeats that
      from a fresh port, where nobody knows the transfer. */
  lemma TimeoutStrands(env: Env, p: Proto)
    requires !p.tp.Rrq? && OnTimeout(env, p).flow.Next?
    ensures var w := OnTimeout(env, p); Stranded(w.env, w.p)
  {
  }

  lemma {:induction false} AwaitStranded(env: Env, p: Proto)
    requires Coherent(env, p) && Stranded(env, p)
    ensures Stranded(Await(env).1, p)
    ensures Await(env).0.Packet? ==> Await(env).0.pkt.ErrorPkt?
    decreases |env.sched|
  {
    hide Coherent;
    hide Moved;
    if env.sched != [] {
      var e, c := env.(sched := env.sched[1..]), env.sched[0];
      SchedIrrelevant(env, e.sched, p);
      OnlyErrors(e, p);
      if !EndsWait(e, c) {
        MovedKeeps(e, p, c);
        MovedStranded(e, p, c);
        AwaitStranded(Moved(e, c), p);
      }
    }
  }

  lemma OnlyErrors(env: Env, p: Proto)
    requires Coherent(env, p) && env.transfer.Unanswered?
    ensures env.toClient <= {ErrorPkt}
  {
  }

  lemma MovedStranded(env: Env, p: Proto, c: Choice)
    requires Stranded(env, p)
    ensures Stranded(Moved(env, c), p)
  {
  }

  /** A stranded client accepts nothing more, whatever servers and channel do and however long it goes on. */
  lemma {:induction false} StrandedForGood(env: Env, p: Proto, k: nat)
    requires Coherent(env, p) && !p.eof && Stranded(env, p)
    ensures var w := Run(env, p, k); w.p.received == p.received && !w.p.eof && Stranded(w.env, w.p)
    decreases k
  {
    hide Coherent;
    if k > 0 {
      AwaitStranded(env, p);
      IterateKeeps(env, p);
      hide Await;
      var w := Iterate(env, p, false);
      if w.flow.Next? {
        StrandedForGood(w.env, w.p, k - 1);
      }
    }
  }
}
