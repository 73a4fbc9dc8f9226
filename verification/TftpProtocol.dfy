/** The receiving side of the TFTP client (netboot/fsys_tftp.c, buf_fill and send_rrq) against an
    honest server over a channel that may lose, duplicate and reorder packets.

    The server answers a request as sections 5 and 6 of RFC 1350 and the Negotiation Protocol section
    of RFC 2347 say: an OACK or the first data block, then the next block for every acknowledgement of
    the current one, with block numbers taken modulo 65536 on the wire. A duplicated request may start
    several server sessions; they negotiate the same options. What the channel and the servers do is
    fixed by a schedule, so a statement about every schedule is a statement about every behaviour. */
module TftpProtocol {
  import opened Decimal
  import opened Oack
  import opened Seqs

  const MAX_TFTP_RETRIES: nat := 20
  const WIRE: nat := 0x1_0000
  const LAST: nat := WIRE - 1

  /** unsigned short */
  type Word = n: int | 0 <= n < 0x1_0000

  datatype ClientPkt = Rrq | Ack(block: Word) | Refusal

  datatype ServerPkt = OackPkt(text: string) | DataPkt(number: Word, payload: seq<Byte>) | ErrorPkt | OtherPkt

  datatype Transfer = Unanswered | Answered(opts: seq<Opt>)

  /** One move of the world outside the client. */
  datatype Choice =
    | Answer(opts: seq<Opt>)                // a server takes up the request
    | Hear(session: nat)                    // a server session hears the ACK of its current block
    | Fail                                  // a server gives up and says so
    | Resend(session: nat)                  // a server session sends its last packet again
    | Deliver(pkt: ServerPkt, junk: string) // a packet sent to the client arrives, stale bytes behind it
    | Lose(up: ClientPkt)                   // a packet sent to the server is lost for good, with all its copies
    | Drop(down: ServerPkt)                 // so is a packet sent to the client
    | Expire                                // nothing arrives in time
    | Interrupt                             // the user presses Ctrl-C
    | SendFails                             // the next udp_transmit that is checked fails

  /** Everything outside the client, for the client port of the current request. Packets once sent
      stay deliverable until they are lost. */
  datatype Env = Env(
    file: seq<Byte>,
    transfer: Transfer,
    sessions: seq<nat>,      // number of the last block each session sent, 0 after an OACK
    toServer: set<ClientPkt>,
    toClient: set<ServerPkt>,
    sched: seq<Choice>)

  /** The protocol variables of the client. `received`, `resends` and `acks` only record what happened
      since the last request: the data accepted, how often a packet was repeated and the block numbers
      acknowledged. */
  datatype Proto = Proto(
    tp: ClientPkt, block: Word, prevblock: Word, bcounter: nat, packetsize: int,
    eof: bool, retry: nat, filemax: int, received: seq<Byte>, resends: nat, acks: seq<nat>)

  function Min(a: int, b: int): int {
    if a <= b then a else b
  }

  // ---------------------------------------------------------------- the server

  function BlockCount(size: nat, blksize: nat): nat
    requires blksize > 0
  {
    size / blksize + 1
  }

  /** Data block `n`, counted from one. */
  function Block(file: seq<Byte>, blksize: nat, n: nat): seq<Byte>
    requires n > 0
  {
    var lo := (n - 1) * blksize;
    file[Min(lo, |file|)..Min(lo + blksize, |file|)]
  }

  /** An honest answer: a block size the client asked for or less, and the true file size. */
  predicate HonestOpts(size: nat, opts: seq<Opt>) {
    forall i :: 0 <= i < |opts| ==>
      if opts[i].BlkSize? then 8 <= opts[i].value <= TFTP_MAX_PACKET else opts[i].value == size
  }

  /** The block size a server uses after answering with `opts`. */
  function BlkSizeOf(opts: seq<Opt>): int {
    LastBlkSize(opts, TFTP_DEFAULTSIZE_PACKET)
  }

  predicate MayAnswer(env: Env, opts: seq<Opt>) {
    && Rrq in env.toServer
    && HonestOpts(|env.file|, opts)
    && (env.transfer.Unanswered? || env.transfer.opts == opts)
  }

  function DataFor(env: Env, n: nat): ServerPkt
    requires n > 0 && env.transfer.Answered? && BlkSizeOf(env.transfer.opts) > 0
  {
    DataPkt(n % WIRE, Block(env.file, BlkSizeOf(env.transfer.opts), n))
  }

  lemma {:induction false} HonestBlkSize(size: nat, opts: seq<Opt>)
    requires HonestOpts(size, opts)
    ensures 8 <= BlkSizeOf(opts) <= TFTP_MAX_PACKET
  {
    if opts != [] {
      HonestBlkSize(size, opts[..|opts| - 1]);
    }
  }

  function OpenSession(env: Env, opts: seq<Opt>): Env
    requires MayAnswer(env, opts)
  {
    HonestBlkSize(|env.file|, opts);
    var e := env.(transfer := Answered(opts));
    if opts == [] then
      e.(sessions := e.sessions + [1], toClient := e.toClient + {DataFor(e, 1)})
    else
      e.(sessions := e.sessions + [0], toClient := e.toClient + {OackPkt(Encode(opts))})
  }

  predicate MayHear(env: Env, i: nat) {
    && env.transfer.Answered? && BlkSizeOf(env.transfer.opts) > 0
    && i < |env.sessions|
    && Ack(env.sessions[i] % WIRE) in env.toServer
    && env.sessions[i] < BlockCount(|env.file|, BlkSizeOf(env.transfer.opts))
  }

  function NextBlock(env: Env, i: nat): Env
    requires MayHear(env, i)
  {
    var n := env.sessions[i] + 1;
    env.(sessions := env.sessions[i := n], toClient := env.toClient + {DataFor(env, n)})
  }

  predicate MayResend(env: Env, i: nat) {
    && env.transfer.Answered? && BlkSizeOf(env.transfer.opts) > 0
    && i < |env.sessions| && env.sessions[i] <= BlockCount(|env.file|, BlkSizeOf(env.transfer.opts))
    && (env.sessions[i] == 0 ==> env.transfer.opts != [])
  }

  /** What session `i` sent last. */
  function LastPacket(env: Env, i: nat): ServerPkt
    requires MayResend(env, i)
  {
    if env.sessions[i] == 0 then OackPkt(Encode(env.transfer.opts)) else DataFor(env, env.sessions[i])
  }

  /** Nothing has been heard for a while. */
  function Resent(env: Env, i: nat): Env
    requires MayResend(env, i)
  {
    env.(toClient := env.toClient + {LastPacket(env, i)})
  }

  // ---------------------------------------------------------------- the channel

  datatype Reply = Packet(pkt: ServerPkt, junk: string) | Expired | Interrupted

  /** What a choice makes of the world, if it does not end the wait. */
  function Moved(env: Env, c: Choice): (e: Env)
    ensures e.sched == env.sched && e.file == env.file
  {
    match c
    case Answer(opts) => if MayAnswer(env, opts) then OpenSession(env, opts) else env
    case Hear(i) => if MayHear(env, i) then NextBlock(env, i) else env
    case Fail => env.(toClient := env.toClient + {ErrorPkt})
    case Resend(i) => if MayResend(env, i) then Resent(env, i) else env
    case Lose(pkt) => env.(toServer := env.toServer - {pkt})
    case Drop(pkt) => env.(toClient := env.toClient - {pkt})
    case _ => env
  }

  predicate EndsWait(env: Env, c: Choice) {
    c.Expire? || c.Interrupt? || (c.Deliver? && c.pkt in env.toClient)
  }

  /** await_reply: the world moves until a packet arrives, time is up or the user interrupts. An
      exhausted schedule is silence. */
  function Await(env: Env): (Reply, Env)
    decreases |env.sched|
  {
    if env.sched == [] then (Expired, env)
    else
      var e, c := env.(sched := env.sched[1..]), env.sched[0];
      if !EndsWait(e, c) then Await(Moved(e, c))
      else (if c.Deliver? then Packet(c.pkt, c.junk) else if c.Expire? then Expired else Interrupted, e)
  }

  function Sent(env: Env, pkts: set<ClientPkt>): Env {
    env.(toServer := env.toServer + pkts)
  }

  /** A checked udp_transmit of `tp` from a fresh client port to the server's well-known port: packets
      for the old port no longer reach the client, and only a request starts anything. */
  function Request(env: Env, tp: ClientPkt): (bool, Env) {
    var e := env.(transfer := Unanswered, sessions := [], toServer := {}, toClient := {});
    if env.sched != [] && env.sched[0].SendFails? then (false, e.(sched := env.sched[1..]))
    else (true, if tp.Rrq? then e.(toServer := {Rrq}) else e)
  }

  // ---------------------------------------------------------------- the client

  datatype Flow = Next | Stop | Quit

  /** What one packet does to the client: the new variables, whether the loop goes on, is left with
      success or is left with failure, and the packets sent. */
  datatype Handled = Handled(p: Proto, flow: Flow, sent: set<ClientPkt>)

  /** The part of the loop after a packet has been recognised as block `n`. */
  function Acknowledge(p: Proto, n: Word, payload: seq<Byte>, abort: bool): Handled {
    var block := if (n != 0 || p.bcounter != 0) && n != p.prevblock + 1 then p.prevblock else n;
    var reply := if abort then Refusal else Ack(block);
    var q := p.(block := block, tp := reply, acks := if abort then p.acks else p.acks + [block]);
    if abort then Handled(q.(eof := true), Stop, {reply})
    else if (block - p.prevblock) % WIRE != 1 then Handled(q, Next, {reply})
    else
      Handled(q.(prevblock := block, retry := 0, bcounter := p.bcounter + 1,
                 received := p.received + payload, eof := p.eof || |payload| < p.packetsize),
              Next, {reply})
  }

  ghost function Handle(p: Proto, pkt: ServerPkt, junk: string, abort: bool): Handled {
    match pkt
    case ErrorPkt => Handled(p, Quit, {})
    case OtherPkt => Handled(p, Stop, {})
    case OackPkt(text) =>
      if p.prevblock != 0 then Handled(p, Next, {})
      else
        var r := ReadOack(text + junk, |text|, p.packetsize, p.filemax);
        var q := p.(packetsize := r.packetsize, filemax := r.filemax);
        if r.ok then Acknowledge(q, 0, [], abort) else Handled(q.(tp := Refusal), Quit, {Refusal})
    case DataPkt(n, payload) =>
      if |payload| > p.packetsize then Handled(p, Next, {})
      else Acknowledge(p, n, payload, abort)
  }

  datatype World = World(env: Env, p: Proto, flow: Flow)

  /** A timeout: as long as no block has been accepted, the packet the client holds is sent again from a fresh port.
      That is the request, or the acknowledgement of an OACK, which no server can place. */
  function OnTimeout(env: Env, p: Proto): World {
    if p.block == 0 && p.retry < MAX_TFTP_RETRIES then
      var (ok, e) := Request(env, p.tp);
      var acks := if p.tp.Ack? then p.acks + [p.tp.block] else p.acks;
      World(e, p.(retry := p.retry + 1, resends := p.resends + 1, acks := acks), if ok then Next else Quit)
    else
      World(env, if p.block == 0 then p.(retry := p.retry + 1) else p, Quit)
  }

  /** One round of the loop of buf_fill. */
  ghost function Iterate(env: Env, p: Proto, abort: bool): World {
    var (reply, e) := Await(env);
    match reply
    case Interrupted => World(e, p, Quit)
    case Expired => OnTimeout(e, p)
    case Packet(pkt, junk) =>
      var h := Handle(p, pkt, junk, abort);
      World(Sent(e, h.sent), h.p, h.flow)
  }

  /** send_rrq: the variables of a transfer that has just been asked for. */
  function FreshProto(filemax: int): Proto {
    Proto(Rrq, 0, 0, 0, TFTP_DEFAULTSIZE_PACKET, false, 0, filemax, [], 0, [])
  }

  // ---------------------------------------------------------------- the invariant

  /** The servers and the client agree on the block size; from here on data can flow. */
  ghost predicate Started(env: Env, p: Proto) {
    && env.transfer.Answered?
    && AllLarge(env.transfer.opts)
    && |Encode(env.transfer.opts)| <= TFTP_MAX_PACKET
    && p.packetsize == BlkSizeOf(env.transfer.opts) >= TFTP_DEFAULTSIZE_PACKET
  }

  /** No server is ahead of the client by more than one block. Beyond the last wire number the client
      accepts nothing, so the statement is needed only below it. */
  ghost predicate NotAhead(env: Env, p: Proto) {
    p.prevblock < LAST ==>
      && (forall i :: 0 <= i < |env.sessions| ==> env.sessions[i] <= p.prevblock + 1)
      && (forall d :: d in env.toClient && d.DataPkt? ==>
            && env.transfer.Answered? && BlkSizeOf(env.transfer.opts) > 0
            && 1 <= d.number <= Min(p.prevblock + 1, BlockCount(|env.file|, BlkSizeOf(env.transfer.opts)))
            && d.payload == Block(env.file, BlkSizeOf(env.transfer.opts), d.number))
  }

  ghost predicate Channel(env: Env, p: Proto) {
    && (env.transfer.Answered? ==> HonestOpts(|env.file|, env.transfer.opts))
    && (env.transfer.Unanswered? ==> env.sessions == [] && env.toClient <= {ErrorPkt})
    && (Rrq in env.toServer && env.transfer.Unanswered? ==> p.packetsize == TFTP_DEFAULTSIZE_PACKET)
    && (env.transfer.Answered? && LastBlkSize(env.transfer.opts, -1) == -1 ==>
          p.packetsize == TFTP_DEFAULTSIZE_PACKET)
    && (forall a :: a in env.toServer && a.Ack? ==> Started(env, p) && a.block <= p.prevblock)
    && (forall i :: 0 <= i < |env.sessions| && env.sessions[i] > 0 ==> Started(env, p))
    && (forall d :: d in env.toClient && d.DataPkt? ==> Started(env, p))
    && (forall o :: o in env.toClient && o.OackPkt? ==>
          env.transfer.Answered? && env.transfer.opts != [] && o.text == Encode(env.transfer.opts))
    && OtherPkt !in env.toClient
    && NotAhead(env, p)
  }

  /** The data accepted so far is the file up to the last accepted block. */
  ghost predicate Progress(env: Env, p: Proto) {
    && (p.prevblock > 0 ==> Started(env, p))
    && |p.received| <= |env.file| && p.received == env.file[..|p.received|]
    && (!p.eof ==> |p.received| == p.prevblock * p.packetsize)
    && (p.eof ==> && p.prevblock > 0 && p.received == env.file
                  && p.prevblock == BlockCount(|env.file|, p.packetsize))
  }

  /** The blocks acknowledged: never one back, never more than one on, and up to the one accepted last. */
  ghost predicate AcksInOrder(acks: seq<nat>, prevblock: nat) {
    && (if acks == [] then prevblock == 0 else acks[0] <= 1 && acks[|acks| - 1] == prevblock)
    && forall i :: 0 <= i < |acks| - 1 ==> acks[i] <= acks[i + 1] <= acks[i] + 1
  }

  lemma AckAgain(acks: seq<nat>, prevblock: nat, n: nat)
    requires AcksInOrder(acks, prevblock) && prevblock <= n <= prevblock + 1
    ensures AcksInOrder(acks + [n], n)
  {
  }

  /** Every block accepted has been acknowledged. */
  lemma {:induction false} AllAcknowledged(acks: seq<nat>, prevblock: nat, n: nat)
    requires AcksInOrder(acks, prevblock) && 1 <= n <= prevblock
    ensures n in acks
    decreases |acks|
  {
    if acks[|acks| - 1] != n {
      var front := acks[..|acks| - 1];
      assert front != [];
      AllAcknowledged(front, front[|front| - 1], n);
    }
  }

  ghost predicate Counters(p: Proto) {
    && AcksInOrder(p.acks, p.prevblock)
    && (p.tp.Ack? ==> p.tp.block == p.prevblock)
    && p.prevblock <= LAST
    && p.block == p.prevblock == p.bcounter
    && (p.tp.Rrq? ==> p.prevblock == 0 && p.packetsize == TFTP_DEFAULTSIZE_PACKET)
    && p.packetsize <= TFTP_MAX_PACKET
    && p.resends <= MAX_TFTP_RETRIES
    && (p.prevblock == 0 ==> p.resends == Min(p.retry, MAX_TFTP_RETRIES))
  }

  ghost predicate Coherent(env: Env, p: Proto) {
    |env.file| <= INT_MAX && Counters(p) && Channel(env, p) && Progress(env, p)
  }

  // ---------------------------------------------------------------- the world's moves keep it

  /** A session that answers with an OACK: nothing flows yet. */
  lemma OpenOackKeeps(env: Env, p: Proto, opts: seq<Opt>)
    requires Coherent(env, p) && MayAnswer(env, opts) && opts != []
    ensures Coherent(OpenSession(env, opts), p)
  {
    HonestBlkSize(|env.file|, opts);
    var e := OpenSession(env, opts);
    hide Block;
    hide LastBlkSize;
    hide Encode;
    hide Progress;
    assert forall d :: d in e.toClient ==> d in env.toClient || d == OackPkt(Encode(opts));
    assert forall i :: 0 <= i < |e.sessions| ==>
      e.sessions[i] == if i < |env.sessions| then env.sessions[i] else 0;
    ProgressFrame(env, e, p);
  }

  /** A session that starts with the first block: the default block size is in force. */
  lemma OpenDataKeeps(env: Env, p: Proto)
    requires Coherent(env, p) && MayAnswer(env, [])
    ensures Coherent(OpenSession(env, []), p)
  {
    var e := OpenSession(env, []);
    assert Started(e, p);
    var first := DataFor(e, 1);
    assert first.number == 1 && first.payload == Block(env.file, TFTP_DEFAULTSIZE_PACKET, 1);
    hide Block;
    hide Progress;
    assert forall d :: d in e.toClient ==> d in env.toClient || d == first;
    assert forall i :: 0 <= i < |e.sessions| ==>
      e.sessions[i] == if i < |env.sessions| then env.sessions[i] else 1;
    assert NotAhead(e, p);
    ProgressFrame(env, e, p);
  }

  lemma OpenKeeps(env: Env, p: Proto, opts: seq<Opt>)
    requires Coherent(env, p) && MayAnswer(env, opts)
    ensures Coherent(OpenSession(env, opts), p)
  {
    if opts == [] {
      OpenDataKeeps(env, p);
    } else {
      OpenOackKeeps(env, p, opts);
    }
  }

  lemma HearKeeps(env: Env, p: Proto, i: nat)
    requires Coherent(env, p) && MayHear(env, i)
    ensures Coherent(NextBlock(env, i), p)
  {
    hide Block;
    hide LastBlkSize;
    hide Progress;
    hide Encode;
    var n := env.sessions[i] + 1;
    var e := NextBlock(env, i);
    var d := DataFor(env, n);
    var a := Ack(env.sessions[i] % WIRE);
    assert a in env.toServer && a.block <= p.prevblock;
    assert Started(env, p) && Started(e, p);
    assert forall x :: x in e.toClient ==> x in env.toClient || x == d;
    assert forall j :: 0 <= j < |e.sessions| ==> e.sessions[j] == if j == i then n else env.sessions[j];
    assert NotAhead(e, p) by {
      if p.prevblock < LAST {
        assert n <= p.prevblock + 1 && d.number == n;
      }
    }
    ProgressFrame(env, e, p);
  }

  lemma ResendKeeps(env: Env, p: Proto, i: nat)
    requires Coherent(env, p) && MayResend(env, i)
    ensures Coherent(Resent(env, i), p)
  {
    hide Block;
    hide LastBlkSize;
    hide Progress;
    hide Encode;
    var e, d := Resent(env, i), LastPacket(env, i);
    assert forall x :: x in e.toClient ==> x in env.toClient || x == d;
    assert env.sessions[i] > 0 ==> Started(env, p);
    assert Started(env, p) ==> Started(e, p);
    assert NotAhead(e, p) by {
      if p.prevblock < LAST && env.sessions[i] > 0 {
        assert env.sessions[i] <= p.prevblock + 1 && d.number == env.sessions[i];
      }
    }
    ProgressFrame(env, e, p);
  }

  /** Losing packets takes nothing away that the invariant needs. */
  lemma LossKeeps(env: Env, p: Proto, e: Env)
    requires Coherent(env, p) && e.file == env.file && e.transfer == env.transfer && e.sessions == env.sessions
    requires e.toServer <= env.toServer && e.toClient <= env.toClient
    ensures Coherent(e, p)
  {
    hide Block;
    hide LastBlkSize;
    hide Progress;
    hide Encode;
    assert Started(env, p) == Started(e, p);
    ProgressFrame(env, e, p);
  }

  lemma ProgressFrame(env: Env, e: Env, p: Proto)
    requires Progress(env, p) && e.file == env.file && (Started(env, p) ==> Started(e, p))
    ensures Progress(e, p)
  {
  }

  lemma FailKeeps(env: Env, p: Proto)
    requires Coherent(env, p)
    ensures Coherent(env.(toClient := env.toClient + {ErrorPkt}), p)
  {
    var e := env.(toClient := env.toClient + {ErrorPkt});
    assert forall d :: d in e.toClient ==> d in env.toClient || d == ErrorPkt;
  }

  lemma {:induction false} LastDefault(opts: seq<Opt>, a: int, b: int)
    ensures LastBlkSize(opts, a) == LastBlkSize(opts, b)
         || (LastBlkSize(opts, a) == a && LastBlkSize(opts, b) == b)
  {
    if opts != [] {
      LastDefault(opts[..|opts| - 1], a, b);
    }
  }

  lemma {:induction false} AwaitKeeps(env: Env, p: Proto)
    requires Coherent(env, p)
    ensures Coherent(Await(env).1, p)
    ensures Await(env).1.file == env.file
    ensures Await(env).0.Packet? ==> Await(env).0.pkt in Await(env).1.toClient
    ensures |Await(env).1.sched| <= |env.sched|
    ensures !Await(env).0.Expired? ==> |Await(env).1.sched| < |env.sched|
    decreases |env.sched|
  {
    hide Coherent;
    hide Moved;
    if env.sched != [] {
      var e, c := env.(sched := env.sched[1..]), env.sched[0];
      SchedIrrelevant(env, e.sched, p);
      if !EndsWait(e, c) {
        MovedKeeps(e, p, c);
        AwaitKeeps(Moved(e, c), p);
      }
    }
  }

  lemma MovedKeeps(env: Env, p: Proto, c: Choice)
    requires Coherent(env, p)
    ensures Coherent(Moved(env, c), p)
  {
    hide Coherent;
    hide Block;
    if c.Answer? && MayAnswer(env, c.opts) {
      OpenKeeps(env, p, c.opts);
    } else if c.Hear? && MayHear(env, c.session) {
      HearKeeps(env, p, c.session);
    } else if c.Fail? {
      FailKeeps(env, p);
    } else if c.Resend? && MayResend(env, c.session) {
      ResendKeeps(env, p, c.session);
    } else if c.Lose? || c.Drop? {
      LossKeeps(env, p, Moved(env, c));
    }
  }

  lemma SchedIrrelevant(env: Env, sched: seq<Choice>, p: Proto)
    requires Coherent(env, p)
    ensures Coherent(env.(sched := sched), p)
  {
    var e := env.(sched := sched);
    assert Started(env, p) == Started(e, p);
  }

  // ---------------------------------------------------------------- the client's moves keep it

  /** What an honest OACK does to the client. */
  lemma OackReading(env: Env, p: Proto, text: string, junk: string)
    requires Coherent(env, p) && p.prevblock == 0 && OackPkt(text) in env.toClient
    ensures var r := ReadOack(text + junk, |text|, p.packetsize, p.filemax);
            && r.filemax in {p.filemax, |env.file|}
            && r.packetsize <= TFTP_MAX_PACKET
            && (r.ok <==> AllLarge(env.transfer.opts) && |text| <= TFTP_MAX_PACKET)
            && (r.ok ==> r.packetsize == BlkSizeOf(env.transfer.opts) >= TFTP_DEFAULTSIZE_PACKET)
            && (r.ok ==> r.filemax == LastTSize(env.transfer.opts, p.filemax))
            && (LastBlkSize(env.transfer.opts, -1) == -1 ==> r.packetsize == p.packetsize)
  {
    var opts := env.transfer.opts;
    assert OackPkt(text).text == Encode(opts);
    if |text| <= TFTP_MAX_PACKET {
      HonestValues(|env.file|, opts);
      ReadOackEncoded(opts, junk, p.packetsize, p.filemax);
      ApplyIsLastValues(opts, p.packetsize, p.filemax);
      ApplyFilemax(opts, p.packetsize, p.filemax, |env.file|);
      ApplyPacketsize(opts, p.packetsize, p.filemax);
      LastDefault(opts, p.packetsize, TFTP_DEFAULTSIZE_PACKET);
      LastDefault(opts, -1, TFTP_DEFAULTSIZE_PACKET);
      LastDefault(opts, -1, p.packetsize);
      if AllLarge(opts) {
        LargeLast(opts);
      }
      if LastBlkSize(opts, -1) == -1 {
        HonestNoBlk(|env.file|, opts);
        ApplyNoBlk(opts, p.packetsize, p.filemax);
      }
    }
  }

  lemma {:induction false} ApplyPacketsize(opts: seq<Opt>, packetsize: int, filemax: int)
    requires packetsize <= TFTP_MAX_PACKET
    requires forall i :: 0 <= i < |opts| && opts[i].BlkSize? ==> opts[i].value <= TFTP_MAX_PACKET
    ensures Apply(opts, packetsize, filemax).packetsize <= TFTP_MAX_PACKET
    decreases |opts|
  {
    if opts != [] {
      var o := opts[0];
      ApplyPacketsize(opts[1..], if o.BlkSize? then o.value else packetsize,
                      if o.TSize? then o.value else filemax);
    }
  }

  lemma HonestValues(size: nat, opts: seq<Opt>)
    requires size <= INT_MAX && HonestOpts(size, opts)
    ensures forall i :: 0 <= i < |opts| ==> opts[i].value <= INT_MAX
  {
  }

  lemma {:induction false} LargeLast(opts: seq<Opt>)
    requires AllLarge(opts)
    ensures BlkSizeOf(opts) >= TFTP_DEFAULTSIZE_PACKET
  {
    if opts != [] {
      LargeLast(opts[..|opts| - 1]);
    }
  }

  lemma {:induction false} HonestNoBlk(size: nat, opts: seq<Opt>)
    requires HonestOpts(size, opts) && LastBlkSize(opts, -1) == -1
    ensures forall i :: 0 <= i < |opts| ==> opts[i].TSize?
  {
    if opts != [] {
      HonestNoBlk(size, opts[..|opts| - 1]);
    }
  }

  lemma {:induction false} ApplyNoBlk(opts: seq<Opt>, packetsize: int, filemax: int)
    requires forall i :: 0 <= i < |opts| ==> opts[i].TSize?
    ensures Apply(opts, packetsize, filemax).packetsize == packetsize
    decreases |opts|
  {
    if opts != [] {
      ApplyNoBlk(opts[1..], packetsize, opts[0].value);
    }
  }

  /** Changing the block size is harmless as long as nothing depends on it. */
  lemma OackKeeps(env: Env, p: Proto, text: string, junk: string)
    requires Coherent(env, p) && p.prevblock == 0 && OackPkt(text) in env.toClient && !p.eof
    ensures var r := ReadOack(text + junk, |text|, p.packetsize, p.filemax);
            var q := p.(packetsize := r.packetsize, filemax := r.filemax);
            && Channel(env, q) && Progress(env, q)
            && (r.ok ==> Started(env, q))
  {
    OackReading(env, p, text, junk);
    var r := ReadOack(text + junk, |text|, p.packetsize, p.filemax);
    var q := p.(packetsize := r.packetsize, filemax := r.filemax);
    assert OackPkt(text).text == Encode(env.transfer.opts);
    assert Started(env, p) ==> r.ok;
    assert Started(env, p) ==> Started(env, q);
    assert p.received == [];
  }

  /** An acknowledgement of the last accepted block adds nothing new. */
  lemma AckKeeps(env: Env, p: Proto, q: Proto)
    requires |env.file| <= INT_MAX && Channel(env, p) && Progress(env, p) && Started(env, p) && Counters(q)
    requires q == p.(tp := Ack(p.prevblock), block := p.prevblock, acks := p.acks + [p.prevblock])
    ensures Coherent(Sent(env, {Ack(p.prevblock)}), q)
  {
    hide Block;
    hide LastBlkSize;
    hide AcksInOrder;
    var e := Sent(env, {Ack(p.prevblock)});
    assert forall a :: a in e.toServer ==> a in env.toServer || a == Ack(p.prevblock);
    assert Started(e, q);
  }

  /** The next block extends the received data by exactly that part of the file, and is short exactly
      when it is the last. */
  lemma BlockExtends(file: seq<Byte>, ps: nat, n: nat, received: seq<Byte>)
    requires ps > 0 && n < BlockCount(|file|, ps)
    requires |received| == n * ps <= |file| && received == file[..n * ps]
    ensures var r := received + Block(file, ps, n + 1);
            && |r| <= |file| && r == file[..|r|]
            && (|Block(file, ps, n + 1)| < ps <==> n + 1 == BlockCount(|file|, ps))
            && (n + 1 == BlockCount(|file|, ps) ==> r == file)
            && (n + 1 < BlockCount(|file|, ps) ==> |r| == (n + 1) * ps)
  {
    var q := |file| / ps;
    assert (n + 1) * ps == n * ps + ps;
    if n < q {
      MulMono(n + 1, q, ps);
    }
  }

  lemma MulMono(a: nat, b: nat, m: nat)
    requires a <= b
    ensures a * m <= b * m
  {
  }

  /** The next block in order is accepted. */
  lemma AcceptKeeps(env: Env, p: Proto, payload: seq<Byte>)
    requires Coherent(env, p) && !p.eof && p.prevblock < LAST
    requires DataPkt(p.prevblock + 1, payload) in env.toClient
    ensures var h := Acknowledge(p, p.prevblock + 1, payload, false);
            && h.sent == {Ack(p.prevblock + 1)} && h.flow.Next?
            && h.p.prevblock == p.prevblock + 1
            && h.p.received == p.received + payload
            && Coherent(Sent(env, h.sent), h.p)
  {
    hide AcksInOrder;
    var n := p.prevblock + 1;
    AckAgain(p.acks, p.prevblock, n);
    var h := Acknowledge(p, n, payload, false);
    assert (n - p.prevblock) % WIRE == 1;
    var d := DataPkt(n, payload);
    assert d in env.toClient && Started(env, p);
    var ps := p.packetsize;
    assert d.number == n && d.payload == Block(env.file, ps, n);
    BlockExtends(env.file, ps, p.prevblock, p.received);
    hide Block;
    hide LastBlkSize;
    var e := Sent(env, h.sent);
    assert forall a :: a in e.toServer ==> a in env.toServer || a == Ack(n);
    assert Started(e, h.p);
    assert Progress(e, h.p);
    assert NotAhead(e, h.p);
  }

  /** What one handled packet may do. */
  ghost predicate GoodStep(env: Env, p: Proto, h: Handled) {
    && Coherent(Sent(env, h.sent), h.p)
    && !h.flow.Stop?
    && h.p.filemax in {p.filemax, |env.file|}
    && (p.prevblock > 0 ==> h.p.filemax == p.filemax)
    && h.p.resends == p.resends
    && (forall a :: a in h.sent && a.Ack? ==> a.block == h.p.prevblock)
    && if h.p.prevblock == p.prevblock then h.p.received == p.received
       else && h.p.prevblock == p.prevblock + 1 && p.packetsize > 0
            && h.p.received == p.received + Block(env.file, p.packetsize, p.prevblock + 1)
  }

  lemma OackStep(env: Env, p: Proto, text: string, junk: string)
    requires Coherent(env, p) && !p.eof && OackPkt(text) in env.toClient
    ensures GoodStep(env, p, Handle(p, OackPkt(text), junk, false))
  {
    hide AcksInOrder;
    var h := Handle(p, OackPkt(text), junk, false);
    assert Sent(env, {}) == env;
    if p.prevblock == 0 {
      AckAgain(p.acks, 0, 0);
      OackKeeps(env, p, text, junk);
      OackReading(env, p, text, junk);
      var r := ReadOack(text + junk, |text|, p.packetsize, p.filemax);
      var q := p.(packetsize := r.packetsize, filemax := r.filemax);
      hide ReadOack;
      if r.ok {
        AckKeeps(env, q, h.p);
      } else {
        RefusalKeeps(env, q, h.p);
      }
    }
  }

  lemma DataStep(env: Env, p: Proto, n: Word, payload: seq<Byte>, junk: string)
    requires Coherent(env, p) && !p.eof && DataPkt(n, payload) in env.toClient
    ensures GoodStep(env, p, Handle(p, DataPkt(n, payload), junk, false))
  {
    hide Block;
    hide LastBlkSize;
    hide Encode;
    hide AcksInOrder;
    AckAgain(p.acks, p.prevblock, p.prevblock);
    var pkt := DataPkt(n, payload);
    var h := Handle(p, pkt, junk, false);
    assert Sent(env, {}) == env;
    if |payload| <= p.packetsize {
      assert pkt.number == n && pkt.payload == payload && Started(env, p);
      if n == p.prevblock + 1 {
        AcceptKeeps(env, p, payload);
      } else {
        AckKeeps(env, p, h.p);
      }
    }
  }

  /** Any packet of an honest server, at any time: at most the next block is accepted, every
      acknowledgement names the last accepted block, and the invariant is kept. */
  lemma HandleKeeps(env: Env, p: Proto, pkt: ServerPkt, junk: string)
    requires Coherent(env, p) && !p.eof && pkt in env.toClient
    ensures GoodStep(env, p, Handle(p, pkt, junk, false))
  {
    match pkt {
      case ErrorPkt => assert Sent(env, {}) == env;
      case OtherPkt => assert false;
      case OackPkt(text) => OackStep(env, p, text, junk);
      case DataPkt(n, payload) => DataStep(env, p, n, payload, junk);
    }
  }

  /** The client acknowledges the packet: a data packet no longer than a block, or the answer it waits for. */
  ghost predicate Heard(p: Proto, pkt: ServerPkt, junk: string) {
    if pkt.DataPkt? then |pkt.payload| <= p.packetsize
    else pkt.OackPkt? && p.prevblock == 0 && ReadOack(pkt.text + junk, |pkt.text|, p.packetsize, p.filemax).ok
  }

  /** Every packet heard, expected, repeated or old, is answered by exactly one acknowledgement, of the block accepted
      last; nothing else is acknowledged. */
  lemma HandleAnswers(env: Env, p: Proto, pkt: ServerPkt, junk: string)
    requires Coherent(env, p) && !p.eof && pkt in env.toClient
    ensures var h := Handle(p, pkt, junk, false);
            if Heard(p, pkt, junk) then h.sent == {Ack(h.p.prevblock)} && h.p.acks == p.acks + [h.p.prevblock]
            else h.p.acks == p.acks && forall a :: a in h.sent ==> !a.Ack?
  {
    hide ReadOack;
    BlockIsLast(env, p);
    if pkt.DataPkt? {
      NumberNear(env, p, pkt);
    }
  }

  /** A data packet is at most one block ahead. */
  lemma NumberNear(env: Env, p: Proto, pkt: ServerPkt)
    requires Coherent(env, p) && !p.eof && pkt in env.toClient && pkt.DataPkt?
    ensures p.bcounter == p.prevblock <= LAST
    ensures p.prevblock == 0 ==> pkt.number == 1
  {
    hide Block;
  }

  /** The acknowledgements one round sends: for a packet heard, or for the held one repeated. */
  ghost function RoundAcks(env: Env, p: Proto): seq<nat> {
    var (reply, e) := Await(env);
    if reply.Packet? && Heard(p, reply.pkt, reply.junk) then [Iterate(env, p, false).p.prevblock]
    else if reply.Expired? && p.block == 0 && p.retry < MAX_TFTP_RETRIES && p.tp.Ack? then [0]
    else []
  }

  ghost function RunAcks(env: Env, p: Proto, k: nat): seq<nat>
    decreases k
  {
    if k == 0 || p.eof then []
    else
      var w := Iterate(env, p, false);
      RoundAcks(env, p) + if w.flow.Next? then RunAcks(w.env, w.p, k - 1) else []
  }

  lemma RefusalKeeps(env: Env, p: Proto, q: Proto)
    requires |env.file| <= INT_MAX && Channel(env, p) && Progress(env, p)
    requires Counters(p.(tp := Refusal)) && q == p.(tp := Refusal)
    ensures Coherent(Sent(env, {Refusal}), q)
  {
    hide Block;
    hide LastBlkSize;
    var e := Sent(env, {Refusal});
    assert forall a :: a in e.toServer ==> a in env.toServer || a == Refusal;
    assert Started(env, p) ==> Started(e, q);
  }

  /** A timeout repeats the packet the client holds at most MAX_TFTP_RETRIES times, and never once a block has been
      accepted; if that packet is not the request, nobody can answer it. */
  lemma TimeoutKeeps(env: Env, p: Proto)
    requires Coherent(env, p) && !p.eof
    ensures var w := OnTimeout(env, p);
            && Coherent(w.env, w.p) && !w.flow.Stop? && w.env.file == env.file
            && w.p.filemax == p.filemax && w.p.received == p.received && w.p.prevblock == p.prevblock
            && (p.prevblock > 0 ==> w.flow.Quit? && w.p.resends == p.resends)
            && |w.env.sched| <= |env.sched|
            && (w.flow.Next? ==> p.retry < 20 && w.p.retry == p.retry + 1)
            && (w.flow.Next? ==>
                  w.env.transfer.Unanswered? && w.p.tp == p.tp && (Rrq in w.env.toServer <==> p.tp.Rrq?))
  {
    hide AcksInOrder;
    AckAgain(p.acks, p.prevblock, p.prevblock);
  }

  /** One round of the loop keeps the invariant, whatever the world does. */
  lemma IterateKeeps(env: Env, p: Proto)
    requires Coherent(env, p) && !p.eof
    ensures var w := Iterate(env, p, false);
            && Coherent(w.env, w.p) && !w.flow.Stop? && w.env.file == env.file
            && w.p.filemax in {p.filemax, |env.file|}
            && (p.prevblock > 0 ==> w.p.filemax == p.filemax)
            && p.received <= w.p.received
            && p.prevblock <= w.p.prevblock <= p.prevblock + 1
            && (p.prevblock > 0 ==> w.p.resends == p.resends)
  {
    AwaitKeeps(env, p);
    var (reply, e) := Await(env);
    match reply {
      case Interrupted =>
      case Expired => TimeoutKeeps(e, p);
      case Packet(pkt, junk) =>
        HandleKeeps(e, p, pkt, junk);
        hide Coherent;
        hide Handle;
    }
  }

  /** Up to `k` rounds of the loop, stopping at the end of the file or when the loop is left. */
  ghost function Run(env: Env, p: Proto, k: nat): World
    decreases k
  {
    if k == 0 || p.eof then World(env, p, Next)
    else
      var w := Iterate(env, p, false);
      if w.flow.Next? then Run(w.env, w.p, k - 1) else w
  }

  lemma {:induction false} RunKeeps(env: Env, p: Proto, k: nat)
    requires Coherent(env, p)
    ensures var w := Run(env, p, k);
            && Coherent(w.env, w.p) && w.env.file == env.file
            && p.received <= w.p.received && p.prevblock <= w.p.prevblock
            && (p.prevblock > 0 ==> w.p.resends == p.resends)
    decreases k
  {
    if k > 0 && !p.eof {
      IterateKeeps(env, p);
      hide Coherent;
      hide Iterate;
      var w := Iterate(env, p, false);
      if w.flow.Next? {
        RunKeeps(w.env, w.p, k - 1);
      }
    }
  }

  lemma IterateAnswers(env: Env, p: Proto)
    requires Coherent(env, p) && !p.eof
    ensures Iterate(env, p, false).p.acks == p.acks + RoundAcks(env, p)
  {
    hide Heard;
    AwaitKeeps(env, p);
    var (reply, e) := Await(env);
    hide Await;
    if reply.Packet? {
      HandleAnswers(e, p, reply.pkt, reply.junk);
      hide Handle;
    }
  }

  /** Over any run, one acknowledgement goes out for every packet heard, of the block accepted last at that time. */
  lemma {:induction false} RunAnswers(env: Env, p: Proto, k: nat)
    requires Coherent(env, p)
    ensures Run(env, p, k).p.acks == p.acks + RunAcks(env, p, k)
    decreases k
  {
    hide Coherent;
    hide Iterate;
    hide RoundAcks;
    if k > 0 && !p.eof {
      IterateKeeps(env, p);
      IterateAnswers(env, p);
      var w := Iterate(env, p, false);
      if w.flow.Next? {
        RunAnswers(w.env, w.p, k - 1);
        Assoc(p.acks, RoundAcks(env, p), RunAcks(w.env, w.p, k - 1));
      }
    }
  }

  /** The world right after a request has been sent. */
  function FreshEnv(file: seq<Byte>, sched: seq<Choice>): Env {
    Env(file, Unanswered, [], {Rrq}, {}, sched)
  }

  lemma FreshCoherent(file: seq<Byte>, sched: seq<Choice>, filemax: int)
    requires |file| <= INT_MAX
    ensures Coherent(FreshEnv(file, sched), FreshProto(filemax))
  {
  }

  lemma RequestCoherent(env: Env, filemax: int)
    requires |env.file| <= INT_MAX
    ensures Coherent(Request(env, Rrq).1, FreshProto(filemax))
    ensures Request(env, Rrq).1.file == env.file
  {
  }

  /** Safety of the whole transfer, for every behaviour of servers, channel and user: the data
      accepted is always a prefix of the file, block numbers never alias, the end of file is reported
      only with the whole file received, and a packet is repeated at most MAX_TFTP_RETRIES times. */
  lemma TransferIsSafe(file: seq<Byte>, sched: seq<Choice>, filemax: int, k: nat)
    requires |file| <= INT_MAX
    ensures var p := Run(FreshEnv(file, sched), FreshProto(filemax), k).p;
            && p.received <= file
            && p.prevblock == p.bcounter <= 65535
            && (p.eof ==> p.received == file)
            && (!p.eof ==> |p.received| == p.prevblock * p.packetsize)
            && p.resends <= 20
            && AcksInOrder(p.acks, p.prevblock)
            && (forall n: nat :: 1 <= n <= p.prevblock ==> n in p.acks)
  {
    FreshCoherent(file, sched, filemax);
    RunKeeps(FreshEnv(file, sched), FreshProto(filemax), k);
    hide Run;
    var p := Run(FreshEnv(file, sched), FreshProto(filemax), k).p;
    forall n: nat | 1 <= n <= p.prevblock
      ensures n in p.acks
    {
      AllAcknowledged(p.acks, p.prevblock, n);
    }
  }

  // ---------------------------------------------------------------- why a transfer fails

  /** Options the client does not refuse. */
  predicate Suits(opts: seq<Opt>) {
    AllLarge(opts) && |Encode(opts)| <= TFTP_MAX_PACKET
  }

  /** Silence, the user and a failing send are what the client can be stopped by from outside. */
  predicate Trouble(c: Choice) {
    c.Expire? || c.Interrupt? || c.SendFails?
  }

  predicate Calm(c: Choice) {
    !Trouble(c) && !c.Fail? && (c.Answer? ==> Suits(c.opts))
  }

  /** A world without trouble, failing servers and unsuitable options. Packets may still be duplicated and
      reordered, and requests answered more than once. */
  ghost predicate Friendly(env: Env) {
    && (forall i :: 0 <= i < |env.sched| ==> Calm(env.sched[i]))
    && ErrorPkt !in env.toClient
    && (env.transfer.Answered? ==> Suits(env.transfer.opts))
  }

  ghost predicate Suffix(before: seq<Choice>, after: seq<Choice>) {
    |after| <= |before| && before[|before| - |after|..] == after
  }

  /** The world at a later time. */
  ghost predicate Later(a: Env, b: Env) {
    Suffix(a.sched, b.sched) && (Friendly(a) ==> Friendly(b))
  }

  /** Between `before` and `after` there was trouble. */
  ghost predicate Troubled(before: seq<Choice>, after: seq<Choice>) {
    && Suffix(before, after)
    && exists i :: 0 <= i < |before| - |after| && Trouble(before[i])
  }

  /** At `b` the client may have given up: there was trouble since `a`, the world has fallen silent for good, a
      server has reported an error, or the server's options do not suit the client. */
  ghost predicate Excused(a: Env, b: Env) {
    || b.sched == [] || ErrorPkt in b.toClient || (b.transfer.Answered? && !Suits(b.transfer.opts))
    || Troubled(a.sched, b.sched)
  }

  lemma TroubledLater(before: seq<Choice>, mid: seq<Choice>, after: seq<Choice>)
    requires Suffix(before, mid) && Suffix(mid, after)
    ensures Suffix(before, after)
    ensures Troubled(before, mid) || Troubled(mid, after) ==> Troubled(before, after)
  {
    var n, m := |before| - |mid|, |mid| - |after|;
    assert before[n..][m..] == before[n + m..];
    if Troubled(mid, after) {
      var i :| 0 <= i < m && Trouble(mid[i]);
      assert before[n + i] == mid[i];
    }
  }

  lemma StillLater(a: Env, b: Env, c: Env)
    requires Later(a, b) && Later(b, c)
    ensures Later(a, c) && (Excused(b, c) ==> Excused(a, c))
    ensures Troubled(a.sched, b.sched) || Troubled(b.sched, c.sched) ==> Troubled(a.sched, c.sched)
  {
    hide Suffix;
    hide Troubled;
    hide Friendly;
    TroubledLater(a.sched, b.sched, c.sched);
  }

  /** In a friendly world the only excuse is silence. */
  lemma FriendlyExcuse(a: Env, b: Env)
    requires Friendly(a) && Later(a, b) && Excused(a, b)
    ensures b.sched == []
  {
    assert forall i :: 0 <= i < |a.sched| ==> Calm(a.sched[i]);
  }

  lemma HeadTrouble(sched: seq<Choice>)
    requires sched != []
    ensures Suffix(sched, sched[1..]) && (Trouble(sched[0]) ==> Troubled(sched, sched[1..]))
  {
  }

  /** What the channel and the servers do while the client waits: it is left waiting only by trouble or for good. */
  ghost predicate Awaited(a: Env, reply: Reply, b: Env) {
    && Later(a, b)
    && (reply.Interrupted? ==> Troubled(a.sched, b.sched))
    && (reply.Expired? ==> b.sched == [] || Troubled(a.sched, b.sched))
    && (reply.Packet? ==> reply.pkt in b.toClient)
  }

  lemma {:induction false} AwaitTrouble(env: Env)
    ensures Awaited(env, Await(env).0, Await(env).1)
    decreases |env.sched|, 0
  {
    hide Awaited;
    hide Friendly;
    hide Moved;
    if env.sched == [] {
      AwaitedNow(env, Expired, env);
    } else {
      var e, c := env.(sched := env.sched[1..]), env.sched[0];
      if EndsWait(e, c) {
        AwaitedNow(env, Await(env).0, e);
      } else {
        MovedFriendly(env);
        AwaitLater(env, Moved(e, c));
      }
    }
  }

  /** A wait that ends with the first choice. */
  lemma AwaitedNow(env: Env, reply: Reply, e: Env)
    requires env.sched == [] ==> reply.Expired? && e == env
    requires env.sched != [] ==> e == env.(sched := env.sched[1..])
    requires env.sched != [] && !reply.Packet? ==> Trouble(env.sched[0])
    requires reply.Packet? ==> reply.pkt in e.toClient
    ensures Awaited(env, reply, e)
  {
    if env.sched != [] {
      HeadTrouble(env.sched);
    }
  }

  lemma MovedFriendly(env: Env)
    requires env.sched != []
    ensures Friendly(env) ==> Friendly(Moved(env.(sched := env.sched[1..]), env.sched[0]))
  {
    hide Block;
    hide Suits;
    hide BlockCount;
    if Friendly(env) {
      assert Calm(env.sched[0]);
    }
  }

  /** What AwaitTrouble says of the next world holds of this one. */
  lemma {:induction false} AwaitLater(env: Env, next: Env)
    requires env.sched != [] && next.sched == env.sched[1..] && (Friendly(env) ==> Friendly(next))
    ensures Awaited(env, Await(next).0, Await(next).1)
    decreases |next.sched|, 1
  {
    hide Troubled;
    hide Await;
    hide Friendly;
    AwaitTrouble(next);
    HeadTrouble(env.sched);
    StillLater(env, next, Await(next).1);
  }

  /** A round that fails has an excuse. */
  lemma IterateExcuse(env: Env, p: Proto, abort: bool)
    requires Coherent(env, p)
    ensures var w := Iterate(env, p, abort);
            Later(env, w.env) && (w.flow.Quit? ==> Excused(env, w.env))
  {
    hide Coherent;
    hide Suffix;
    hide Troubled;
    hide Suits;
    AwaitTrouble(env);
    AwaitKeeps(env, p);
    hide Await;
    hide ReadOack;
    var (reply, e) := Await(env);
    if reply.Expired? && p.block == 0 && p.retry < MAX_TFTP_RETRIES {
      RequestTrouble(e, p.tp);
      StillLater(env, e, Request(e, p.tp).1);
    } else if reply.Packet? {
      SentLater(env, e, Handle(p, reply.pkt, reply.junk, abort).sent);
      if reply.pkt.OackPkt? && p.prevblock == 0 {
        OackExcuse(e, p, reply.pkt.text, reply.junk);
      }
    }
  }

  /** A round fails exactly when the user interrupts, a server reports an error, the answer does not suit the client,
      or time runs out with nothing left to repeat. */
  lemma IterateFailsIff(env: Env, p: Proto)
    requires Coherent(env, p)
    ensures var (reply, e) := Await(env);
            Iterate(env, p, false).flow.Quit? <==>
              || reply.Interrupted?
              || (reply.Packet? && reply.pkt.ErrorPkt?)
              || (reply.Packet? && reply.pkt.OackPkt? && p.prevblock == 0
                  && e.transfer.Answered? && !Suits(e.transfer.opts))
              || (reply.Expired?
                  && (p.prevblock > 0 || p.retry >= 20 || (e.sched != [] && e.sched[0].SendFails?)))
  {
    hide Suits;
    hide ReadOack;
    AwaitKeeps(env, p);
    AwaitTrouble(env);
    hide Await;
    var (reply, e) := Await(env);
    BlockIsLast(e, p);
    hide Coherent;
    if reply.Packet? && reply.pkt.OackPkt? && p.prevblock == 0 {
      OackExcuse(e, p, reply.pkt.text, reply.junk);
    }
  }

  lemma BlockIsLast(env: Env, p: Proto)
    requires Coherent(env, p)
    ensures p.block == p.prevblock
  {
  }

  lemma SentLater(a: Env, b: Env, pkts: set<ClientPkt>)
    requires Later(a, b)
    ensures Later(a, Sent(b, pkts)) && (Excused(a, b) <==> Excused(a, Sent(b, pkts)))
  {
  }

  lemma OackExcuse(env: Env, p: Proto, text: string, junk: string)
    requires Coherent(env, p) && p.prevblock == 0 && OackPkt(text) in env.toClient
    ensures env.transfer.Answered?
    ensures ReadOack(text + junk, |text|, p.packetsize, p.filemax).ok <==> Suits(env.transfer.opts)
  {
    OackReading(env, p, text, junk);
  }

  /** The next checked send fails. */
  predicate CannotSend(env: Env) {
    env.sched != [] && env.sched[0].SendFails?
  }

  lemma RequestSends(env: Env, tp: ClientPkt)
    ensures Request(env, tp).0 <==> !CannotSend(env)
  {
  }

  lemma RequestTrouble(env: Env, tp: ClientPkt)
    ensures var (ok, e) := Request(env, tp); Later(env, e) && (!ok ==> Troubled(env.sched, e.sched))
  {
    if env.sched != [] {
      HeadTrouble(env.sched);
    }
  }

  /** A run that fails has an excuse: as long as packets keep coming and the options suit it, the client goes on. */
  lemma {:induction false} RunExcuse(env: Env, p: Proto, k: nat)
    requires Coherent(env, p)
    ensures var w := Run(env, p, k);
            Later(env, w.env) && (w.flow.Quit? ==> Excused(env, w.env))
    decreases k
  {
    hide Coherent;
    hide Iterate;
    hide Excused;
    hide Friendly;
    if k > 0 && !p.eof {
      IterateExcuse(env, p, false);
      IterateKeeps(env, p);
      var w := Iterate(env, p, false);
      if w.flow.Next? {
        RunExcuse(w.env, w.p, k - 1);
        StillLater(env, w.env, Run(w.env, w.p, k - 1).env);
      }
    }
  }

  // ---------------------------------------------------------------- facts the client's loops use

  /** Every round that goes on uses up some of the schedule or one retry. */
  lemma IterateProgress(env: Env, p: Proto, abort: bool)
    requires Coherent(env, p) && Iterate(env, p, abort).flow.Next?
    ensures var w := Iterate(env, p, abort);
            && |w.env.sched| <= |env.sched|
            && (|w.env.sched| == |env.sched| ==> p.retry < w.p.retry <= MAX_TFTP_RETRIES)
  {
    AwaitKeeps(env, p);
  }

  /** A round of an aborting call that goes on is one that changes nothing it would not change
      otherwise. */
  lemma AbortedRound(env: Env, p: Proto)
    ensures var w := Iterate(env, p, true);
            && w.env.file == Await(env).1.file
            && w.p.received == p.received
            && (w.flow.Next? ==> w == Iterate(env, p, false) && w.p.eof == p.eof)
  {
  }

  /** An aborting call stops with the first packet it would have heard, and has told the server. */
  lemma AbortStops(env: Env, p: Proto)
    requires Coherent(env, p) && Iterate(env, p, true).flow.Stop?
    ensures var w := Iterate(env, p, true); w.p.eof && Refusal in w.env.toServer
  {
    hide ReadOack;
    AwaitKeeps(env, p);
    NoOthers(Await(env).1, p);
    hide Await;
  }

  /** Nor does it make up a file size. */
  lemma AbortFilemax(env: Env, p: Proto)
    requires Coherent(env, p)
    ensures Iterate(env, p, true).p.filemax in {p.filemax, |env.file|}
  {
    hide ReadOack;
    AwaitKeeps(env, p);
    var (reply, e) := Await(env);
    hide Await;
    if reply.Packet? && reply.pkt.OackPkt? && p.prevblock == 0 {
      OackReading(e, p, reply.pkt.text, reply.junk);
    }
  }

  lemma NoOthers(env: Env, p: Proto)
    requires Coherent(env, p)
    ensures OtherPkt !in env.toClient
  {
  }

  lemma {:induction false} RunSnoc(env: Env, p: Proto, k: nat)
    requires Run(env, p, k).flow.Next? && !Run(env, p, k).p.eof
    ensures var w := Run(env, p, k); Run(env, p, k + 1) == Iterate(w.env, w.p, false)
    decreases k
  {
    if k > 0 {
      var w := Iterate(env, p, false);
      hide Iterate;
      RunSnoc(w.env, w.p, k - 1);
    } else {
      var w := Iterate(env, p, false);
      hide Iterate;
      assert Run(w.env, w.p, 0) == World(w.env, w.p, Next);
    }
  }

  /** What the invariant says about the data alone. */
  lemma WholeFile(env: Env, p: Proto)
    requires Coherent(env, p)
    ensures |p.received| <= |env.file| <= INT_MAX && p.received == env.file[..|p.received|]
    ensures p.eof ==> p.received == env.file
    ensures p.eof || |p.received| > 0 ==> p.prevblock > 0
    ensures p.packetsize <= TFTP_MAX_PACKET
  {
  }
}
