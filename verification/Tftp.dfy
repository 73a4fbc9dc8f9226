/** The TFTP filesystem (netboot/fsys_tftp.c): a window of the file kept in a buffer, filled by the
    protocol and read at random positions. */
module Tftp {
  import opened Decimal
  import opened Oack
  import opened Seqs
  import opened TftpProtocol

  datatype Errnum = ErrNone | ErrRead | ErrWrite | ErrFileNotFound

  class TftpClient {
    const buf: array<Byte>
    var tp: ClientPkt
    var savedTp: ClientPkt
    var block: Word
    var prevblock: Word
    var bcounter: nat
    var packetsize: int
    var retry: nat
    var bufEof: bool
    var bufRead: int
    var savedFilepos: int
    var filepos: int
    var filemax: int
    var errnum: Errnum
    var env: Env
    ghost var received: seq<Byte>
    ghost var resends: nat
    ghost var acks: seq<nat>

    /** The buffer is of even length, so that half of it can be moved, and holds a packet. */
    ghost predicate EvenBuffer() {
      buf.Length % 2 == 0 && TFTP_MAX_PACKET <= buf.Length
    }

    function Half(): nat {
      buf.Length / 2
    }

    /** The protocol variables as a value. */
    ghost function P(): Proto
      reads `tp, `block, `prevblock, `bcounter, `packetsize, `bufEof, `retry, `filemax, `received, `resends,
            `acks
    {
      Proto(tp, block, prevblock, bcounter, packetsize, bufEof, retry, filemax, received, resends, acks)
    }

    /** The transfer is sound and the buffer ends with the latest data. */
    ghost predicate Receiving()
      reads `tp, `block, `prevblock, `bcounter, `packetsize, `bufEof, `retry, `filemax, `received, `resends,
            `acks, `env, `bufRead, buf
    {
      && EvenBuffer()
      && Coherent(env, P())
      && 0 <= bufRead <= buf.Length && bufRead <= |received|
      && buf[..bufRead] == received[|received| - bufRead..]
    }

    /** The buffer holds the file from savedFilepos on. */
    ghost predicate Window()
      reads `tp, `block, `prevblock, `bcounter, `packetsize, `bufEof, `retry, `filemax, `received, `resends,
            `acks, `env, `bufRead, `savedTp, `savedFilepos, buf
    {
      && Receiving()
      && savedTp.Rrq?
      && savedFilepos + bufRead == |received|
    }

    lemma WindowIsFile()
      requires Window()
      ensures 0 <= savedFilepos && 0 <= bufRead <= buf.Length && savedFilepos + bufRead <= |env.file|
      ensures buf[..bufRead] == env.file[savedFilepos..savedFilepos + bufRead]
    {
      assert received == env.file[..|received|];
      SliceOfSlice(env.file, 0, |received|, savedFilepos, |received|);
    }

    constructor (buflen: nat, file: seq<Byte>, sched: seq<Choice>)
      requires |file| <= INT_MAX
      ensures buf.Length == buflen && fresh(buf)
      ensures env.file == file && env.sched == sched && filepos == 0 && errnum == ErrNone
      ensures env.toClient == {} && env.transfer.Unanswered?
    {
      buf := new Byte[buflen];
      tp, savedTp := Rrq, Rrq;
      block, prevblock, bcounter, packetsize, retry := 0, 0, 0, TFTP_DEFAULTSIZE_PACKET, 0;
      bufEof, bufRead, savedFilepos, filepos, filemax := false, 0, 0, 0, -1;
      errnum := ErrNone;
      env := Env(file, Unanswered, [], {}, {}, sched);
      received, resends, acks := [], 0, [];
    }

    /** grub_memmove of a packet's payload to the end of the buffered data. */
    method Append(data: seq<Byte>)
      requires EvenBuffer() && 0 <= bufRead && bufRead + |data| <= buf.Length
      modifies buf, `bufRead
      ensures bufRead == old(bufRead) + |data|
      ensures buf[..bufRead] == old(buf[..bufRead]) + data
    {
      var at := bufRead;
      for i := 0 to |data|
        invariant bufRead == at && buf[..at] == old(buf[..bufRead])
        invariant buf[at..at + i] == data[..i]
      {
        buf[at + i] := data[i];
      }
      assert buf[..at + |data|] == buf[..at] + buf[at..at + |data|];
      bufRead := bufRead + |data|;
    }

    /** The next block in order: it becomes part of the received data. */
    method Accept(data: seq<Byte>)
      requires EvenBuffer() && 0 <= bufRead && bufRead + |data| <= buf.Length
      modifies `prevblock, `retry, `bcounter, `bufEof, `bufRead, `received, buf
      ensures P() == old(P()).(prevblock := block, retry := 0, bcounter := old(bcounter) + 1,
                     received := old(received) + data, eof := old(bufEof) || |data| < packetsize)
      ensures bufRead == old(bufRead) + |data|
      ensures buf[..bufRead] == old(buf[..bufRead]) + data
    {
      prevblock := block;
      retry := 0;
      bcounter := bcounter + 1;
      Append(data);
      received := received + data;
      if |data| < packetsize {
        bufEof := true;
      }
    }

    /** The second half of a round: the packet has been recognised as block `n`. */
    method AcknowledgeBlock(n: Word, data: seq<Byte>, abort: bool) returns (flow: Flow)
      requires EvenBuffer() && 0 <= bufRead && bufRead + |data| <= buf.Length
      modifies `block, `tp, `env, `prevblock, `retry, `bcounter, `bufEof, `bufRead, `received, `acks, buf
      ensures var h := Acknowledge(old(P()), n, data, abort);
              P() == h.p && flow == h.flow && env == Sent(old(env), h.sent)
      ensures (received == old(received) && bufRead == old(bufRead) && buf[..] == old(buf[..]))
           || (!abort && received == old(received) + data && bufRead == old(bufRead) + |data|
               && buf[..bufRead] == old(buf[..bufRead]) + data)
    {
      block := n;
      if (block != 0 || bcounter != 0) && block != prevblock + 1 {
        block := prevblock;
      }
      tp := if abort then Refusal else Ack(block);
      env := Sent(env, {tp});
      if abort {
        bufEof := true;
        return Stop;
      }
      acks := acks + [block];
      if (block - prevblock) % WIRE != 1 {
        return Next;
      }
      Accept(data);
      return Next;
    }

    /** Nothing arrived in time. */
    method Timeout() returns (flow: Flow)
      modifies `env, `retry, `resends, `acks
      ensures World(env, P(), flow) == OnTimeout(old(env), old(P()))
    {
      if block == 0 {
        retry := retry + 1;
        if retry - 1 < MAX_TFTP_RETRIES {
          var (sent, e) := Request(env, tp);
          env, resends := e, resends + 1;
          acks := if tp.Ack? then acks + [tp.block] else acks;
          return if sent then Next else Quit;
        }
      }
      return Quit;
    }

    /** One round of the loop of buf_fill. */
    method Round(abort: bool) returns (flow: Flow)
      requires EvenBuffer()
      requires 0 <= bufRead <= buf.Length && bufRead + packetsize <= buf.Length
      modifies `block, `tp, `env, `prevblock, `retry, `bcounter, `bufEof, `bufRead, `received, `acks,
               `packetsize, `filemax, `resends, buf
      ensures World(env, P(), flow) == Iterate(old(env), old(P()), abort)
      ensures (received == old(received) && bufRead == old(bufRead) && buf[..] == old(buf[..]))
           || (!abort && old(received) <= received
               && bufRead == old(bufRead) + |received| - |old(received)| <= buf.Length
               && buf[..bufRead] == old(buf[..bufRead]) + received[|old(received)|..])
    {
      hide Await;
      hide ReadOack;
      hide Acknowledge;
      hide OnTimeout;
      var (reply, e) := Await(env);
      env := e;
      if !reply.Packet? {
        if reply.Interrupted? {
          return Quit;
        }
        flow := Timeout();
        return;
      }
      var tr := reply.pkt;
      match tr {
        case ErrorPkt => return Quit;
        case OackPkt(text) =>
          if prevblock != 0 {
            return Next;
          }
          var ok;
          ok, packetsize, filemax := ScanOack(text + reply.junk, |text|, packetsize, filemax);
          if !ok {
            tp := Refusal;
            env := Sent(env, {tp});
            return Quit;
          }
          flow := AcknowledgeBlock(0, [], abort);
          assert buf[..bufRead] == old(buf[..bufRead]) + [] == old(buf[..bufRead]);
        case DataPkt(number, payload) =>
          if |payload| > packetsize {
            return Next;
          }
          flow := AcknowledgeBlock(number, payload, abort);
          assert (old(received) + payload)[|old(received)|..] == payload;
        case OtherPkt => return Stop;
      }
    }

    /** Data added both to what has been received and to the buffer keeps the buffer at its end. */
    lemma TailGrows(r: seq<Byte>, b: seq<Byte>, r': seq<Byte>, b': seq<Byte>)
      requires |b| <= |r| && b == r[|r| - |b|..]
      requires r <= r' && b' == b + r'[|r|..]
      ensures |b'| <= |r'| && b' == r'[|r'| - |b'|..]
    {
      assert r' == r + r'[|r|..];
    }

    /** What a round keeps. */
    method CheckedRound(abort: bool) returns (flow: Flow)
      requires Receiving() && !bufEof && bufRead + packetsize <= buf.Length
      modifies `block, `tp, `env, `prevblock, `retry, `bcounter, `bufEof, `bufRead, `received, `acks,
               `packetsize, `filemax, `resends, buf
      ensures World(env, P(), flow) == Iterate(old(env), old(P()), abort)
      ensures env.file == old(env.file)
      ensures flow.Next? || !abort ==> Receiving()
      ensures old(received) <= received && bufRead == old(bufRead) + |received| - |old(received)|
      ensures !abort ==> !flow.Stop?
      ensures filemax in {old(filemax), |env.file|}
      ensures !abort && old(prevblock) > 0 ==> filemax == old(filemax) && prevblock > 0
      ensures abort ==> received == old(received) && buf[..] == old(buf[..])
      ensures flow.Next? ==>
        && |env.sched| <= |old(env).sched|
        && (|env.sched| == |old(env).sched| ==> old(retry) < retry <= MAX_TFTP_RETRIES)
      ensures Later(old(env), env)
      ensures flow.Quit? ==> Excused(old(env), env)
      ensures abort && flow.Stop? ==> bufEof && Refusal in env.toServer
      ensures abort && flow.Next? ==> bufEof == old(bufEof)
    {
      hide Coherent;
      hide Iterate;
      hide Await;
      hide Excused;
      ghost var e1, p1, was := env, P(), buf[..bufRead];
      flow := Round(abort);
      AwaitKeeps(e1, p1);
      AbortedRound(e1, p1);
      IterateKeeps(e1, p1);
      IterateExcuse(e1, p1, abort);
      AbortFilemax(e1, p1);
      if abort && flow.Stop? {
        AbortStops(e1, p1);
      }
      if flow.Next? {
        IterateProgress(e1, p1, abort);
      }
      if received != p1.received {
        TailGrows(p1.received, was, received, buf[..bufRead]);
      }
    }

    lemma SmallPackets()
      requires Receiving()
      ensures packetsize <= TFTP_MAX_PACKET
    {
    }

    lemma Underway()
      requires Receiving()
      ensures Coherent(env, P()) && Run(env, P(), 0) == World(env, P(), Next) && Later(env, env)
    {
    }

    /** buf_fill: receives until the buffer cannot take another packet or the file ends. Without
        abort it is a run of the protocol, and on success the buffer is full or the whole file has
        been received. With abort it accepts nothing. */
    method BufFill(abort: bool) returns (ok: bool)
      requires Receiving()
      modifies `block, `tp, `env, `prevblock, `retry, `bcounter, `bufEof, `bufRead, `received, `acks,
               `packetsize, `filemax, `resends, buf
      ensures env.file == old(env.file)
      ensures !abort ==>
        && Receiving()
        && (old(prevblock) > 0 ==> filemax == old(filemax))
        && old(received) <= received && bufRead == old(bufRead) + |received| - |old(received)|
        && (exists k :: Run(old(env), old(P()), k) == World(env, P(), if ok then Next else Quit))
        && (ok ==> bufEof || bufRead + packetsize > buf.Length)
      ensures filemax in {old(filemax), |env.file|}
      ensures !ok ==> Excused(old(env), env)
      ensures abort && ok ==>
        || old(bufEof) || (bufEof && Refusal in env.toServer)
        || (bufRead + packetsize > buf.Length && packetsize <= TFTP_MAX_PACKET)
      ensures Later(old(env), env)
      ensures abort ==> received == old(received) && bufRead == old(bufRead) && buf[..] == old(buf[..])
    {
      hide Receiving;
      hide Coherent;
      hide Iterate;
      hide Run;
      hide Excused;
      hide Friendly;
      hide Suffix;
      ghost var k := 0;
      Underway();
      while !bufEof && bufRead + packetsize <= buf.Length
        invariant Receiving() && env.file == old(env.file) && Later(old(env), env)
        invariant old(received) <= received && bufRead == old(bufRead) + |received| - |old(received)|
        invariant filemax in {old(filemax), |env.file|}
        invariant !abort && old(prevblock) > 0 ==> filemax == old(filemax) && prevblock > 0
        invariant !abort ==> Run(old(env), old(P()), k) == World(env, P(), Next)
        invariant abort ==> received == old(received) && buf[..] == old(buf[..]) && bufEof == old(bufEof)
        decreases |env.sched|, if retry < MAX_TFTP_RETRIES then MAX_TFTP_RETRIES - retry else 0
      {
        if !abort {
          RunSnoc(old(env), old(P()), k);
        }
        ghost var mid := env;
        var flow := CheckedRound(abort);
        StillLater(old(env), mid, env);
        k := k + 1;
        if !abort {
          RunExcuse(old(env), old(P()), k);
        }
        if flow.Quit? {
          return false;
        }
        if flow.Stop? {
          return true;
        }
      }
      SmallPackets();
      ok := true;
    }

    /** The variables of a transfer that has just been asked for. */
    method Restart()
      requires tp.Rrq?
      modifies `block, `prevblock, `retry, `bcounter, `bufEof, `bufRead, `received, `acks, `packetsize, `resends,
               `savedFilepos
      ensures P() == FreshProto(filemax) && bufRead == 0 && savedFilepos == 0
    {
      retry := 0;
      block := 0;
      prevblock := 0;
      packetsize := TFTP_DEFAULTSIZE_PACKET;
      bcounter := 0;
      bufEof := false;
      bufRead := 0;
      savedFilepos := 0;
      received, resends, acks := [], 0, [];
    }

    /** send_rrq: forgets the old transfer and asks for the file from the start. */
    method SendRrq() returns (ok: bool)
      requires EvenBuffer() && |env.file| <= INT_MAX && tp.Rrq? && savedTp.Rrq?
      modifies `block, `env, `prevblock, `retry, `bcounter, `bufEof, `bufRead, `received, `acks, `packetsize,
               `resends, `savedFilepos
      ensures (ok, env) == Request(old(env), Rrq)
      ensures P() == FreshProto(old(filemax))
      ensures Window() && savedFilepos == bufRead == 0
      ensures Later(old(env), env) && (!ok ==> Troubled(old(env).sched, env.sched))
    {
      hide Coherent;
      hide Request;
      hide Window;
      RequestCoherent(env, filemax);
      RequestTrouble(env, Rrq);
      Restart();
      var (sent, e) := Request(env, tp);
      env := e;
      ok := sent;
      EmptyWindow();
    }

    /** Nothing received yet: the window is empty at the start of the file. */
    lemma EmptyWindow()
      requires EvenBuffer() && Coherent(env, P()) && received == [] && savedTp.Rrq?
      requires bufRead == 0 && savedFilepos == 0
      ensures Window()
    {
      hide Coherent;
      assert buf[..0] == received;
    }

    /** Moves the upper half of the buffer down and the window up by as much. */
    method Slide()
      requires Window() && Half() <= bufRead
      modifies `bufRead, `savedFilepos, buf
      ensures Window()
      ensures bufRead == old(bufRead) - Half() && savedFilepos == old(savedFilepos) + Half()
    {
      hide Coherent;
      ghost var was := buf[..];
      MoveDown();
      bufRead := bufRead - Half();
      savedFilepos := savedFilepos + Half();
      TailMoves(was, buf[..], received, Half(), bufRead);
      assert buf[..bufRead] == buf[..][..bufRead];
    }

    /** grub_memmove of the upper half of the buffer to its start. */
    method MoveDown()
      requires EvenBuffer()
      modifies buf
      ensures buf[..Half()] == old(buf[Half()..])
    {
      forall i | 0 <= i < Half() {
        buf[i] := buf[Half() + i];
      }
    }

    /** What was the end of the data before the move is its end afterwards. */
    lemma TailMoves(was: seq<Byte>, now: seq<Byte>, data: seq<Byte>, half: nat, n: nat)
      requires |was| == |now| == 2 * half && now[..half] == was[half..] && n <= half && half + n <= |data|
      requires was[..half + n] == data[|data| - (half + n)..]
      ensures now[..n] == data[|data| - n..]
    {
      assert now[..n] == now[..half][..n] == was[half..][..n] == was[..half + n][half..];
      assert data[|data| - (half + n)..][half..] == data[|data| - n..];
    }

    /** Copies `amt` bytes of the window from filepos on to addr[at..]. */
    method CopyOut(addr: array<Byte>, at: nat, amt: nat)
      requires Window() && addr != buf && at + amt <= addr.Length
      requires savedFilepos <= filepos && filepos + amt <= savedFilepos + bufRead
      modifies addr
      ensures 0 <= filepos && filepos + amt <= |env.file|
      ensures addr[at..at + amt] == env.file[filepos..filepos + amt]
      ensures addr[..at] == old(addr[..at]) && addr[at + amt..] == old(addr[at + amt..])
    {
      WindowIsFile();
      hide Window;
      var off := filepos - savedFilepos;
      CopyBytes(addr, at, off, amt);
      SliceOfSlice(buf[..], 0, bufRead, off, off + amt);
      SliceOfSlice(env.file, savedFilepos, savedFilepos + bufRead, off, off + amt);
      assert buf[..bufRead] == buf[..][0..bufRead] && buf[off..off + amt] == buf[..][off..off + amt];
    }

    /** grub_memmove out of the buffer. */
    method CopyBytes(addr: array<Byte>, at: nat, off: nat, amt: nat)
      requires addr != buf && at + amt <= addr.Length && off + amt <= buf.Length
      modifies addr
      ensures addr[at..at + amt] == buf[off..off + amt]
      ensures addr[..at] == old(addr[..at]) && addr[at + amt..] == old(addr[at + amt..])
    {
      for i := 0 to amt
        invariant addr[at..at + i] == buf[off..off + i]
        invariant addr[..at] == old(addr[..at]) && addr[at + amt..] == old(addr[at + amt..])
      {
        addr[at + i] := buf[off + i];
      }
    }

    /** One round of tftp_read's loop before the buffer is refilled: hand out what the window has, or
        skip it. */
    method Serve(addr: array<Byte>, at: nat, size: nat) returns (amt: nat)
      requires Window() && addr != buf && 0 < size && at + size <= addr.Length
      requires savedFilepos <= filepos
      modifies `bufRead, `savedFilepos, `filepos, buf, addr
      ensures Window() && savedFilepos <= filepos == old(filepos) + amt
      ensures amt <= size && (amt > 0 ==> filepos <= |env.file|)
      ensures 0 <= old(filepos) && addr[..at] == old(addr[..at]) && addr[at + size..] == old(addr[at + size..])
      ensures amt > 0 ==> addr[at..at + amt] == env.file[old(filepos)..filepos]
      ensures amt == 0 ==> bufRead == 0 && savedFilepos == |received| <= filepos
    {
      hide Window;
      WindowIsFile();
      WindowEnds();
      var avail := bufRead + savedFilepos - filepos;
      if avail > size {
        avail := size;
      }
      if avail > 0 {
        amt := avail;
        ghost var tail := addr[at + amt..];
        CopyOut(addr, at, amt);
        assert addr[at + size..] == addr[at + amt..][size - amt..] == tail[size - amt..];
        filepos := filepos + amt;
        if filepos - savedFilepos > Half() {
          Slide();
        }
      } else {
        amt := 0;
        SkipWindow();
      }
    }

    /** Skips the whole buffer. */
    method SkipWindow()
      requires Window()
      modifies `bufRead, `savedFilepos
      ensures Window() && bufRead == 0 && savedFilepos == |received| == old(savedFilepos + bufRead)
    {
      hide Coherent;
      savedFilepos := savedFilepos + bufRead;
      bufRead := 0;
    }

    /** The window does not depend on filepos. */
    lemma WindowEnds()
      requires Window()
      ensures 0 <= bufRead <= buf.Length && EvenBuffer() && savedFilepos + bufRead == |received|
    {
    }

    /** buf_fill (0) as tftp_read uses it: the window only grows. */
    method Refill() returns (ok: bool)
      requires Window()
      modifies `block, `tp, `env, `prevblock, `retry, `bcounter, `bufEof, `bufRead, `received, `acks,
               `packetsize, `filemax, `resends, buf
      ensures Window() && env.file == old(env.file)
      ensures 0 <= bufRead && |received| == |old(received)| + bufRead - old(bufRead)
      ensures filemax in {old(filemax), |env.file|}
      ensures ok ==> (bufEof && received == env.file) || bufRead > 0
      ensures Later(old(env), env) && (!ok ==> Excused(old(env), env))
    {
      hide Coherent;
      hide Excused;
      hide Later;
      ok := BufFill(false);
      WholeFile(env, P());
    }

    /** tftp_read's answer to a backward seek: abandon the transfer and ask again from the start. */
    method Reopen() returns (ok: bool)
      requires Window()
      modifies `block, `tp, `env, `prevblock, `retry, `bcounter, `bufEof, `bufRead, `received, `acks,
               `packetsize, `filemax, `resends, `savedFilepos, buf
      ensures filemax in {old(filemax), |env.file|}
      ensures Window() && savedFilepos == 0 && env.file == old(env.file)
      ensures Later(old(env), env) && (!ok ==> Troubled(old(env).sched, env.sched))
    {
      hide Coherent;
      hide Request;
      hide Troubled;
      hide Later;
      assert |env.file| <= INT_MAX by {
        WholeFile(env, P());
      }
      bufRead := 0;
      assert buf[..0] == received[|received|..];
      var _ := BufFill(true);
      tp := savedTp;
      RequestCoherent(env, filemax);
      ghost var mid := env;
      ok := SendRrq();
      StillLater(old(env), mid, env);
    }

    /** The first `n` bytes at addr are the file's from `start` on. */
    ghost predicate Delivered(addr: array<Byte>, n: int, start: int)
      reads `env, addr
    {
      && 0 <= start && 0 <= n <= addr.Length
      && (n > 0 ==> start + n <= |env.file| && addr[..n] == env.file[start..start + n])
    }

    /** One round of tftp_read's loop. */
    method ReadRound(addr: array<Byte>, ghost start: int, ret: nat, left: nat) returns (amt: nat, ok: bool)
      requires Window() && addr != buf && 0 < left && ret + left <= addr.Length
      requires savedFilepos <= filepos == start + ret && Delivered(addr, ret, start)
      modifies `block, `tp, `env, `prevblock, `retry, `bcounter, `bufEof, `bufRead, `received, `acks,
               `packetsize, `filemax, `resends, `savedFilepos, `filepos, buf, addr
      ensures filemax in {old(filemax), |env.file|}
      ensures Window() && env.file == old(env.file)
      ensures amt <= left && savedFilepos <= filepos == start + ret + amt
      ensures Delivered(addr, ret + amt, start)
      ensures addr[ret + left..] == old(addr[ret + left..])
      ensures ok && amt < left && amt == 0 ==> |old(received)| <= filepos && |old(received)| < |received|
      ensures Later(old(env), env)
      ensures !ok ==> start + ret + left > |env.file| || Excused(old(env), env)
    {
      hide Window;
      hide Excused;
      hide Troubled;
      hide Friendly;
      amt := Serve(addr, ret, left);
      DeliveredMore(addr[..], env.file, start, ret, amt);
      ok := true;
      if amt < left {
        ok := Refill();
        if bufRead == 0 {
          NothingLeft();
          ok := false;
        }
      }
    }

    /** An empty window behind the whole file is behind its end. */
    lemma NothingLeft()
      requires Window() && bufRead == 0 && savedFilepos <= filepos
      ensures received == env.file ==> |env.file| <= filepos
    {
    }

    /** Bytes delivered behind bytes delivered. */
    lemma DeliveredMore(bytes: seq<Byte>, file: seq<Byte>, start: int, ret: nat, amt: nat)
      requires 0 <= start && ret + amt <= |bytes|
      requires ret > 0 ==> start + ret <= |file| && bytes[..ret] == file[start..start + ret]
      requires amt > 0 ==> start + ret + amt <= |file| && bytes[ret..ret + amt] == file[start + ret..start + ret + amt]
      ensures ret + amt > 0 ==> start + ret + amt <= |file| && bytes[..ret + amt] == file[start..start + ret + amt]
    {
      if amt > 0 {
        SplitAt(bytes, 0, ret, ret + amt);
        SplitAt(file, start, start + ret, start + ret + amt);
      }
    }

    /** tftp_read's loop, up to setting the error number. */
    method ReadForward(addr: array<Byte>, size: int) returns (ret: int, ok: bool)
      requires Window() && addr != buf && 0 <= savedFilepos <= filepos && size <= addr.Length
      modifies `block, `tp, `env, `prevblock, `retry, `bcounter, `bufEof, `bufRead, `received, `acks,
               `packetsize, `filemax, `resends, `savedFilepos, `filepos, buf, addr
      ensures filemax in {old(filemax), |env.file|}
      ensures Window() && env.file == old(env.file)
      ensures Delivered(addr, ret, old(filepos)) && filepos == old(filepos) + ret
      ensures ok ==> ret == if size > 0 then size else 0
      ensures size >= 0 ==> addr[size..] == old(addr[size..])
      ensures Later(old(env), env)
      ensures !ok ==> old(filepos) + size > |env.file| || Excused(old(env), env)
    {
      hide Window;
      hide Excused;
      hide Troubled;
      ret := 0;
      var left := size;
      while left > 0
        invariant Window() && env.file == old(env.file) && Later(old(env), env)
        invariant filemax in {old(filemax), |env.file|}
        invariant savedFilepos <= filepos == old(filepos) + ret
        invariant if size > 0 then 0 <= left && ret + left == size else ret == 0 && left == size
        invariant Delivered(addr, ret, old(filepos))
        invariant size >= 0 ==> addr[size..] == old(addr[size..])
        decreases left, if filepos + 1 > |received| then filepos + 1 - |received| else 0
      {
        var amt;
        ghost var mid := env;
        amt, ok := ReadRound(addr, old(filepos), ret, left);
        StillLater(old(env), mid, env);
        ret := ret + amt;
        left := left - amt;
        if !ok {
          return;
        }
      }
      ok := true;
    }

    /** tftp_read: on success the bytes stored at addr are exactly the file's bytes from filepos on, and
        filepos has moved past them. It fails only beyond the end of the file or with an excuse. */
    method TftpRead(addr: array<Byte>, size: int) returns (ret: int)
      requires Window() && addr != buf && 0 <= filepos && size <= addr.Length
      modifies this, buf, addr
      ensures filemax in {old(filemax), |env.file|}
      ensures Window() && env.file == old(env.file)
      ensures ret == 0 || ret == size
      ensures size > 0 && ret == 0 ==> errnum == ErrRead || (errnum == ErrWrite && old(filepos) < old(savedFilepos))
      ensures ret > 0 ==> errnum == old(errnum) && filepos == old(filepos) + ret
      ensures Delivered(addr, ret, old(filepos))
      ensures size >= 0 ==> addr[size..] == old(addr[size..])
      ensures Later(old(env), env)
      ensures size > 0 && ret == 0 ==> old(filepos) + size > |env.file| || Excused(old(env), env)
    {
      hide Window;
      hide Friendly;
      hide Troubled;
      var ok := Rewind();
      ret := 0;
      if ok {
        ghost var mid := env;
        ret, ok := ReadForward(addr, size);
        StillLater(old(env), mid, env);
        if !ok {
          errnum := ErrRead;
          ret := 0;
        }
      } else {
        errnum := ErrWrite;
      }
    }

    /** The backward seek at the start of tftp_read. */
    method Rewind() returns (ok: bool)
      requires Window()
      modifies `block, `tp, `env, `prevblock, `retry, `bcounter, `bufEof, `bufRead, `received, `acks,
               `packetsize, `filemax, `resends, `savedFilepos, buf
      ensures filemax in {old(filemax), |env.file|}
      ensures Window() && env.file == old(env.file)
      ensures 0 <= filepos ==> 0 <= savedFilepos <= filepos
      ensures Later(old(env), env) && (!ok ==> Troubled(old(env).sched, env.sched))
      ensures !ok ==> old(filepos) < old(savedFilepos)
    {
      hide Troubled;
      WindowIsFile();
      ok := true;
      if filepos < savedFilepos {
        ok := Reopen();
      }
    }

    /** The request part of tftp_dir: build the request, keep a copy and send it. */
    method OpenFile() returns (ok: bool)
      requires EvenBuffer() && |env.file| <= INT_MAX
      modifies `block, `tp, `savedTp, `env, `prevblock, `retry, `bcounter, `bufEof, `bufRead, `received, `acks,
               `packetsize, `resends, `savedFilepos
      ensures Window() && savedFilepos == bufRead == 0
      ensures env.file == old(env.file)
      ensures Later(old(env), env) && (!ok ==> Excused(old(env), env))
      ensures ok <==> !CannotSend(old(env))
    {
      hide Request;
      hide Later;
      tp := Rrq;
      savedTp := tp;
      RequestCoherent(env, filemax);
      RequestSends(env, Rrq);
      ok := SendRrq();
    }

    /** The size-counting loop of tftp_dir: every byte received is counted once. The option reader,
        which also writes filemax, is out of play because a block has already been accepted. */
    method CountBytes() returns (ok: bool)
      requires Window() && bufRead == |received|
      requires bufEof || bufRead > 0
      modifies `block, `tp, `env, `prevblock, `retry, `bcounter, `bufEof, `bufRead, `received, `acks,
               `packetsize, `filemax, `resends, buf
      ensures env.file == old(env.file)
      ensures ok ==> filemax == |env.file|
      ensures Later(old(env), env) && (!ok ==> Excused(old(env), env))
    {
      hide Receiving;
      hide Excused;
      hide Friendly;
      RestartCount();
      ok := true;
      while true
        invariant Receiving() && env.file == old(env.file) && |received| <= |env.file| && Later(old(env), env)
        invariant filemax + bufRead == |received| && (bufEof || |received| > 0)
        decreases |env.file| - |received|
      {
        ghost var mid := env;
        ok := CountRound();
        StillLater(old(env), mid, env);
        if !ok {
          return;
        }
        if bufEof {
          break;
        }
      }
      CountedAll();
      filemax := filemax + bufRead;
    }

    /** The counting starts at zero. */
    method RestartCount()
      requires Window() && bufRead == |received|
      modifies `filemax
      ensures Receiving() && |received| <= |env.file| && filemax == 0
    {
      hide Coherent;
      WholeFile(env, P());
      FilemaxIrrelevant(env, P(), 0);
      filemax := 0;
    }

    lemma CountedAll()
      requires Receiving() && bufEof
      ensures received == env.file
    {
      WholeFile(env, P());
    }

    /** One round: count what the buffer holds, empty it and fill it again. */
    method CountRound() returns (ok: bool)
      requires Receiving() && filemax + bufRead == |received| && (bufEof || |received| > 0)
      modifies `block, `tp, `env, `prevblock, `retry, `bcounter, `bufEof, `bufRead, `received, `acks,
               `packetsize, `filemax, `resends, buf
      ensures Receiving() && env.file == old(env.file) && |received| <= |env.file|
      ensures filemax + bufRead == |received| && |old(received)| <= |received| && (bufEof || |received| > 0)
      ensures ok && !bufEof ==> |old(received)| < |received|
      ensures Later(old(env), env) && (!ok ==> Excused(old(env), env))
    {
      hide Coherent;
      hide Excused;
      hide Later;
      FilemaxIrrelevant(env, P(), filemax + bufRead);
      WholeFile(env, P());
      filemax := filemax + bufRead;
      bufRead := 0;
      assert buf[..0] == received[|received|..];
      ok := BufFill(false);
      WholeFile(env, P());
    }

    lemma FilemaxIrrelevant(e: Env, p: Proto, size: int)
      requires Coherent(e, p)
      ensures Coherent(e, p.(filemax := size))
    {
      var q := p.(filemax := size);
      assert Started(e, p) == Started(e, q);
      assert NotAhead(e, p) == NotAhead(e, q);
    }

    /** One pass of tftp_dir: ask for the file and fill the buffer. */
    method OpenAndFill() returns (err: Errnum)
      requires EvenBuffer() && |env.file| <= INT_MAX
      modifies `block, `tp, `savedTp, `env, `prevblock, `retry, `bcounter, `bufEof, `bufRead, `received, `acks,
               `packetsize, `filemax, `resends, `savedFilepos, buf
      ensures env.file == old(env.file) && filemax in {old(filemax), |env.file|}
      ensures err == ErrNone ==> Window() && bufRead == |received| && (bufEof || bufRead > 0)
      ensures Later(old(env), env) && (err != ErrNone ==> Excused(old(env), env))
      ensures err in {ErrNone, ErrWrite, ErrFileNotFound} && (err == ErrWrite <==> CannotSend(old(env)))
    {
      hide Coherent;
      hide Excused;
      hide Friendly;
      var ok := OpenFile();
      if !ok {
        return ErrWrite;
      }
      ghost var mid := env;
      ok := Refill();
      StillLater(old(env), mid, env);
      err := if ok then ErrNone else ErrFileNotFound;
    }

    /** tftp_dir: opens the file and finds out its size, from the server's tsize option or by reading the
        whole file once and opening it again. Asked to list file names it does nothing at all. */
    method TftpDir(printPossibilities: bool) returns (ok: bool)
      requires EvenBuffer() && |env.file| <= INT_MAX
      modifies this, buf
      ensures printPossibilities ==> ok && unchanged(this) && unchanged(buf)
      ensures env.file == old(env.file) && filepos == old(filepos)
      ensures ok && !printPossibilities ==> filemax == |env.file| && errnum == old(errnum) && Window()
      ensures !ok ==> errnum in {ErrWrite, ErrFileNotFound, ErrRead}
      ensures !printPossibilities && CannotSend(old(env)) ==> !ok && errnum == ErrWrite
      ensures Later(old(env), env) && (!ok ==> Excused(old(env), env))
    {
      if printPossibilities {
        return true;
      }
      hide Window;
      hide Excused;
      hide Friendly;
      filemax := -1;
      var again := true;
      ok := true;
      while ok && again
        invariant Later(old(env), env) && (!ok ==> Excused(old(env), env))
        invariant env.file == old(env.file) && filepos == old(filepos)
        invariant if ok then errnum == old(errnum) && filemax == (if again && filemax == -1 then -1 else |env.file|)
                  else errnum in {ErrWrite, ErrFileNotFound, ErrRead}
        invariant ok && !again ==> Window()
        invariant CannotSend(old(env)) ==> if ok then env == old(env) && again else errnum == ErrWrite
        decreases ok, again, filemax == -1
      {
        ghost var mid := env;
        ok, again := SizePass();
        StillLater(old(env), mid, env);
      }
    }

    /** One pass of tftp_dir: open the file, and count its bytes if its size is still unknown; then open it again. */
    method SizePass() returns (ok: bool, again: bool)
      requires EvenBuffer() && |env.file| <= INT_MAX && filemax in {-1, |env.file|}
      modifies this, buf
      ensures env.file == old(env.file) && filepos == old(filepos)
      ensures ok ==> filemax == |env.file| && errnum == old(errnum) && (again ==> old(filemax) == -1)
      ensures ok && !again ==> Window()
      ensures !ok ==> errnum in {ErrWrite, ErrFileNotFound, ErrRead}
      ensures CannotSend(old(env)) ==> !ok && errnum == ErrWrite
      ensures Later(old(env), env) && (!ok ==> Excused(old(env), env))
    {
      hide Window;
      hide Excused;
      hide Friendly;
      again := false;
      var err := OpenAndFill();
      if err != ErrNone {
        errnum := err;
        return false, false;
      }
      if filemax != -1 {
        return true, false;
      }
      ghost var mid := env;
      ok := CountBytes();
      StillLater(old(env), mid, env);
      again := ok;
      if !ok {
        errnum := ErrRead;
      }
    }

    /** tftp_close: unless the file has ended, tells the server to stop in answer to its next packet. Nothing more is
        accepted. */
    method TftpClose()
      requires Window()
      modifies this, buf
      ensures env.file == old(env.file) && received == old(received) && bufRead == 0
      ensures old(bufEof) || (bufEof && Refusal in env.toServer) || Excused(old(env), env)
    {
      hide Coherent;
      bufRead := 0;
      assert buf[..0] == received[|received|..];
      var _ := BufFill(true);
    }
  }

  datatype Seek = Seek(pos: nat, size: nat)

  /** `data` is a correct answer to `q`: nothing, or exactly the bytes asked for. */
  ghost predicate Answers(file: seq<Byte>, q: Seek, data: seq<Byte>) {
    |data| > 0 ==>
      |data| == q.size && q.pos + q.size <= |file| && data == file[q.pos..q.pos + q.size]
  }

  method SeekAndRead(client: TftpClient, q: Seek) returns (data: seq<Byte>)
    requires client.Window()
    modifies client, client.buf
    ensures client.Window() && client.env.file == old(client.env.file)
    ensures Answers(client.env.file, q, data)
    ensures Later(old(client.env), client.env)
    ensures Within(client.env.file, q) && data == [] ==> Excused(old(client.env), client.env)
  {
    hide Coherent;
    hide Excused;
    hide Friendly;
    var addr := new Byte[q.size];
    client.filepos := q.pos;
    var ret := client.TftpRead(addr, q.size);
    data := addr[..ret];
  }

  /** Any run: open the file, then seek and read at will, forwards and backwards, over any channel. Every
      read that answers with data answers with the file's bytes at that position; and as long as the world
      is friendly and has not fallen silent, the file is found and every read within it does answer. */
  method OpenSeekRead(buflen: nat, file: seq<Byte>, sched: seq<Choice>, seeks: seq<Seek>)
    returns (size: int, results: seq<seq<Byte>>, left: nat)
    requires |file| <= INT_MAX && buflen % 2 == 0 && TFTP_MAX_PACKET <= buflen
    ensures size == -1 || size == |file|
    ensures |results| == if size == -1 then 0 else |seeks|
    ensures forall i :: 0 <= i < |results| ==> Answers(file, seeks[i], results[i])
    ensures left > 0 && (forall i :: 0 <= i < |sched| ==> Calm(sched[i])) ==>
      size == |file| && Complete(file, seeks, results)
  {
    hide Coherent;
    hide Excused;
    hide Calm;
    results := [];
    var client := new TftpClient(buflen, file, sched);
    ghost var start := client.env;
    ghost var calm := forall i :: 0 <= i < |sched| ==> Calm(sched[i]);
    assert calm ==> Friendly(start);
    var found := client.TftpDir(false);
    if !found {
      if calm {
        FriendlyExcuse(start, client.env);
      }
      return -1, [], |client.env.sched|;
    }
    size := client.filemax;
    results := SeekAll(client, seeks);
    left := |client.env.sched|;
  }

  /** The seeks and reads of a run. */
  method SeekAll(client: TftpClient, seeks: seq<Seek>) returns (results: seq<seq<Byte>>)
    requires client.Window()
    modifies client, client.buf
    ensures |results| == |seeks| && client.env.file == old(client.env.file)
    ensures forall i :: 0 <= i < |results| ==> Answers(client.env.file, seeks[i], results[i])
    ensures old(Friendly(client.env)) && client.env.sched != [] ==> Complete(client.env.file, seeks, results)
  {
    hide Coherent;
    hide Excused;
    hide Friendly;
    hide TftpClient.Window;
    hide Answers;
    hide Within;
    results := [];
    ghost var start := client.env;
    assert Later(start, start) by {
      AlwaysLater(start);
    }
    for i := 0 to |seeks|
      invariant client.Window() && client.env.file == start.file && |results| == i
      invariant forall j :: 0 <= j < i ==> Answers(start.file, seeks[j], results[j])
      invariant Later(start, client.env)
      invariant Friendly(start) && client.env.sched != [] ==> Complete(start.file, seeks, results)
    {
      ghost var mid := client.env;
      var data := SeekAndRead(client, seeks[i]);
      StillLater(start, mid, client.env);
      if Friendly(start) && Excused(mid, client.env) {
        FriendlyExcuse(mid, client.env);
      }
      results := results + [data];
    }
  }

  lemma AlwaysLater(env: Env)
    ensures Later(env, env)
  {
  }

  ghost predicate Within(file: seq<Byte>, q: Seek) {
    0 < q.size && q.pos + q.size <= |file|
  }

  /** Every seek within the file has been answered with data. */
  ghost predicate Complete(file: seq<Byte>, seeks: seq<Seek>, results: seq<seq<Byte>>) {
    |results| <= |seeks| && forall i :: 0 <= i < |results| && Within(file, seeks[i]) ==> results[i] != []
  }
}
