/** The socket calls of kernel/net/tcp.c on the socket array: each is a run of the steps of
    Tcp.dfy.  What net_rx_process delivers on each turn of a waiting loop, up to the deadline,
    is a parameter. */
module TcpStack {
  import opened Common
  import opened Tcp

  function Arrivals(segs: seq<Segment>): (es: seq<Event>)
    ensures |es| == |segs|
  {
    if segs == [] then [] else [Arrive(segs[0])] + Arrivals(segs[1..])
  }

  /** The arrivals of some turns of a waiting loop, joined. */
  function Joined(polls: seq<seq<Segment>>): seq<Event> {
    if polls == [] then [] else Joined(polls[..|polls| - 1]) + Arrivals(polls[|polls| - 1])
  }

  /** The state after `k` turns. */
  function After(s: State, polls: seq<seq<Segment>>, k: nat): (r: State)
    requires Shape(s) && k <= |polls|
    ensures Shape(r)
  {
    Run(s, Joined(polls[..k]))
  }

  /** What a call waits for. */
  datatype Wait = ForAnswer | ForData | ForFin

  /** The wait is over: when tcp_connect, tcp_recv and tcp_close leave their loops. */
  predicate Over(w: Wait, k: Socket) {
    match w
    case ForAnswer => k.state == Established || k.state == Closed
    case ForData => k.recv != [] || k.state == CloseWait || k.state == Closed
    case ForFin => k.state == TimeWait || k.state == Closed
  }

  /** The loop makes `k` turns: up to the first after which the wait is over, or all. */
  ghost predicate Waits(s: State, polls: seq<seq<Segment>>, fd: nat, w: Wait, k: nat)
    requires Shape(s) && fd < TCP_MAX_SOCKETS
  {
    && k <= |polls|
    && (forall j :: 0 < j < k ==> !Over(w, After(s, polls, j).socks[fd]))
    && (k < |polls| ==> k > 0 && Over(w, After(s, polls, k).socks[fd]))
  }

  /** tcp_connect waits until there is a connection or a reset, tcp_recv until there are bytes or
      the peer is done, tcp_close until the peer has closed too or a reset has come. */
  lemma OverExact(w: Wait, k: Socket)
    ensures Over(w, k) <==>
            || k.state == Closed
            || (w == ForAnswer && k.state == Established)
            || (w == ForData && (|k.recv| > 0 || k.state == CloseWait))
            || (w == ForFin && k.state == TimeWait)
  {
  }

  /** The number of turns is determined. */
  lemma WaitsOnce(s: State, polls: seq<seq<Segment>>, fd: nat, w: Wait, j: nat, k: nat)
    requires Shape(s) && fd < TCP_MAX_SOCKETS && Waits(s, polls, fd, w, j) && Waits(s, polls, fd, w, k)
    ensures j == k
  {
    hide After, Over;
  }

  lemma AfterNext(s: State, polls: seq<seq<Segment>>, k: nat)
    requires Shape(s) && k < |polls|
    ensures After(s, polls, k + 1) == Run(After(s, polls, k), Arrivals(polls[k]))
  {
    hide Run, Arrivals;
    assert polls[..k + 1][..k] == polls[..k];
    RunAppend(s, Joined(polls[..k]), Arrivals(polls[k]));
  }

  lemma AfterNone(s: State, polls: seq<seq<Segment>>)
    requires Shape(s)
    ensures After(s, polls, 0) == s
  {
  }

  lemma {:induction false} RunAppend(s: State, a: seq<Event>, b: seq<Event>)
    requires Shape(s)
    ensures Run(s, a + b) == Run(Run(s, a), b)
    decreases |a|
  {
    hide Next;
    if a == [] {
      assert a + b == b;
    } else {
      assert (a + b)[1..] == a[1..] + b;
      RunAppend(Next(s, a[0]), a[1..], b);
    }
  }

  /** Socket `fd` has a connection that the program has not closed, in a reachable state. */
  ghost predicate Connected(s: State, fd: int) {
    Inv(s) && 0 <= fd < TCP_MAX_SOCKETS && (s.socks[fd].state == Established || s.socks[fd].state == CloseWait)
  }

  /** The peer's FIN has come, before or in the run, or a reset. */
  ghost predicate StreamOver(s: State, es: seq<Event>, fd: nat)
    requires Shape(s) && fd < TCP_MAX_SOCKETS
  {
    s.socks[fd].state == CloseWait || Ended(s, es, fd)
  }

  lemma WaitsBound(s: State, polls: seq<seq<Segment>>, fd: nat, w: Wait, k: nat)
    requires Shape(s) && fd < TCP_MAX_SOCKETS && Waits(s, polls, fd, w, k)
    ensures k <= |polls|
  {
    hide After, Over;
  }

  lemma ConnectedActive(s: State, fd: int)
    ensures Connected(s, fd) ==> 0 <= fd < TCP_MAX_SOCKETS && |s.socks| == TCP_MAX_SOCKETS && s.socks[fd].active
  {
  }

  /** After some turns the connection is done exactly when the peer's stream is over. */
  lemma StreamIsOver(s: State, polls: seq<seq<Segment>>, k: nat, fd: int)
    requires Connected(s, fd) && k <= |polls|
    ensures PeerDone(After(s, polls, k).socks[fd]) <==> StreamOver(s, Joined(polls[..k]), fd)
  {
    hide Run, Ended, Inv, LeftOpen;
    var es := Joined(polls[..k]);
    JoinedArrive(polls[..k]);
    assert Shape(s) by { InvShape(s); }
    ArrivalsLeaveOpen(s, es, fd);
    RunEnds(s, es, fd);
  }

  lemma {:induction false} JoinedArrive(polls: seq<seq<Segment>>)
    ensures forall i :: 0 <= i < |Joined(polls)| ==> Joined(polls)[i].Arrive?
    decreases |polls|
  {
    if polls != [] {
      JoinedArrive(polls[..|polls| - 1]);
      AllArrive(polls[|polls| - 1]);
    }
  }

  lemma {:induction false} AllArrive(segs: seq<Segment>)
    ensures forall i :: 0 <= i < |segs| ==> Arrivals(segs)[i] == Arrive(segs[i])
  {
    if segs != [] {
      AllArrive(segs[1..]);
    }
  }

  lemma {:induction false} ArrivalsLeaveOpen(s: State, es: seq<Event>, fd: nat)
    requires Shape(s) && fd < TCP_MAX_SOCKETS && forall i :: 0 <= i < |es| ==> es[i].Arrive?
    ensures LeftOpen(s, es, fd)
    decreases |es|
  {
    hide Next;
    if es != [] {
      assert es[0].Arrive?;
      ArrivalsLeaveOpen(Next(s, es[0]), es[1..], fd);
    }
  }

  lemma TwoAcks(fd: nat, ks: seq<Socket>)
    requires |ks| <= 2
    ensures |ks| == 0 ==> Acks(fd, ks) == []
    ensures |ks| == 1 ==> Acks(fd, ks) == [Sent(fd, ACK, ks[0].seqNo, ks[0].ackNo, [])]
    ensures |ks| == 2 ==>
              Acks(fd, ks) == [Sent(fd, ACK, ks[0].seqNo, ks[0].ackNo, []), Sent(fd, ACK, ks[1].seqNo, ks[1].ackNo, [])]
  {
  }

  class TcpStack {
    const socks: array<Socket>
    var nextPort: nat
    var sent: seq<Sent>
    ghost var logs: seq<Log>

    constructor ()
      ensures Valid() && S() == START && fresh(socks)
    {
      socks := new Socket[4](_ => ZEROED);
      nextPort := 49152;
      sent := [];
      logs := [Log([], []), Log([], []), Log([], []), Log([], [])];
      new;
      assert socks[..] == [ZEROED, ZEROED, ZEROED, ZEROED];
    }

    ghost predicate Valid()
      reads this
    {
      socks.Length == |logs| == TCP_MAX_SOCKETS
    }

    ghost function S(): (s: State)
      requires Valid()
      reads this, socks
      ensures Shape(s)
    {
      State(socks[..], logs, sent, nextPort)
    }

    method SendSegment(fd: nat, flags: Flags, data: seq<Byte>)
      requires Valid() && fd < TCP_MAX_SOCKETS
      modifies `sent
      ensures Valid() && sent == old(sent) +
              OnWire(Sent(fd, flags, socks[fd].seqNo, socks[fd].ackNo, data[..Min(|data|, TCP_SEGMENT_MAX)]))
    {
      var n := Min(|data|, TCP_SEGMENT_MAX);
      if 20 + n <= IP_PAYLOAD_MAX {
        sent := sent + [Sent(fd, flags, socks[fd].seqNo, socks[fd].ackNo, data[..n])];
      }
    }

    /** tcp_rx_handler. */
    method RxHandler(seg: Segment)
      requires Valid()
      modifies this, socks
      ensures Valid() && S() == Next(old(S()), Arrive(seg))
    {
      if !seg.ok {
        return;
      }
      var fd := 0;
      while fd < TCP_MAX_SOCKETS && !Matches(socks[fd], seg)
        invariant fd <= TCP_MAX_SOCKETS && forall j :: 0 <= j < fd ==> !Matches(socks[j], seg)
      {
        fd := fd + 1;
      }
      assert fd == FindMatch(socks[..], seg);
      if fd < TCP_MAX_SOCKETS {
        Handle(fd, seg);
      }
    }

    method Set(fd: nat, k: Socket)
      requires Valid() && fd < TCP_MAX_SOCKETS
      modifies socks
      ensures socks[..] == old(socks[..])[fd := k]
    {
      socks[fd] := k;
    }

    /** Only the socket, the wire and the log of `fd` have changed, as a reaction says. */
    twostate predicate Reacted(fd: nat, r: Reaction)
      reads this, socks
      requires old(Valid()) && Valid() && fd < TCP_MAX_SOCKETS
    {
      && socks[..] == old(socks[..])[fd := r.sock] && nextPort == old(nextPort)
      && sent == old(sent) + Acks(fd, r.replies)
      && logs == old(logs)[fd := old(logs)[fd].(accepted := old(logs)[fd].accepted + r.accepted)]
    }

    /** What a segment does to the socket it was found to match. */
    method Handle(fd: nat, seg: Segment)
      requires Valid() && fd < TCP_MAX_SOCKETS
      modifies this, socks
      ensures Valid() && Reacted(fd, React(old(socks[fd]), seg))
    {
      var k := socks[fd];
      assert logs[fd].accepted + [] == logs[fd].accepted;
      assert socks[..][fd := k] == socks[..];
      if seg.flags.rst {
        Set(fd, k.(state := Closed, active := false));
        return;
      }
      match k.state
      case SynSent =>
        if seg.flags.syn && seg.flags.ack && seg.ackNo == k.seqNo {
          Set(fd, k.(ackNo := Mod32(seg.seqNo + 1), remoteSeq := seg.seqNo, state := Established));
          SendSegment(fd, ACK, []);
        }
      case Established =>
        if seg.flags.ack {
          Receive(fd, seg);
        }
      case FinWait1 =>
        if seg.flags.ack {
          Set(fd, k.(state := FinWait2));
        }
        if seg.flags.fin {
          Finished(fd, seg);
        }
      case FinWait2 =>
        if seg.flags.fin {
          Finished(fd, seg);
        }
      case LastAck =>
        if seg.flags.ack {
          Set(fd, k.(state := Closed, active := false));
        }
      case TimeWait => Set(fd, k.(state := Closed, active := false));
      case _ =>
    }

    /** A data segment, a FIN or both, on an established connection. */
    method Receive(fd: nat, seg: Segment)
      requires Valid() && fd < TCP_MAX_SOCKETS
      modifies this, socks
      ensures Valid() && Reacted(fd, Deliver(old(socks[fd]), seg))
    {
      hide Mod32;
      var k := socks[fd];
      ghost var s0, l0 := socks[..], logs;
      var n := |seg.data|;
      assert l0[fd].accepted + [] == l0[fd].accepted;
      assert s0[fd := k] == s0;
      if n > 0 {
        var space := if |k.recv| <= RECV_BUF then RECV_BUF - |k.recv| else 0;
        var part := seg.data[..Min(n, space)];
        logs := logs[fd := logs[fd].(accepted := logs[fd].accepted + part)];
        Set(fd, k.(recv := k.recv + part, ackNo := Mod32(seg.seqNo + n)));
        SendSegment(fd, ACK, []);
      }
      if seg.flags.fin {
        Set(fd, socks[fd].(ackNo := Mod32(seg.seqNo + n + 1), state := CloseWait));
        SendSegment(fd, ACK, []);
        assert socks[..] == s0[fd := socks[fd]];
      }
      TwoAcks(fd, Deliver(k, seg).replies);
    }

    method Finished(fd: nat, seg: Segment)
      requires Valid() && fd < TCP_MAX_SOCKETS
      modifies this, socks
      ensures Valid() && Reacted(fd, Finish(old(socks[fd]), seg))
    {
      hide Mod32;
      ghost var s0 := socks[..];
      Set(fd, socks[fd].(ackNo := Mod32(seg.seqNo + 1)));
      SendSegment(fd, ACK, []);
      assert logs[fd].accepted + [] == logs[fd].accepted;
      Set(fd, socks[fd].(state := TimeWait));
      assert socks[..] == s0[fd := socks[fd]];
      TwoAcks(fd, Finish(s0[fd], seg).replies);
    }

    // ----- The socket calls -----

    /** net_rx_process: the segments waiting, one after the other. */
    method Process(segs: seq<Segment>)
      requires Valid()
      modifies this, socks
      ensures Valid() && S() == Run(old(S()), Arrivals(segs))
    {
      hide Next;
      assert segs[0..] == segs;
      for i := 0 to |segs|
        invariant Valid() && Run(S(), Arrivals(segs[i..])) == Run(old(S()), Arrivals(segs))
      {
        ghost var s, es := S(), Arrivals(segs[i..]);
        RxHandler(segs[i]);
        assert segs[i..][1..] == segs[i + 1..];
        assert es[0] == Arrive(segs[i]) && es[1..] == Arrivals(segs[i + 1..]);
        assert Run(s, es) == Run(Next(s, es[0]), es[1..]);
      }
    }

    /** The loop in which a call waits; `polls` is what arrives on each turn before the deadline. */
    method Await(fd: nat, w: Wait, polls: seq<seq<Segment>>) returns (k: nat)
      requires Valid() && fd < TCP_MAX_SOCKETS
      modifies this, socks
      ensures Valid() && Waits(old(S()), polls, fd, w, k) && S() == After(old(S()), polls, k)
    {
      hide Run, After, Over;
      AfterNone(S(), polls);
      k := 0;
      var over := false;
      while k < |polls| && !over
        invariant Valid() && k <= |polls| && S() == After(old(S()), polls, k)
        invariant forall j :: 0 < j < k ==> !Over(w, After(old(S()), polls, j).socks[fd])
        invariant if over then k > 0 && Over(w, socks[fd]) else k > 0 ==> !Over(w, socks[fd])
        decreases |polls| - k
      {
        AfterNext(old(S()), polls, k);
        Process(polls[k]);
        over := Over(w, socks[fd]);
        k := k + 1;
      }
    }

    /** tcp_connect.  Without a free socket it fails at once.  Otherwise it sends a SYN and waits
        for the answer: it returns the socket exactly when the wait ends with an established
        connection, and else closes the socket. */
    method ConnectTo(ip: nat, port: nat, myIp: nat, isn: nat, polls: seq<seq<Segment>>) returns (fd: int, ghost k: nat)
      requires Valid()
      modifies this, socks
      ensures Valid()
      ensures var s0, free := old(S()), FindFree(old(socks[..]));
              if free == TCP_MAX_SOCKETS then fd == -1 && S() == s0
              else
                var s1 := Next(s0, Connect(ip, port, myIp, isn));
                && Waits(s1, polls, free, ForAnswer, k)
                && var s2 := After(s1, polls, k);
                   if s2.socks[free].state == Established then fd == free && S() == s2
                   else fd == -1 && S() == Next(s2, ConnectFails(free))
    {
      hide Next, Run, Mod32, After, Waits;
      var free := 0;
      while free < TCP_MAX_SOCKETS && socks[free].active
        invariant free <= TCP_MAX_SOCKETS && forall j :: 0 <= j < free ==> socks[j].active
      {
        free := free + 1;
      }
      assert free == FindFree(socks[..]);
      if free == TCP_MAX_SOCKETS {
        return -1, 0;
      }
      Open(free, ip, port, myIp, isn);
      k := Await(free, ForAnswer, polls);
      if socks[free].state == Established {
        return free, k;
      }
      GiveUp(free);
      fd := -1;
    }

    method Open(fd: nat, ip: nat, port: nat, myIp: nat, isn: nat)
      requires Valid() && fd < TCP_MAX_SOCKETS && fd == FindFree(socks[..])
      modifies this, socks
      ensures Valid() && S() == Next(old(S()), Connect(ip, port, myIp, isn)) && socks[fd].state == SynSent
    {
      hide FindFree;
      ghost var s0 := socks[..];
      var k := Socket(true, SynSent, myIp, nextPort, ip, port, Mod32(isn), 0, 0, []);
      nextPort := (nextPort + 1) % 0x1_0000;
      Set(fd, k);
      SendSegment(fd, SYN, []);
      ModNext(isn);
      Set(fd, k.(seqNo := Mod32(k.seqNo + 1)));
      logs := logs[fd := Log([], [])];
      assert socks[..] == s0[fd := socks[fd]];
    }

    method GiveUp(fd: nat)
      requires Valid() && fd < TCP_MAX_SOCKETS && socks[fd].state != Established
      modifies socks
      ensures Valid() && S() == Next(old(S()), ConnectFails(fd)) && socks[fd].state == Closed
    {
      Set(fd, socks[fd].(active := false, state := Closed));
    }

    /** tcp_send: -1 exactly when there is no established connection. */
    method SendData(fd: int, data: seq<Byte>) returns (n: int)
      requires Valid()
      modifies this, socks
      ensures Valid()
      ensures if 0 <= fd < TCP_MAX_SOCKETS && old(socks[fd]).active && old(socks[fd]).state == Established
              then S() == Next(old(S()), Send(fd, data)) && n == Min(|data|, TCP_SEGMENT_MAX)
              else S() == old(S()) && n == -1
    {
      hide Mod32;
      if fd < 0 || fd >= TCP_MAX_SOCKETS {
        return -1;
      }
      var k := socks[fd];
      if !k.active || k.state != Established {
        return -1;
      }
      n := Min(|data|, TCP_SEGMENT_MAX);
      SendSegment(fd, PSH_ACK, data[..n]);
      assert data[..n][..n] == data[..n];
      Set(fd, k.(seqNo := Mod32(k.seqNo + n)));
    }

    /** tcp_recv: -1 for a socket that is not active or when the deadline passes, 0 at the end
        of the stream, and otherwise the next bytes of the buffer. */
    method ReceiveData(fd: int, max: nat, polls: seq<seq<Segment>>) returns (n: int, buf: seq<Byte>, ghost k: nat)
      requires Valid()
      modifies this, socks
      ensures Valid()
      ensures if !(0 <= fd < TCP_MAX_SOCKETS && old(socks[fd]).active) then n == -1 && buf == [] && S() == old(S())
              else
                && Waits(old(S()), polls, fd, ForData, k)
                && var s1 := After(old(S()), polls, k);
                   if k == 0 || !Over(ForData, s1.socks[fd]) then n == -1 && buf == [] && S() == s1
                   else if s1.socks[fd].recv == [] then n == 0 && buf == [] && S() == s1
                   else
                     && n == Min(|s1.socks[fd].recv|, max) && buf == s1.socks[fd].recv[..n]
                     && S() == Next(s1, Take(fd, max))
      ensures Connected(old(S()), fd) && max > 0 ==>
                var s1 := After(old(S()), polls, k);
                n == 0 <==> k > 0 && s1.socks[fd].recv == [] && StreamOver(old(S()), Joined(polls[..k]), fd)
    {
      hide Next, Run, After, Waits, Connected, StreamOver;
      buf, k := [], 0;
      if fd < 0 || fd >= TCP_MAX_SOCKETS || !socks[fd].active {
        ConnectedActive(S(), fd);
        return -1, buf, k;
      }
      ghost var s0 := S();
      var turns := Await(fd, ForData, polls);
      k := turns;
      WaitsBound(s0, polls, fd, ForData, k);
      if Connected(s0, fd) {
        StreamIsOver(s0, polls, k, fd);
      }
      if turns > 0 && |socks[fd].recv| > 0 {
        buf := TakeFrom(fd, max);
        return |buf|, buf, k;
      }
      if turns > 0 && (socks[fd].state == CloseWait || socks[fd].state == Closed) {
        return 0, buf, k;
      }
      n := -1;
    }

    method TakeFrom(fd: nat, max: nat) returns (buf: seq<Byte>)
      requires Valid() && fd < TCP_MAX_SOCKETS
      modifies this, socks
      ensures Valid() && S() == Next(old(S()), Take(fd, max))
      ensures buf == old(socks[fd]).recv[..Min(|old(socks[fd]).recv|, max)] &&
              logs[fd].taken == old(logs)[fd].taken + buf
    {
      var k := socks[fd];
      var copy := if |k.recv| < max then |k.recv| else max;
      buf := k.recv[..copy];
      Set(fd, k.(recv := k.recv[copy..]));
      logs := logs[fd := logs[fd].(taken := logs[fd].taken + buf)];
    }

    /** tcp_close: a FIN if there is a connection, some time for the answer, and the socket is
        free again. */
    method CloseSocket(fd: int, polls: seq<seq<Segment>>) returns (ghost k: nat)
      requires Valid()
      modifies this, socks
      ensures Valid()
      ensures if !(0 <= fd < TCP_MAX_SOCKETS && old(socks[fd]).active) then S() == old(S())
              else if old(socks[fd]).state == Established || old(socks[fd]).state == CloseWait then
                var s1 := Next(old(S()), Close(fd));
                Waits(s1, polls, fd, ForFin, k) && S() == Next(After(s1, polls, k), CloseEnds(fd))
              else S() == Next(old(S()), CloseEnds(fd))
      ensures 0 <= fd < TCP_MAX_SOCKETS && old(socks[fd]).active ==> socks[fd] == ZEROED
    {
      hide Next, Run, After, Waits;
      k := 0;
      if fd < 0 || fd >= TCP_MAX_SOCKETS || !socks[fd].active {
        return;
      }
      if socks[fd].state == Established || socks[fd].state == CloseWait {
        SendFin(fd);
        k := Await(fd, ForFin, polls);
      }
      Clear(fd);
    }

    method SendFin(fd: nat)
      requires Valid() && fd < TCP_MAX_SOCKETS && socks[fd].active &&
               (socks[fd].state == Established || socks[fd].state == CloseWait)
      modifies this, socks
      ensures Valid() && S() == Next(old(S()), Close(fd))
    {
      hide Mod32;
      ghost var s0 := socks[..];
      Set(fd, socks[fd].(state := FinWait1));
      SendSegment(fd, FIN_ACK, []);
      Set(fd, socks[fd].(seqNo := Mod32(socks[fd].seqNo + 1)));
      assert socks[..] == s0[fd := socks[fd]];
    }

    method Clear(fd: nat)
      requires Valid() && fd < TCP_MAX_SOCKETS
      modifies this, socks
      ensures Valid() && S() == Next(old(S()), CloseEnds(fd)) && socks[fd] == ZEROED
    {
      Set(fd, ZEROED);
      logs := logs[fd := Log([], [])];
    }
  }

  lemma ModNext(n: nat)
    ensures Mod32(Mod32(n) + 1) == Mod32(n + 1)
  {
    ModAdd(n, 1);
  }
}
