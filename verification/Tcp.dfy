/** TCP sockets (kernel/net/tcp.c) as a step machine over the socket table.  Lengths, header
    size and checksum of an incoming segment are one flag, and sending is one step. */
module Tcp {
  import opened Common
  import Arith

  const TCP_MAX_SOCKETS := 4
  const TCP_SEGMENT_MAX := 4096
  const RECV_BUF := 4096
  const IP_PAYLOAD_MAX := 1480

  datatype TcpState =
    | Closed | SynSent | SynReceived | Established | FinWait1 | FinWait2 | CloseWait | Closing | LastAck | TimeWait

  /** A socket; `recv` is the first recv_len bytes of the receive buffer. */
  datatype Socket = Socket(active: bool, state: TcpState, localIp: nat, localPort: nat, remoteIp: nat, remotePort: nat,
                           seqNo: nat, ackNo: nat, remoteSeq: nat, recv: seq<Byte>)

  const ZEROED := Socket(false, Closed, 0, 0, 0, 0, 0, 0, 0, [])

  datatype Flags = Flags(fin: bool, syn: bool, rst: bool, psh: bool, ack: bool)

  const SYN := Flags(false, true, false, false, false)
  const ACK := Flags(false, false, false, false, true)
  const FIN_ACK := Flags(true, false, false, false, true)
  const PSH_ACK := Flags(false, false, false, true, true)

  /** An incoming segment; `ok` when it passes the length and checksum tests. */
  datatype Segment = Segment(ok: bool, srcIp: nat, srcPort: nat, dstPort: nat, seqNo: nat, ackNo: nat, flags: Flags,
    data: seq<Byte>)

  /** A segment that was sent. */
  datatype Sent = Sent(fd: nat, flags: Flags, seqNo: nat, ackNo: nat, data: seq<Byte>)

  function Mod32(n: nat): nat { n % 0x1_0000_0000 }

  /** What happened on a socket since its connect: the payload bytes put in its buffer, in the
      order of arrival, and the bytes that were read. */
  datatype Log = Log(accepted: seq<Byte>, taken: seq<Byte>)

  datatype State = State(socks: seq<Socket>, logs: seq<Log>, sent: seq<Sent>, nextPort: nat)

  ghost predicate Shape(s: State) { |s.socks| == |s.logs| == TCP_MAX_SOCKETS }

  /** The steps of the socket calls, and the arrival of a segment. */
  datatype Event =
    | Connect(ip: nat, port: nat, myIp: nat, isn: nat)
    | ConnectFails(fd: nat)
    | Close(fd: nat)
    | CloseEnds(fd: nat)
    | Send(fd: nat, data: seq<Byte>)
    | Take(fd: nat, max: nat)
    | Arrive(seg: Segment)

  /** ipv4_send refuses more than 1480 bytes, the header of 20 bytes included, and tcp_send
      does not look at its result. */
  function OnWire(x: Sent): seq<Sent> {
    if 20 + |x.data| > IP_PAYLOAD_MAX then [] else [x]
  }

  // ----- One socket -----

  /** What a segment does to the socket it matches: the new socket, the bytes accepted, and
      the segments sent back. */
  datatype Reaction = Reaction(sock: Socket, accepted: seq<Byte>, replies: seq<Socket>)

  function React(s: Socket, seg: Segment): Reaction {
    if seg.flags.rst then Reaction(s.(state := Closed, active := false), [], [])
    else
      match s.state
      case SynSent =>
        if seg.flags.syn && seg.flags.ack && seg.ackNo == s.seqNo then
          var s1 := s.(ackNo := Mod32(seg.seqNo + 1), remoteSeq := seg.seqNo, state := Established);
          Reaction(s1, [], [s1])
        else Reaction(s, [], [])
      case Established => if seg.flags.ack then Deliver(s, seg) else Reaction(s, [], [])
      case FinWait1 =>
        var s1 := if seg.flags.ack then s.(state := FinWait2) else s;
        if seg.flags.fin then Finish(s1, seg) else Reaction(s1, [], [])
      case FinWait2 => if seg.flags.fin then Finish(s, seg) else Reaction(s, [], [])
      case LastAck => Reaction(if seg.flags.ack then s.(state := Closed, active := false) else s, [], [])
      case TimeWait => Reaction(s.(state := Closed, active := false), [], [])
      case _ => Reaction(s, [], [])
  }

  /** A data segment, a FIN or both. */
  function Deliver(s: Socket, seg: Segment): Reaction {
    var n := |seg.data|;
    var space := if |s.recv| <= RECV_BUF then RECV_BUF - |s.recv| else 0;
    var part := seg.data[..Min(n, space)];
    var s1 := if n > 0 then s.(recv := s.recv + part, ackNo := Mod32(seg.seqNo + n)) else s;
    var replies := if n > 0 then [s1] else [];
    if seg.flags.fin then
      var s2 := s1.(ackNo := Mod32(seg.seqNo + n + 1), state := CloseWait);
      Reaction(s2, part, replies + [s2])
    else
      Reaction(s1, part, replies)
  }

  function Finish(s: Socket, seg: Segment): Reaction {
    var s1 := s.(ackNo := Mod32(seg.seqNo + 1));
    Reaction(s1.(state := TimeWait), [], [s1])
  }

  // ----- The table -----

  predicate Matches(s: Socket, seg: Segment) {
    s.active && s.remoteIp == seg.srcIp && s.remotePort == seg.srcPort && s.localPort == seg.dstPort
  }

  /** The first socket that matches, or the number of sockets. */
  function FindMatch(socks: seq<Socket>, seg: Segment): (i: nat)
    ensures i <= |socks| && (i < |socks| ==> Matches(socks[i], seg))
    ensures forall j :: 0 <= j < i ==> !Matches(socks[j], seg)
  {
    if socks == [] || Matches(socks[0], seg) then 0
    else
      var i := FindMatch(socks[1..], seg);
      assert forall j :: 0 < j < 1 + i ==> socks[j] == socks[1..][j - 1];
      1 + i
  }

  function FindFree(socks: seq<Socket>): (i: nat)
    ensures i <= |socks| && (i < |socks| ==> !socks[i].active) && forall j :: 0 <= j < i ==> socks[j].active
  {
    if socks == [] || !socks[0].active then 0
    else
      var i := FindFree(socks[1..]);
      assert forall j :: 0 < j < 1 + i ==> socks[j] == socks[1..][j - 1];
      1 + i
  }

  function Acks(fd: nat, socks: seq<Socket>): seq<Sent> {
    if socks == [] then [] else [Sent(fd, ACK, socks[0].seqNo, socks[0].ackNo, [])] + Acks(fd, socks[1..])
  }

  function Put(s: State, fd: nat, sock: Socket): State
    requires fd < |s.socks|
  {
    s.(socks := s.socks[fd := sock])
  }

  function Opened(e: Event, port: nat): Socket
    requires e.Connect?
  {
    Socket(true, SynSent, e.myIp, port, e.ip, e.port, Mod32(e.isn + 1), 0, 0, [])
  }

  function Next(s: State, e: Event): (r: State)
    requires Shape(s)
    ensures Shape(r)
  {
    match e
    case Connect(_, _, _, isn) =>
      var fd := FindFree(s.socks);
      if fd == |s.socks| then s
      else
        Put(s, fd, Opened(e, s.nextPort)).(logs := s.logs[fd := Log([], [])], nextPort := (s.nextPort + 1) % 0x1_0000,
                                          sent := s.sent + [Sent(fd, SYN, Mod32(isn), 0, [])])
    case ConnectFails(fd) =>
      if fd < |s.socks| && s.socks[fd].state != Established
      then Put(s, fd, s.socks[fd].(active := false, state := Closed))
      else s
    case Close(fd) =>
      if fd < |s.socks| && s.socks[fd].active &&
        (s.socks[fd].state == Established || s.socks[fd].state == CloseWait) then
        var k := s.socks[fd];
        var s1 := Put(s, fd, k.(state := FinWait1, seqNo := Mod32(k.seqNo + 1)));
        s1.(sent := s.sent + [Sent(fd, FIN_ACK, k.seqNo, k.ackNo, [])])
      else s
    case CloseEnds(fd) => if fd < |s.socks| then Put(s, fd, ZEROED).(logs := s.logs[fd := Log([], [])]) else s
    case Send(fd, data) =>
      if fd < |s.socks| && s.socks[fd].active && s.socks[fd].state == Established then
        var k, d := s.socks[fd], data[..Min(|data|, TCP_SEGMENT_MAX)];
        Put(s, fd, k.(seqNo := Mod32(k.seqNo + |d|))).(sent := s.sent + OnWire(Sent(fd, PSH_ACK, k.seqNo, k.ackNo, d)))
      else s
    case Take(fd, max) =>
      if fd < |s.socks| then
        var k, n := s.socks[fd], Min(|s.socks[fd].recv|, max);
        Put(s, fd, k.(recv := k.recv[n..])).(logs := s.logs[fd := s.logs[fd].(taken := s.logs[fd].taken + k.recv[..n])])
      else s
    case Arrive(seg) =>
      var fd := FindMatch(s.socks, seg);
      if !seg.ok || fd == |s.socks| then s
      else
        var r := React(s.socks[fd], seg);
        Put(s, fd, r.sock).(logs := s.logs[fd := s.logs[fd].(accepted := s.logs[fd].accepted + r.accepted)],
                           sent := s.sent + Acks(fd, r.replies))
  }

  function Run(s: State, es: seq<Event>): (r: State)
    requires Shape(s)
    ensures Shape(r)
    decreases |es|
  {
    if es == [] then s else Run(Next(s, es[0]), es[1..])
  }

  const START :=
    State([ZEROED, ZEROED, ZEROED, ZEROED], [Log([], []), Log([], []), Log([], []), Log([], [])], [], 49152)

  // ----- What every run keeps -----

  /** Active exactly when not closed, in one of the states that are used; bytes read plus
      bytes buffered are the bytes accepted. */
  ghost predicate SockInv(k: Socket, l: Log) {
    && (k.active <==> k.state != Closed)
    && k.state !in {SynReceived, Closing, LastAck}
    && |k.recv| <= RECV_BUF
    && l.taken + k.recv == l.accepted
    && (k.state == SynSent ==> l.accepted == [])
  }

  ghost predicate Inv(s: State) {
    Shape(s) && forall fd :: 0 <= fd < TCP_MAX_SOCKETS ==> SockInv(s.socks[fd], s.logs[fd])
  }

  lemma ReactInv(k: Socket, l: Log, seg: Segment)
    requires SockInv(k, l)
    ensures SockInv(React(k, seg).sock, l.(accepted := l.accepted + React(k, seg).accepted))
  {
    var r := React(k, seg);
    assert l.accepted + [] == l.accepted;
    assert l.taken + (k.recv + r.accepted) == l.accepted + r.accepted;
  }

  lemma TakeInv(k: Socket, l: Log, n: nat)
    requires SockInv(k, l) && n <= |k.recv|
    ensures SockInv(k.(recv := k.recv[n..]), l.(taken := l.taken + k.recv[..n]))
  {
    assert l.taken + k.recv[..n] + k.recv[n..] == l.accepted;
  }

  lemma StepInv(s: State, e: Event)
    requires Inv(s)
    ensures Inv(Next(s, e))
  {
    hide React, FindMatch, FindFree, Acks;
    match e
    case Take(fd, max) =>
      if fd < TCP_MAX_SOCKETS {
        TakeInv(s.socks[fd], s.logs[fd], Min(|s.socks[fd].recv|, max));
      }
    case Arrive(seg) =>
      var fd := FindMatch(s.socks, seg);
      if fd < TCP_MAX_SOCKETS {
        ReactInv(s.socks[fd], s.logs[fd], seg);
      }
    case _ =>
  }

  lemma {:induction false} RunInv(s: State, es: seq<Event>)
    requires Inv(s)
    ensures Inv(Run(s, es))
    decreases |es|
  {
    hide Inv, Next;
    assert Shape(s) by { InvShape(s); }
    if es != [] {
      StepInv(s, es[0]);
      RunInv(Next(s, es[0]), es[1..]);
    }
  }

  lemma InvShape(s: State)
    requires Inv(s)
    ensures Shape(s)
  {
  }

  // ----- States only climb -----

  function Rank(state: TcpState): nat {
    match state
    case SynSent => 0
    case Established => 1
    case CloseWait => 2
    case FinWait1 => 3
    case FinWait2 => 4
    case TimeWait => 5
    case _ => 6
  }

  /** Until the socket is opened again, no event takes its state back. */
  lemma StepClimbs(s: State, e: Event, fd: nat)
    requires Inv(s) && fd < TCP_MAX_SOCKETS
    ensures Rank(s.socks[fd].state) <= Rank(Next(s, e).socks[fd].state) ||
            (e.Connect? && s.socks[fd].state == Closed && Next(s, e).socks[fd].state == SynSent)
  {
    hide FindMatch, FindFree, Acks;
  }

  /** No event of `es` opens socket `fd`. */
  ghost predicate NeverOpens(s: State, es: seq<Event>, fd: nat)
    requires Shape(s)
    decreases |es|
  {
    es == [] || (!(es[0].Connect? && FindFree(s.socks) == fd) && NeverOpens(Next(s, es[0]), es[1..], fd))
  }

  /** Over any run between two connects, the state only climbs. */
  lemma {:induction false} RunClimbs(s: State, es: seq<Event>, fd: nat)
    requires Inv(s) && fd < TCP_MAX_SOCKETS && NeverOpens(s, es, fd)
    ensures Rank(s.socks[fd].state) <= Rank(Run(s, es).socks[fd].state)
    decreases |es|
  {
    if es != [] {
      if es[0].Connect? {
        NotOpened(s, es[0], fd);
      }
      StepClimbs(s, es[0], fd);
      StepInv(s, es[0]);
      hide Next, Inv;
      RunClimbs(Next(s, es[0]), es[1..], fd);
    }
  }

  lemma NotOpened(s: State, e: Event, fd: nat)
    requires Shape(s) && fd < TCP_MAX_SOCKETS && e.Connect? && FindFree(s.socks) != fd
    ensures Next(s, e).socks[fd] == s.socks[fd]
  {
    hide FindFree;
  }

  // ----- What was accepted -----

  /** Segment `e.seg` comes to socket `fd` with an established connection. */
  ghost predicate Hits(s: State, e: Event, fd: nat)
    requires Shape(s) && fd < TCP_MAX_SOCKETS
  {
    && e.Arrive? && e.seg.ok && FindMatch(s.socks, e.seg) == fd
    && s.socks[fd].state == Established && e.seg.flags.ack && !e.seg.flags.rst
  }

  function Room(k: Socket): nat { if |k.recv| <= RECV_BUF then RECV_BUF - |k.recv| else 0 }

  /** The part of an arriving payload that there is room for. */
  ghost function Kept(s: State, e: Event, fd: nat): seq<Byte>
    requires Shape(s) && fd < TCP_MAX_SOCKETS
  {
    if Hits(s, e, fd) then e.seg.data[..Min(|e.seg.data|, Room(s.socks[fd]))] else []
  }

  /** Socket `fd` is opened, or cleared. */
  ghost predicate Resets(s: State, e: Event, fd: nat)
    requires Shape(s)
  {
    (e.Connect? && FindFree(s.socks) == fd) || e == CloseEnds(fd)
  }

  /** The kept payload prefixes of the run `es` since the last reset, joined, after `before`. */
  ghost function Received(s: State, es: seq<Event>, fd: nat, before: seq<Byte>): seq<Byte>
    requires Shape(s) && fd < TCP_MAX_SOCKETS
    decreases |es|
  {
    if es == [] then before
    else Received(Next(s, es[0]), es[1..], fd, if Resets(s, es[0], fd) then [] else before + Kept(s, es[0], fd))
  }

  lemma ReactKeeps(k: Socket, l: Log, seg: Segment)
    requires SockInv(k, l)
    ensures React(k, seg).accepted ==
            if k.state == Established && seg.flags.ack && !seg.flags.rst then seg.data[..Min(|seg.data|, Room(k))]
            else []
  {
    hide Mod32;
  }

  lemma StepAccepts(s: State, e: Event, fd: nat)
    requires Inv(s) && fd < TCP_MAX_SOCKETS
    ensures Next(s, e).logs[fd].accepted == if Resets(s, e, fd) then [] else s.logs[fd].accepted + Kept(s, e, fd)
  {
    hide React, FindMatch, FindFree, Acks, Mod32, SockInv;
    assert s.logs[fd].accepted + [] == s.logs[fd].accepted;
    if e.Arrive? && e.seg.ok && FindMatch(s.socks, e.seg) == fd {
      ReactKeeps(s.socks[fd], s.logs[fd], e.seg);
    }
  }

  /** Over any run, the bytes accepted are the payload prefixes that there was room for, in the
      order of arrival. */
  lemma {:induction false} AcceptedIsReceived(s: State, es: seq<Event>, fd: nat)
    requires Inv(s) && fd < TCP_MAX_SOCKETS
    ensures Run(s, es).logs[fd].accepted == Received(s, es, fd, s.logs[fd].accepted)
    decreases |es|
  {
    hide Next, Kept, Resets;
    if es != [] {
      StepAccepts(s, es[0], fd);
      StepInv(s, es[0]);
      hide Inv;
      AcceptedIsReceived(Next(s, es[0]), es[1..], fd);
    }
  }

  /** In every reachable state a socket is active exactly when it is not CLOSED, and the bytes
      read and the bytes buffered, joined, are the payload prefixes that arrived and fitted. */
  lemma EveryRun(es: seq<Event>, fd: nat)
    requires fd < TCP_MAX_SOCKETS
    ensures var s := Run(START, es);
            && (s.socks[fd].active <==> s.socks[fd].state != Closed)
            && s.logs[fd].taken + s.socks[fd].recv == Received(START, es, fd, [])
            && |s.socks[fd].recv| <= RECV_BUF
  {
    assert Inv(START);
    hide Run, Received;
    RunInv(START, es);
    AcceptedIsReceived(START, es, fd);
  }

  // ----- A peer that sends a stream -----

  /** The data segments that come to socket `fd` in a run, in order. */
  ghost function DataSegments(s: State, es: seq<Event>, fd: nat): seq<Segment>
    requires Shape(s) && fd < TCP_MAX_SOCKETS
    decreases |es|
  {
    if es == [] then []
    else
      (if Hits(s, es[0], fd) && es[0].seg.data != [] then [es[0].seg] else [])
      + DataSegments(Next(s, es[0]), es[1..], fd)
  }

  function Length(segs: seq<Segment>): nat {
    if segs == [] then 0 else |segs[0].data| + Length(segs[1..])
  }

  /** The segments carry `stream` from offset `off` on, one after the other, each with the
      sequence number of its first byte. */
  ghost predicate Carries(segs: seq<Segment>, isn: nat, stream: seq<Byte>, off: nat) {
    off <= |stream| &&
    (segs == [] ||
     (var n := |segs[0].data|;
      && segs[0].seqNo == Mod32(isn + 1 + off) && off + n <= |stream| && segs[0].data == stream[off..off + n]
      && Carries(segs[1..], isn, stream, off + n)))
  }

  /** Every data segment fits the buffer when it comes. */
  ghost predicate AllFit(s: State, es: seq<Event>, fd: nat)
    requires Shape(s) && fd < TCP_MAX_SOCKETS
    decreases |es|
  {
    es == [] || ((Hits(s, es[0], fd) ==> |es[0].seg.data| <= Room(s.socks[fd])) && AllFit(Next(s, es[0]), es[1..], fd))
  }

  /** The segment answers the SYN of a socket that has just sent it. */
  predicate Answers(seg: Segment, k: Socket) {
    k.state == SynSent && seg.flags.syn && seg.flags.ack && seg.ackNo == k.seqNo
  }

  /** The event neither resets the socket nor opens the connection with another initial
      sequence number than `isn`. */
  ghost predicate SamePeer(s: State, e: Event, fd: nat, isn: nat)
    requires Shape(s) && fd < TCP_MAX_SOCKETS
  {
    && !Resets(s, e, fd)
    && (e.Arrive? && e.seg.ok && FindMatch(s.socks, e.seg) == fd && Answers(e.seg, s.socks[fd]) ==> e.seg.seqNo == isn)
  }

  ghost predicate OneConnection(s: State, es: seq<Event>, fd: nat, isn: nat)
    requires Shape(s) && fd < TCP_MAX_SOCKETS
    decreases |es|
  {
    es == [] || (SamePeer(s, es[0], fd, isn) && OneConnection(Next(s, es[0]), es[1..], fd, isn))
  }

  /** The first `off` bytes of the stream have been accepted, and are acknowledged. */
  ghost predicate UpTo(k: Socket, l: Log, isn: nat, stream: seq<Byte>, off: nat) {
    && off <= |stream| && l.accepted == stream[..off]
    && (k.state == Established ==> k.ackNo == Mod32(isn + 1 + off))
  }

  lemma ModAdd(a: nat, n: nat)
    ensures Mod32(Mod32(a) + n) == Mod32(a + n)
  {
    var q, x := a / 0x1_0000_0000, Mod32(a) + n;
    Arith.Unique(a + n, 0x1_0000_0000, q + x / 0x1_0000_0000, x % 0x1_0000_0000);
  }

  /** A data segment moves the socket on by its length; other segments leave it where it is. */
  lemma ReactUpTo(k: Socket, l: Log, seg: Segment, isn: nat, stream: seq<Byte>, off: nat)
    requires SockInv(k, l) && UpTo(k, l, isn, stream, off)
    requires Answers(seg, k) ==> seg.seqNo == isn
    requires k.state == Established && seg.flags.ack && !seg.flags.rst && seg.data != [] ==>
      var n := |seg.data|;
      n <= Room(k) && seg.seqNo == Mod32(isn + 1 + off) && off + n <= |stream| && seg.data == stream[off..off + n]
    ensures var n := if k.state == Established && seg.flags.ack && !seg.flags.rst then |seg.data| else 0;
            var r := React(k, seg);
            UpTo(r.sock, l.(accepted := l.accepted + r.accepted), isn, stream, off + n)
  {
    hide Mod32;
    var r := React(k, seg);
    assert l.accepted + [] == l.accepted;
    if k.state == Established && seg.flags.ack && !seg.flags.rst {
      assert seg.data[..|seg.data|] == seg.data;
      ModAdd(isn + 1 + off, |seg.data|);
      if seg.data != [] {
        assert stream[..off] + stream[off..off + |seg.data|] == stream[..off + |seg.data|];
      }
    }
  }

  lemma StepUpTo(s: State, e: Event, fd: nat, isn: nat, stream: seq<Byte>, off: nat)
    requires Inv(s) && fd < TCP_MAX_SOCKETS && UpTo(s.socks[fd], s.logs[fd], isn, stream, off) &&
             SamePeer(s, e, fd, isn)
    requires Brings(s, e, fd, isn, stream, off)
    ensures UpTo(Next(s, e).socks[fd], Next(s, e).logs[fd], isn, stream, off + Moved(s, e, fd))
  {
    hide React, FindMatch, FindFree, Acks, Mod32, SockInv, UpTo;
    if e.Arrive? && e.seg.ok && FindMatch(s.socks, e.seg) == fd {
      ReactUpTo(s.socks[fd], s.logs[fd], e.seg, isn, stream, off);
    } else {
      SameSocket(s, e, fd, isn, stream, off);
    }
  }

  lemma SameSocket(s: State, e: Event, fd: nat, isn: nat, stream: seq<Byte>, off: nat)
    requires Inv(s) && fd < TCP_MAX_SOCKETS && UpTo(s.socks[fd], s.logs[fd], isn, stream, off) && !Resets(s, e, fd)
    requires !(e.Arrive? && e.seg.ok && FindMatch(s.socks, e.seg) == fd)
    ensures UpTo(Next(s, e).socks[fd], Next(s, e).logs[fd], isn, stream, off)
  {
    hide React, FindMatch, FindFree, Acks, Mod32, SockInv;
  }

  /** For any run within one connection: if the data segments that come carry a peer's stream
      in order, and each fits when it comes, then exactly these bytes have been accepted and
      are read or buffered, and the acknowledgement number is the peer's initial sequence
      number plus 1 plus their number, modulo 2^32, while the connection is established.  When
      all of the stream has come and nothing is buffered, the reader has the stream. */
  lemma {:induction false} StreamDelivered(s: State, es: seq<Event>, fd: nat, isn: nat, stream: seq<Byte>, off: nat)
    requires Inv(s) && fd < TCP_MAX_SOCKETS && UpTo(s.socks[fd], s.logs[fd], isn, stream, off)
    requires OneConnection(s, es, fd, isn) && AllFit(s, es, fd) && Carries(DataSegments(s, es, fd), isn, stream, off)
    ensures var r, end := Run(s, es), off + Length(DataSegments(s, es, fd));
            && UpTo(r.socks[fd], r.logs[fd], isn, stream, end)
            && r.logs[fd].taken + r.socks[fd].recv == stream[..end]
            && (end == |stream| && r.socks[fd].recv == [] ==> r.logs[fd].taken == stream)
    decreases |es|
  {
    hide Next, UpTo, Hits, SamePeer, Room, DataSegments, Carries, Length, Moved;
    if es == [] {
      NothingComes(s, fd);
      AllRead(s, fd, isn, stream, off);
    } else {
      FirstComes(s, es, fd, isn, stream, off);
      StepUpTo(s, es[0], fd, isn, stream, off);
      StepInv(s, es[0]);
      hide Inv;
      StreamDelivered(Next(s, es[0]), es[1..], fd, isn, stream, off + Moved(s, es[0], fd));
    }
  }

  /** The number of bytes an event brings to the socket. */
  ghost function Moved(s: State, e: Event, fd: nat): nat
    requires Shape(s) && fd < TCP_MAX_SOCKETS
  {
    if Hits(s, e, fd) then |e.seg.data| else 0
  }

  lemma NothingComes(s: State, fd: nat)
    requires Shape(s) && fd < TCP_MAX_SOCKETS
    ensures Length(DataSegments(s, [], fd)) == 0
  {
  }

  /** The event brings the stretch of the stream at `off`, and the others what follows it. */
  ghost predicate Brings(s: State, e: Event, fd: nat, isn: nat, stream: seq<Byte>, off: nat)
    requires Shape(s) && fd < TCP_MAX_SOCKETS
  {
    Hits(s, e, fd) && e.seg.data != [] ==>
      var n := |e.seg.data|;
      n <= Room(s.socks[fd]) && e.seg.seqNo == Mod32(isn + 1 + off) && off + n <= |stream| &&
        e.seg.data == stream[off..off + n]
  }

  lemma FirstComes(s: State, es: seq<Event>, fd: nat, isn: nat, stream: seq<Byte>, off: nat)
    requires Shape(s) && fd < TCP_MAX_SOCKETS && es != []
    requires AllFit(s, es, fd) && Carries(DataSegments(s, es, fd), isn, stream, off)
    ensures Brings(s, es[0], fd, isn, stream, off)
    ensures var segs := DataSegments(Next(s, es[0]), es[1..], fd);
            && Carries(segs, isn, stream, off + Moved(s, es[0], fd))
            && Length(DataSegments(s, es, fd)) == Moved(s, es[0], fd) + Length(segs)
  {
    hide Next, Hits, Mod32;
    var segs := DataSegments(Next(s, es[0]), es[1..], fd);
    if Hits(s, es[0], fd) && es[0].Arrive? && es[0].seg.data != [] {
      assert DataSegments(s, es, fd) == [es[0].seg] + segs;
      assert DataSegments(s, es, fd)[1..] == segs;
    } else {
      HitsArrive(s, es[0], fd);
      assert DataSegments(s, es, fd) == segs;
    }
  }

  lemma HitsArrive(s: State, e: Event, fd: nat)
    requires Shape(s) && fd < TCP_MAX_SOCKETS
    ensures Hits(s, e, fd) ==> e.Arrive?
  {
  }

  lemma AllRead(s: State, fd: nat, isn: nat, stream: seq<Byte>, off: nat)
    requires Inv(s) && fd < TCP_MAX_SOCKETS && UpTo(s.socks[fd], s.logs[fd], isn, stream, off)
    ensures off <= |stream| && s.logs[fd].taken + s.socks[fd].recv == stream[..off]
    ensures off == |stream| && s.socks[fd].recv == [] ==> s.logs[fd].taken == stream
  {
    assert off == |stream| ==> stream[..off] == stream;
  }

  /** A data segment with the expected sequence number keeps the acknowledgement number in
      step exactly when it fits: bytes that do not fit are acknowledged and lost. */
  lemma AckExact(k: Socket, l: Log, seg: Segment)
    requires SockInv(k, l) && k.state == Established && k.ackNo == Mod32(k.remoteSeq + 1 + |l.accepted|)
    requires seg.flags == PSH_ACK && seg.seqNo == k.ackNo && 0 < |seg.data| <= 1480
    ensures var r := React(k, seg);
            r.sock.ackNo == Mod32(k.remoteSeq + 1 + |l.accepted + r.accepted|) <==> |k.recv| + |seg.data| <= RECV_BUF
  {
    var a, n, m := k.remoteSeq + 1 + |l.accepted|, |seg.data|, |React(k, seg).accepted|;
    hide React, Mod32;
    assert React(k, seg).sock.ackNo == Mod32(Mod32(a) + n) && m == Min(n, RECV_BUF - |k.recv|) by {
      DeliverCase(k, seg);
    }
    ModAdd(a, n);
    ModDistinct(a + m, n - m);
  }

  /** A run that loses bytes: after a handshake, three segments of 1460 bytes, the most that
      an Ethernet frame holds, and no read. */
  const LOSING: seq<Event> :=
    [Connect(1, 80, 2, 0)] + ([Arrive(SYN_ACK)] +
      ([Arrive(DataAt(0))] + ([Arrive(DataAt(1460))] + ([Arrive(DataAt(2920))] + []))))

  const SYN_ACK := Segment(true, 1, 80, 49152, 0, 1, Flags(false, true, false, false, true), [])

  /** 1460 bytes of the stream at `off`, from a peer whose initial sequence number is 0. */
  function DataAt(off: nat): Segment {
    Segment(true, 1, 80, 49152, Mod32(1 + off), 1, PSH_ACK, seq(1460, _ => 0))
  }

  /** The first socket is connected, the rest of the stream starts at `off`, and `n` bytes are
      buffered. */
  ghost predicate Awaits(s: State, off: nat, n: nat) {
    && Inv(s) && var k := s.socks[0];
       && k.state == Established && k.remoteIp == 1 && k.remotePort == 80 && k.localPort == 49152
       && k.remoteSeq == 0 && k.ackNo == Mod32(1 + off) && |k.recv| == n == |s.logs[0].accepted|
  }

  lemma Handshake()
    ensures Awaits(Next(Next(START, Connect(1, 80, 2, 0)), Arrive(SYN_ACK)), 0, 0)
  {
    var s1 := Next(START, Connect(1, 80, 2, 0));
    StepInv(START, Connect(1, 80, 2, 0));
    StepInv(s1, Arrive(SYN_ACK));
    assert FindFree(START.socks) == 0;
    assert s1.socks[0].state == SynSent && Matches(s1.socks[0], SYN_ACK);
    assert FindMatch(s1.socks, SYN_ACK) == 0;
  }

  lemma DataComes(s: State, off: nat, n: nat)
    requires Awaits(s, off, n)
    ensures Awaits(Next(s, Arrive(DataAt(off))), off + 1460, n + Min(1460, RECV_BUF - n))
  {
    hide Inv, Mod32;
    var seg := DataAt(off);
    StepInv(s, Arrive(seg));
    InvShape(s);
    FirstFits(s);
    DataReact(s.socks[0], off);
    hide React;
    assert FindMatch(s.socks, seg) == 0;
    ModAdd(1 + off, 1460);
  }

  lemma FirstFits(s: State)
    requires Inv(s)
    ensures |s.socks[0].recv| <= RECV_BUF && (s.socks[0].active <==> s.socks[0].state != Closed)
  {
  }

  lemma DataReact(k: Socket, off: nat)
    requires k.state == Established && |k.recv| <= RECV_BUF
    ensures var r, n := React(k, DataAt(off)), Min(1460, RECV_BUF - |k.recv|);
            |r.accepted| == n && r.sock == k.(recv := k.recv + r.accepted, ackNo := Mod32(Mod32(1 + off) + 1460))
  {
    hide Mod32;
  }

  lemma RunFirst(s: State, e: Event, es: seq<Event>)
    requires Shape(s)
    ensures Run(s, [e] + es) == Run(Next(s, e), es)
  {
    hide Next;
    assert ([e] + es)[1..] == es;
  }

  /** 4380 bytes are acknowledged, 4096 were accepted. */
  lemma FullBufferLoses()
    ensures var s := Run(START, LOSING);
            && s.socks[0].state == Established && |s.logs[0].accepted| == 4096
            && s.socks[0].ackNo == Mod32(s.socks[0].remoteSeq + 1 + 4380)
  {
    hide Awaits, Next, DataAt, SYN_ACK, Mod32, Run;
    var d0, d1, d2 := Arrive(DataAt(0)), Arrive(DataAt(1460)), Arrive(DataAt(2920));
    var s0 := Next(START, Connect(1, 80, 2, 0));
    var s1 := Next(s0, Arrive(SYN_ACK));
    var s2 := Next(s1, d0);
    var s3 := Next(s2, d1);
    var s4 := Next(s3, d2);
    Handshake();
    DataComes(s1, 0, 0);
    DataComes(s2, 1460, 1460);
    DataComes(s3, 2920, 2920);
    RunFirst(START, Connect(1, 80, 2, 0), [Arrive(SYN_ACK)] + ([d0] + ([d1] + ([d2] + []))));
    RunFirst(s0, Arrive(SYN_ACK), [d0] + ([d1] + ([d2] + [])));
    RunFirst(s1, d0, [d1] + ([d2] + []));
    RunFirst(s2, d1, [d2] + []);
    RunFirst(s3, d2, []);
    RunNone(s4);
    AwaitsMeans(s4, 4380, 4096);
  }

  lemma RunNone(s: State)
    requires Shape(s)
    ensures Run(s, []) == s
  {
  }

  lemma AwaitsMeans(s: State, off: nat, n: nat)
    requires Awaits(s, off, n)
    ensures Inv(s) && |s.socks| == |s.logs| == TCP_MAX_SOCKETS
    ensures s.socks[0].state == Established && s.socks[0].remoteSeq == 0
    ensures s.socks[0].ackNo == Mod32(1 + off) && |s.logs[0].accepted| == n
  {
  }

  lemma DeliverCase(k: Socket, seg: Segment)
    requires |k.recv| <= RECV_BUF && k.state == Established && seg.flags == PSH_ACK && |seg.data| > 0
    ensures React(k, seg).sock.ackNo == Mod32(seg.seqNo + |seg.data|)
    ensures |React(k, seg).accepted| == Min(|seg.data|, RECV_BUF - |k.recv|)
  {
    hide Mod32;
  }

  lemma ModDistinct(a: nat, d: nat)
    requires d <= 1480
    ensures Mod32(a) == Mod32(a + d) <==> d == 0
  {
  }

  // ----- What tcp_send sends -----

  /** tcp_send counts up to 4096 bytes as sent, and moves the sequence number on by so many.
      They go out, in one segment, exactly when they are at most 1460; otherwise none does. */
  lemma SendExact(s: State, fd: nat, data: seq<Byte>)
    requires Inv(s) && fd < TCP_MAX_SOCKETS && s.socks[fd].state == Established
    ensures var k, r := s.socks[fd], Next(s, Send(fd, data));
            && r.socks[fd].seqNo == Mod32(k.seqNo + Min(|data|, TCP_SEGMENT_MAX))
            && (r.sent == s.sent + [Sent(fd, PSH_ACK, k.seqNo, k.ackNo, data)] <==> |data| <= 1460)
            && (r.sent == s.sent <==> |data| > 1460)
  {
    hide Mod32;
    var r := Next(s, Send(fd, data));
    if |data| <= 1460 {
      assert data[..|data|] == data;
      assert |r.sent| == |s.sent| + 1;
    } else {
      assert r.sent == s.sent + [] == s.sent;
    }
  }

  /** After a handshake, 1461 bytes are counted as sent, and no segment goes out. */
  lemma LongSendLost()
    ensures var s := Run(START, [Connect(1, 80, 2, 0)] + ([Arrive(SYN_ACK)] + []));
            var r := Next(s, Send(0, seq(1461, _ => 0)));
            s.socks[0].state == Established && r.sent == s.sent && r.socks[0].seqNo == Mod32(s.socks[0].seqNo + 1461)
  {
    hide Awaits, Next, SYN_ACK, Mod32, Run;
    var s0 := Next(START, Connect(1, 80, 2, 0));
    var s1 := Next(s0, Arrive(SYN_ACK));
    Handshake();
    RunFirst(START, Connect(1, 80, 2, 0), [Arrive(SYN_ACK)] + []);
    RunFirst(s0, Arrive(SYN_ACK), []);
    RunNone(s1);
    AwaitsMeans(s1, 0, 0);
    SendExact(s1, 0, seq(1461, _ => 0));
  }

  // ----- What an arriving segment does -----

  /** The state it leads to: a reset closes, the answer to the SYN establishes, a FIN ends the
      peer's stream, and an ACK of our own FIN is noted. */
  function StateAfter(k: Socket, seg: Segment): TcpState {
    var f := seg.flags;
    if f.rst then Closed
    else if Answers(seg, k) then Established
    else if k.state == Established && f.ack && f.fin then CloseWait
    else if (k.state == FinWait1 || k.state == FinWait2) && f.fin then TimeWait
    else if k.state == FinWait1 && f.ack then FinWait2
    else if k.state == TimeWait then Closed
    else k.state
  }

  /** The acknowledgement numbers of the segments sent back: one for the answer to the SYN, one
      for data, and one for a FIN, which counts one more. */
  function AckNumbers(k: Socket, seg: Segment): seq<nat> {
    var f, n := seg.flags, |seg.data|;
    if f.rst then []
    else if Answers(seg, k) then [(seg.seqNo + 1) % 0x1_0000_0000]
    else if k.state == Established && f.ack then
      (if n > 0 then [(seg.seqNo + n) % 0x1_0000_0000] else [])
      + (if f.fin then [(seg.seqNo + n + 1) % 0x1_0000_0000] else [])
    else if (k.state == FinWait1 || k.state == FinWait2) && f.fin then [(seg.seqNo + 1) % 0x1_0000_0000]
    else []
  }

  /** ACK segments of socket `fd` with these acknowledgement numbers. */
  function AckSegments(fd: nat, seqNo: nat, acks: seq<nat>): seq<Sent> {
    if acks == [] then []
    else [Sent(fd, Flags(false, false, false, false, true), seqNo, acks[0], [])] + AckSegments(fd, seqNo, acks[1..])
  }

  /** An arriving segment that passes the tests goes to the first socket it matches, and to no
      other: its state, acknowledgement number and buffer, and the segments sent back. */
  lemma ArrivalExact(s: State, seg: Segment, fd: nat)
    requires Inv(s) && fd < TCP_MAX_SOCKETS && seg.ok && FindMatch(s.socks, seg) == fd
    ensures var k, r, acks := s.socks[fd], Next(s, Arrive(seg)), AckNumbers(s.socks[fd], seg);
            && r.socks == s.socks[fd := r.socks[fd]] && r.nextPort == s.nextPort
            && r.sent == s.sent + AckSegments(fd, k.seqNo, acks)
            && var k' := r.socks[fd];
               && k'.state == StateAfter(k, seg) && k'.active == (k'.state != Closed)
               && k'.ackNo == (if acks == [] then k.ackNo else acks[|acks| - 1])
               && k'.recv == k.recv + Kept(s, Arrive(seg), fd)
               && k'.seqNo == k.seqNo && k'.localIp == k.localIp && k'.localPort == k.localPort
               && k'.remoteIp == k.remoteIp && k'.remotePort == k.remotePort
               && k'.remoteSeq == (if Answers(seg, k) && !seg.flags.rst then seg.seqNo else k.remoteSeq)
  {
    var k := s.socks[fd];
    assert SockInv(k, s.logs[fd]) && k.active;
    ReactExact(k, s.logs[fd], seg, fd);
    assert s.socks[fd := k] == s.socks;
    hide React, FindMatch, Acks, AckSegments, AckNumbers, StateAfter, SockInv;
  }

  lemma ReactExact(k: Socket, l: Log, seg: Segment, fd: nat)
    requires SockInv(k, l) && k.active
    ensures var r, acks := React(k, seg), AckNumbers(k, seg);
            && Acks(fd, r.replies) == AckSegments(fd, k.seqNo, acks)
            && r.sock.state == StateAfter(k, seg) && r.sock.active == (r.sock.state != Closed)
            && r.sock.ackNo == (if acks == [] then k.ackNo else acks[|acks| - 1])
            && r.sock.recv == k.recv + r.accepted
            && r.sock.seqNo == k.seqNo && r.sock.localIp == k.localIp && r.sock.localPort == k.localPort
            && r.sock.remoteIp == k.remoteIp && r.sock.remotePort == k.remotePort
            && r.sock.remoteSeq == (if Answers(seg, k) && !seg.flags.rst then seg.seqNo else k.remoteSeq)
            && r.accepted == (if k.state == Established && seg.flags.ack && !seg.flags.rst
                              then seg.data[..Min(|seg.data|, Room(k))] else [])
  {
    ReactKeeps(k, l, seg);
    AcksUpToTwo(fd, k.seqNo, React(k, seg).replies, AckNumbers(k, seg));
    assert k.recv + [] == k.recv;
  }

  lemma AcksUpToTwo(fd: nat, seqNo: nat, ks: seq<Socket>, acks: seq<nat>)
    requires |ks| == |acks| <= 2 && forall i :: 0 <= i < |ks| ==> ks[i].seqNo == seqNo && ks[i].ackNo == acks[i]
    ensures Acks(fd, ks) == AckSegments(fd, seqNo, acks)
  {
    if |ks| == 2 {
      assert Acks(fd, ks[1..][1..]) == [];
    }
  }

  /** A segment that fails the tests or matches no socket changes nothing. */
  lemma ArrivalIgnored(s: State, seg: Segment)
    requires Shape(s) && (!seg.ok || FindMatch(s.socks, seg) == TCP_MAX_SOCKETS)
    ensures Next(s, Arrive(seg)) == s
  {
    hide FindMatch, React;
  }

  // ----- The end of the peer's stream -----

  /** The peer's FIN, or a reset, comes to socket `fd`. */
  ghost predicate Closes(s: State, e: Event, fd: nat)
    requires Shape(s) && fd < TCP_MAX_SOCKETS
  {
    && e.Arrive? && e.seg.ok && FindMatch(s.socks, e.seg) == fd
    && (e.seg.flags.rst || (e.seg.flags.ack && e.seg.flags.fin))
  }

  ghost predicate Ended(s: State, es: seq<Event>, fd: nat)
    requires Shape(s) && fd < TCP_MAX_SOCKETS
    decreases |es|
  {
    es != [] && (Closes(s, es[0], fd) || Ended(Next(s, es[0]), es[1..], fd))
  }

  /** The program neither opens, closes nor clears socket `fd`. */
  ghost predicate LeftOpen(s: State, es: seq<Event>, fd: nat)
    requires Shape(s) && fd < TCP_MAX_SOCKETS
    decreases |es|
  {
    es == [] ||
    (&& !Resets(s, es[0], fd) && es[0] != Close(fd) && es[0] != ConnectFails(fd)
     && LeftOpen(Next(s, es[0]), es[1..], fd))
  }

  predicate PeerDone(k: Socket) { k.state == CloseWait || k.state == Closed }

  lemma StepEnds(s: State, e: Event, fd: nat)
    requires Inv(s) && fd < TCP_MAX_SOCKETS && (s.socks[fd].state == Established || PeerDone(s.socks[fd]))
    requires !Resets(s, e, fd) && e != Close(fd) && e != ConnectFails(fd)
    ensures var k := Next(s, e).socks[fd];
            && (k.state == Established || PeerDone(k))
            && (PeerDone(k) <==> PeerDone(s.socks[fd]) || Closes(s, e, fd))
  {
    hide React, FindMatch, FindFree, Acks, Mod32;
    if e.Arrive? && e.seg.ok && FindMatch(s.socks, e.seg) == fd {
      ReactExact(s.socks[fd], s.logs[fd], e.seg, fd);
    }
  }

  /** Over any run on an established connection that the program does not close: the connection
      is done exactly when the peer's FIN or a reset has come. */
  lemma {:induction false} RunEnds(s: State, es: seq<Event>, fd: nat)
    requires Inv(s) && fd < TCP_MAX_SOCKETS && (s.socks[fd].state == Established || PeerDone(s.socks[fd]))
    requires LeftOpen(s, es, fd)
    ensures PeerDone(Run(s, es).socks[fd]) <==> PeerDone(s.socks[fd]) || Ended(s, es, fd)
    ensures Run(s, es).socks[fd].state == Established || PeerDone(Run(s, es).socks[fd])
    decreases |es|
  {
    hide Next, Closes, Resets, PeerDone;
    if es != [] {
      StepEnds(s, es[0], fd);
      StepInv(s, es[0]);
      hide Inv;
      RunEnds(Next(s, es[0]), es[1..], fd);
    }
  }

  // ----- What the calls do -----

  /** tcp_connect takes the first free socket and sends a SYN with the initial sequence number,
      which it counts; the local port is the next one. */
  lemma ConnectExact(s: State, e: Event, fd: nat)
    requires Shape(s) && e.Connect? && fd < TCP_MAX_SOCKETS && !s.socks[fd].active
    requires forall j :: 0 <= j < fd ==> s.socks[j].active
    ensures var r := Next(s, e);
            && r.socks == s.socks[fd := r.socks[fd]] && r.nextPort == (s.nextPort + 1) % 0x1_0000
            && r.logs == s.logs[fd := Log([], [])]
            && r.sent == s.sent + [Sent(fd, Flags(false, true, false, false, false), e.isn % 0x1_0000_0000, 0, [])]
            && var k := r.socks[fd];
               && k.active && k.state == SynSent && k.seqNo == (e.isn + 1) % 0x1_0000_0000 && k.recv == []
               && k.localIp == e.myIp && k.localPort == s.nextPort && k.remoteIp == e.ip && k.remotePort == e.port
  {
    assert FindFree(s.socks) == fd;
  }

  /** Without a free socket nothing happens. */
  lemma ConnectRefused(s: State, e: Event)
    requires Shape(s) && e.Connect? && forall j :: 0 <= j < TCP_MAX_SOCKETS ==> s.socks[j].active
    ensures Next(s, e) == s
  {
  }

  /** A connect that has got no answer leaves its socket closed and free. */
  lemma ConnectFailsExact(s: State, fd: nat)
    requires Shape(s) && fd < TCP_MAX_SOCKETS && s.socks[fd].state != Established
    ensures var r := Next(s, ConnectFails(fd));
            && r == s.(socks := r.socks) && r.socks == s.socks[fd := r.socks[fd]]
            && !r.socks[fd].active && r.socks[fd].state == Closed
  {
  }

  /** tcp_close sends a FIN with an ACK, which it counts, when the connection is open for
      sending; in the end the socket is all zeroes. */
  lemma CloseExact(s: State, fd: nat)
    requires Inv(s) && fd < TCP_MAX_SOCKETS
    ensures var k, r := s.socks[fd], Next(s, Close(fd));
            if k.state == Established || k.state == CloseWait then
              && r.socks == s.socks[fd := k.(state := FinWait1, seqNo := (k.seqNo + 1) % 0x1_0000_0000)]
              && r.sent == s.sent + [Sent(fd, Flags(true, false, false, false, true), k.seqNo, k.ackNo, [])]
              && r.logs == s.logs && r.nextPort == s.nextPort
            else r == s
    ensures var r := Next(s, CloseEnds(fd));
            && r.socks == s.socks[fd := Socket(false, Closed, 0, 0, 0, 0, 0, 0, 0, [])]
            && r.sent == s.sent && r.nextPort == s.nextPort
  {
  }

  /** A read takes the first bytes of the buffer. */
  lemma TakeExact(s: State, fd: nat, max: nat)
    requires Inv(s) && fd < TCP_MAX_SOCKETS
    ensures var k, r := s.socks[fd], Next(s, Take(fd, max));
            && r == s.(socks := r.socks, logs := r.logs) && r.socks == s.socks[fd := k.(recv := r.socks[fd].recv)]
            && exists out :: |out| == Min(|k.recv|, max) && out + r.socks[fd].recv == k.recv
                             && r.logs[fd].taken == s.logs[fd].taken + out && r.logs[fd].accepted == s.logs[fd].accepted
  {
    var k, r := s.socks[fd], Next(s, Take(fd, max));
    var out := k.recv[..Min(|k.recv|, max)];
    assert out + r.socks[fd].recv == k.recv;
  }

  /** A segment goes to the first active socket with its addresses and ports. */
  lemma MatchExact(socks: seq<Socket>, seg: Segment, i: nat)
    requires i < |socks|
    ensures FindMatch(socks, seg) == i <==>
            && IsFor(socks[i], seg) && forall j :: 0 <= j < i ==> !IsFor(socks[j], seg)
  {
    var m := FindMatch(socks, seg);
    assert forall j :: 0 <= j < |socks| ==> IsFor(socks[j], seg) == Matches(socks[j], seg);
  }

  predicate IsFor(k: Socket, seg: Segment) {
    (k.remoteIp, k.remotePort, k.localPort) == (seg.srcIp, seg.srcPort, seg.dstPort) && k.active
  }
}
