/** The TCP socket (src/dev/net/tcp.cpp) as a step protocol.

    `Sock` is the value of one socket; the functions on it say what one locked section of the socket does. The class
    `Tcp4Socket` does the same in place. `Log` is the history of a connection; it says what has happened and no step
    looks at it. */
module Tcp {

  import opened Words

  const BUFFER: int := 0x1_0000
  /** The payload that fits into an IPv4 packet of 64 KiB beside the two headers of 20 bytes. */
  const MAX_PAYLOAD: int := 65496

  newtype byte = x: int | 0 <= x < 256

  datatype State = None | SynAck | ReceivedFin | ReceivedSynAck | SentFin | SentSyn | Connected | Listening

  datatype Segment = Segment(sequence: int, ackNumber: int, syn: bool, ack: bool, fin: bool, rst: bool, data: seq<byte>)

  /** What a woken handler thread is about to send. */
  datatype Work = Idle | SendSynAck | SendData(data: seq<byte>) | SendFin | SendAck | SendFinAck | SendHandshakeAck

  /** What one sequence number stands for. */
  datatype Item = Data(value: byte) | Fin | ClosingAck

  /** The history of a connection. */
  datatype Log = Log(
    // whether the own initial sequence number is chosen, and which it is
    isnSet: bool, isn: int,
    // whether the peer's initial sequence number is known, and which it is
    synced: bool, peerIsn: int,
    // what the sequence numbers sent and received so far stand for
    stream: seq<Item>, taken: seq<Item>,
    // the bytes put into the send buffer, put into the receive buffer, and read from it
    written: seq<byte>, delivered: seq<byte>, read: seq<byte>,
    // whether a packet was dropped because the receive buffer was full; whether the connection ended by FIN
    discarded: bool, closed: bool)

  datatype Sock = Sock(
    state: State, sequence: int, receivedSequence: int, pendingValid: bool, pendingSequence: int,
    doDisconnect: bool, expectFinAck: bool, finSent: bool,
    sendEvent: nat, sendBuffer: seq<byte>, receiveBuffer: seq<byte>, work: Work, log: Log)

  function Add(a: int, n: int): int { (a + n) % U32 }

  function Items(data: seq<byte>): (r: seq<Item>)
    ensures |r| == |data|
  {
    seq(|data|, i requires 0 <= i < |data| => Data(data[i]))
  }

  /** The bytes among the items. */
  function Bytes(items: seq<Item>): seq<byte>
  {
    if items == [] then []
    else if items[|items| - 1].Data? then Bytes(items[..|items| - 1]) + [items[|items| - 1].value]
    else Bytes(items[..|items| - 1])
  }

  // ---------------------------------------------------------------- one socket

  function Fresh(): Sock
  {
    Sock(None, 0, 0, false, 0, false, false, false, 0, [], [], Idle,
         Log(false, 0, false, 0, [], [], [], [], [], false, false))
  }

  function Connect(s: Sock, isn: int): (Sock, Segment)
  {
    (s.(state := SentSyn, sequence := Add(isn, 1), log := s.log.(isnSet := true, isn := isn)),
     Segment(isn, 0, true, false, false, false, []))
  }

  /** The socket that `accept` makes of the pending connection. */
  function Accepted(pending: int): Sock
  {
    Fresh().(state := SynAck, receivedSequence := pending, sendEvent := 1,
             log := Fresh().log.(synced := true, peerIsn := pending))
  }

  /** The segment carries the next expected number and acknowledges everything sent. */
  predicate InOrder(s: Sock, seg: Segment)
  {
    seg.ack && seg.sequence == Add(s.receivedSequence, 1) && seg.ackNumber == s.sequence
  }

  function AcceptData(s: Sock, seg: Segment): Sock
  {
    var full := |s.receiveBuffer| + |seg.data| > BUFFER;
    s.(state := if seg.fin then ReceivedFin else Connected,
       receivedSequence := Add(s.receivedSequence, |seg.data| + if seg.fin then 1 else 0),
       receiveBuffer := if full then s.receiveBuffer else s.receiveBuffer + seg.data,
       sendEvent := s.sendEvent + (if seg.fin then 1 else 0) + (if full then 0 else 1),
       log := s.log.(taken := s.log.taken + Items(seg.data) + (if seg.fin then [Fin] else []),
                     delivered := if full then s.log.delivered else s.log.delivered + seg.data,
                     discarded := s.log.discarded || full))
  }

  function ProcessPacket(s: Sock, seg: Segment): Sock
  {
    if seg.rst then s.(state := None)
    else if s.expectFinAck then
      if InOrder(s, seg) then s.(expectFinAck := false, finSent := true) else s
    else match s.state
      case Listening =>
        if seg.syn && !s.pendingValid then s.(pendingValid := true, pendingSequence := seg.sequence) else s
      case SynAck => if InOrder(s, seg) then s.(state := Connected) else s
      case SentSyn =>
        if seg.syn && seg.ack && seg.ackNumber == s.sequence
        then s.(state := ReceivedSynAck, receivedSequence := seg.sequence, sendEvent := s.sendEvent + 1,
                log := s.log.(synced := true, peerIsn := seg.sequence))
        else s
      case Connected => if InOrder(s, seg) then AcceptData(s, seg) else s
      case SentFin => if InOrder(s, seg) then s.(state := None, log := s.log.(closed := true)) else s
      case _ => s
  }

  /** The handler thread takes bytes out of the send buffer. */
  function TakeBytes(s: Sock): Sock
  {
    var n := Min(|s.sendBuffer|, MAX_PAYLOAD);
    s.(work := SendData(s.sendBuffer[..n]), sendBuffer := s.sendBuffer[n..])
  }

  /** The handler thread wakes and chooses what to send. */
  function Wake(s: Sock): Sock
    requires s.sendEvent > 0
  {
    var t := s.(sendEvent := s.sendEvent - 1);
    match s.state
    case SynAck => t.(work := SendSynAck)
    case Connected =>
      if s.sendBuffer != [] then TakeBytes(t) else t.(work := if s.doDisconnect then SendFin else SendAck)
    case ReceivedFin => t.(work := SendFinAck)
    case ReceivedSynAck => t.(work := SendHandshakeAck)
    case _ => t
  }

  /** What the handler thread sends. */
  function Outgoing(s: Sock, isn: int): Segment
  {
    Segment(if s.work.SendSynAck? then isn else s.sequence, Add(s.receivedSequence, 1), s.work.SendSynAck?, true,
            s.work.SendFin? || (s.work.SendFinAck? && !s.finSent), false, InHand(s.work))
  }

  /** The sequence numbers after the last one stand for `items`. */
  function Extend(s: Sock, items: seq<Item>): Sock
  {
    s.(sequence := Add(s.sequence, |items|), log := s.log.(stream := s.log.stream + items), work := Idle)
  }

  /** The handler thread has sent it. */
  function Sent(s: Sock, isn: int): Sock
  {
    match s.work
    case SendSynAck => s.(sequence := Add(isn, 1), log := s.log.(isnSet := true, isn := isn), work := Idle)
    case SendData(data) => Extend(s, Items(data))
    case SendFin => Extend(s, [Fin]).(doDisconnect := false, expectFinAck := true)
    case SendFinAck =>
      if s.finSent then
        var t := Extend(s, [ClosingAck]);
        t.(state := None, log := t.log.(closed := true))
      else Extend(s, [Fin]).(state := SentFin)
    case SendHandshakeAck => s.(state := Connected, work := Idle)
    case _ => s.(work := Idle)
  }

  function InHand(work: Work): seq<byte> { if work.SendData? then work.data else [] }

  /** `send` on a non-blocking socket: as many bytes as fit into the send buffer. */
  function Send(s: Sock, data: seq<byte>): Sock
  {
    if s.state != Connected || |s.sendBuffer| > BUFFER then s
    else
      var n := Min(|data|, BUFFER - |s.sendBuffer|);
      s.(sendBuffer := s.sendBuffer + data[..n], sendEvent := s.sendEvent + 1,
         log := s.log.(written := s.log.written + data[..n]))
  }

  function Receive(s: Sock, max: nat): Sock
  {
    var n := Min(max, |s.receiveBuffer|);
    s.(receiveBuffer := s.receiveBuffer[n..], log := s.log.(read := s.log.read + s.receiveBuffer[..n]))
  }

  function Disconnect(s: Sock): Sock
  {
    if s.state != Connected then s else s.(doDisconnect := true, sendEvent := s.sendEvent + 1)
  }

  // ---------------------------------------------------------------- two machines and the network

  /** A client, a listening socket, the socket it accepts, and all segments ever sent. */
  datatype System = System(client: Sock, listener: Sock, server: Sock, connected: bool, accepted: bool,
                           toServer: set<Segment>, toClient: set<Segment>)

  /** `ToServer` and `ToClient` deliver any segment that was ever sent: segments may be lost, repeated and reordered.
      `atClient` says which of the two machines takes the other steps. */
  datatype Step =
    | DoConnect(isn: int)
    | DoListen
    | ListenReturns
    | DoAccept
    | ToServer(segment: Segment)
    | ToClient(segment: Segment)
    | Reset(atClient: bool, segment: Segment)
    | DoWake(atClient: bool)
    | DoSend(atClient: bool, isn: int)
    | AppSend(atClient: bool, data: seq<byte>)
    | AppReceive(atClient: bool, max: nat)
    | AppDisconnect(atClient: bool)

  function Start(): System { System(Fresh(), Fresh(), Fresh(), false, false, {}, {}) }

  function At(s: System, atClient: bool): Sock { if atClient then s.client else s.server }

  function With(s: System, atClient: bool, t: Sock): System { if atClient then s.(client := t) else s.(server := t) }

  function Apply(s: System, step: Step): System
  {
    match step
    case DoConnect(isn) =>
      if s.connected || !(0 <= isn < U32) then s
      else s.(client := Connect(s.client, isn).0, connected := true,
              toServer := s.toServer + {Connect(s.client, isn).1})
    case DoListen => s.(listener := s.listener.(state := Listening))
    case ListenReturns => s.(listener := s.listener.(state := None))
    case DoAccept =>
      if s.accepted || !s.listener.pendingValid then s
      else s.(server := Accepted(s.listener.pendingSequence), accepted := true,
              listener := s.listener.(pendingValid := false))
    case ToServer(seg) =>
      if seg !in s.toServer then s
      else if s.accepted then s.(server := ProcessPacket(s.server, seg))
      else if s.listener.state == Listening then s.(listener := ProcessPacket(s.listener, seg))
      else s
    case ToClient(seg) => if seg !in s.toClient then s else s.(client := ProcessPacket(s.client, seg))
    case Reset(c, seg) => if !seg.rst then s else With(s, c, ProcessPacket(At(s, c), seg))
    case DoWake(c) =>
      if At(s, c).sendEvent == 0 || At(s, c).work != Idle then s else With(s, c, Wake(At(s, c)))
    case DoSend(c, isn) =>
      if At(s, c).work == Idle || !(0 <= isn < U32) then s
      else
        var seg := Outgoing(At(s, c), isn);
        var t := With(s, c, Sent(At(s, c), isn));
        if c then t.(toServer := t.toServer + {seg}) else t.(toClient := t.toClient + {seg})
    case AppSend(c, data) => With(s, c, Send(At(s, c), data))
    case AppReceive(c, max) => With(s, c, Receive(At(s, c), max))
    case AppDisconnect(c) => With(s, c, Disconnect(At(s, c)))
  }

  function Run(steps: seq<Step>): System
  {
    if steps == [] then Start() else Apply(Run(steps[..|steps| - 1]), steps[|steps| - 1])
  }

  // ---------------------------------------------------------------- what always holds

  /** How far a sequence number lies behind the first one after `isn`. */
  function Offset(sequence: int, isn: int): int { (sequence - isn - 1) % U32 }

  /** Sequence numbers count the items. */
  predicate Numbered(s: Sock)
  {
    && (s.log.isnSet ==> 0 <= s.log.isn < U32 && s.sequence == Add(s.log.isn, 1 + |s.log.stream|))
    && (!s.log.isnSet ==> s.log.stream == [])
    && (s.log.synced ==> 0 <= s.log.peerIsn < U32 && s.receivedSequence == Add(s.log.peerIsn, |s.log.taken|))
    && (!s.log.synced ==> s.log.taken == [])
  }

  /** No byte gets lost between the applications and the streams, other than those of dropped packets. */
  predicate Conserved(s: Sock)
  {
    && |s.receiveBuffer| <= BUFFER && s.log.read + s.receiveBuffer == s.log.delivered
    && (!s.log.discarded ==> s.log.delivered == Bytes(s.log.taken))
    && (s.log.discarded ==> |s.log.delivered| < |Bytes(s.log.taken)|)
    && Bytes(s.log.stream) + InHand(s.work) + s.sendBuffer == s.log.written
  }

  predicate Counted(s: Sock) { Numbered(s) && Conserved(s) }

  /** Which initial sequence numbers are known in which state. A socket in state `SynAck` sends one SYN-ACK only. */
  predicate Staged(s: Sock)
  {
    && (s.state == SynAck ==>
          && s.log.synced && !s.expectFinAck && !s.finSent
          && (s.log.isnSet ==> s.sendEvent == 0 && s.work == Idle)
          && (!s.log.isnSet ==> (s.work == Idle && s.sendEvent == 1) || (s.work == SendSynAck && s.sendEvent == 0)))
    && (s.state == SentSyn ==> s.log.isnSet && !s.log.synced && s.work == Idle)
    && (s.state.Connected? || s.state.ReceivedFin? || s.state.SentFin? || s.state.ReceivedSynAck? ==>
          s.log.isnSet && s.log.synced)
    && (s.work != Idle ==> s.log.synced && (s.work == SendSynAck <==> !s.log.isnSet))
    && (s.expectFinAck || s.finSent || s.log.closed || s.state == SentFin ==>
          s.log.isnSet && s.log.synced && Fin in s.log.stream)
    && s.state != Listening
  }

  /** The segment is one that `p` has sent: it holds the items of its place in the stream. */
  predicate Carried(p: Sock, seg: Segment)
  {
    && p.log.isnSet && !seg.rst
    && (seg.syn ==> seg.sequence == p.log.isn && seg.data == [] && !seg.fin)
    && (!seg.syn ==>
          var at := Offset(seg.sequence, p.log.isn);
          var end := at + |seg.data|;
          && seg.ack && end + (if seg.fin then 1 else 0) <= |p.log.stream|
          && p.log.stream[at..end] == Items(seg.data) && (seg.fin ==> p.log.stream[end] == Fin))
    && (seg.ack ==> p.log.synced && Offset(seg.ackNumber, p.log.peerIsn) <= |p.log.taken|)
  }

  /** What `q` has received of what `p` has sent. */
  predicate Linked(p: Sock, q: Sock, net: set<Segment>)
  {
    && (q.log.synced ==> p.log.isnSet && q.log.peerIsn == p.log.isn && q.log.taken <= p.log.stream)
    && (forall seg :: seg in net ==> Carried(p, seg))
    && (p.finSent || p.log.closed ==> Fin in q.log.taken)
  }

  predicate Waiting(s: System)
  {
    && !s.listener.expectFinAck && (s.listener.state.None? || s.listener.state.Listening?)
    && (s.listener.pendingValid ==> s.client.log.isnSet && s.listener.pendingSequence == s.client.log.isn)
    && (!s.accepted ==> s.server == Fresh() && s.toClient == {})
    && (s.connected <==> s.client.log.isnSet) && (!s.connected ==> s.client == Fresh())
  }

  predicate Inv(s: System)
  {
    && Counted(s.client) && Counted(s.server) && Staged(s.client) && Staged(s.server)
    && Linked(s.client, s.server, s.toServer) && Linked(s.server, s.client, s.toClient) && Waiting(s)
  }

  /** Fewer sequence numbers used than there are. */
  predicate Bounded(s: System)
  {
    |s.client.log.stream| < U32 && |s.server.log.stream| < U32
  }

  // ---------------------------------------------------------------- sequences

  lemma {:induction false} BytesAppend(a: seq<Item>, b: seq<Item>)
    ensures Bytes(a + b) == Bytes(a) + Bytes(b)
  {
    if b == [] {
      assert a + b == a;
    } else {
      assert (a + b)[..|a + b| - 1] == a + b[..|b| - 1];
      BytesAppend(a, b[..|b| - 1]);
    }
  }

  lemma {:induction false} BytesItems(data: seq<byte>)
    ensures Bytes(Items(data)) == data
  {
    if data != [] {
      var init := data[..|data| - 1];
      BytesItems(init);
      assert Items(data)[..|data| - 1] == Items(init);
      assert data == init + [data[|data| - 1]];
    }
  }

  lemma BytesPrefix(a: seq<Item>, b: seq<Item>)
    requires a <= b
    ensures Bytes(a) <= Bytes(b)
  {
    BytesAppend(a, b[|a|..]);
    assert b == a + b[|a|..];
  }

  /** Two numbers below 2^32 apart from each other by a multiple of 2^32 are equal. */
  lemma OffsetAt(isn: int, k: int)
    requires 0 <= k < U32
    ensures Offset(Add(isn, 1 + k), isn) == k
  {
  }

  lemma AddAdd(a: int, m: int, n: int)
    ensures Add(Add(a, m), n) == Add(a, m + n)
  {
  }

  // ---------------------------------------------------------------- one socket keeps its books

  /** What the peer relies on is the same. */
  predicate SameLinks(s: Sock, t: Sock)
  {
    && t.finSent == s.finSent && t.log.closed == s.log.closed
    && t.log.isnSet == s.log.isnSet && t.log.isn == s.log.isn && t.log.synced == s.log.synced
    && t.log.peerIsn == s.log.peerIsn && t.log.stream == s.log.stream && t.log.taken == s.log.taken
  }

  lemma Assoc<T>(a: seq<T>, b: seq<T>, c: seq<T>)
    ensures a + (b + c) == a + b + c
  {
  }

  lemma AcceptCounted(s: Sock, seg: Segment)
    requires Counted(s) && s.log.synced
    ensures Counted(AcceptData(s, seg))
  {
    var t := AcceptData(s, seg);
    var fin := if seg.fin then [Fin] else [];
    assert Numbered(t) by {
      AddAdd(s.log.peerIsn, |s.log.taken|, |seg.data| + |fin|);
    }
    Assoc(s.log.read, s.receiveBuffer, seg.data);
    AcceptBytes(s, seg);
  }

  lemma AcceptBytes(s: Sock, seg: Segment)
    ensures Bytes(AcceptData(s, seg).log.taken) == Bytes(s.log.taken) + seg.data
  {
    var fin := if seg.fin then [Fin] else [];
    BytesAppend(s.log.taken, Items(seg.data));
    BytesAppend(s.log.taken + Items(seg.data), fin);
    BytesItems(seg.data);
  }

  lemma ProcessCounted(s: Sock, seg: Segment)
    requires Counted(s) && Staged(s) && (seg.syn ==> 0 <= seg.sequence < U32)
    ensures Counted(ProcessPacket(s, seg))
  {
    if s.state == Connected && !seg.rst && !s.expectFinAck && InOrder(s, seg) {
      AcceptCounted(s, seg);
    }
  }

  lemma ProcessStaged(s: Sock, seg: Segment)
    requires Staged(s)
    requires s.state == SynAck && !s.log.isnSet ==> !seg.ack
    ensures Staged(ProcessPacket(s, seg))
  {
  }

  /** What `Counted` speaks about is the same. */
  predicate SameBooks(s: Sock, t: Sock)
  {
    && s.log == t.log && s.sequence == t.sequence && s.receivedSequence == t.receivedSequence
    && s.receiveBuffer == t.receiveBuffer && s.sendBuffer == t.sendBuffer && InHand(s.work) == InHand(t.work)
  }

  lemma TakeBytesCounted(s: Sock)
    requires Counted(s) && s.work == Idle
    ensures Counted(TakeBytes(s))
  {
    var n := Min(|s.sendBuffer|, MAX_PAYLOAD);
    Assoc(Bytes(s.log.stream), s.sendBuffer[..n], s.sendBuffer[n..]);
    assert s.sendBuffer[..n] + s.sendBuffer[n..] == s.sendBuffer;
  }

  lemma WakeCounted(s: Sock)
    requires Counted(s) && s.sendEvent > 0 && s.work == Idle
    ensures Counted(Wake(s))
  {
    if s.state == Connected && s.sendBuffer != [] {
      TakeBytesCounted(s.(sendEvent := s.sendEvent - 1));
    } else {
      assert SameBooks(s, Wake(s));
    }
  }

  lemma WakeStaged(s: Sock)
    requires Staged(s) && s.sendEvent > 0 && s.work == Idle
    ensures Staged(Wake(s)) && SameLinks(s, Wake(s))
  {
  }

  lemma ExtendCounted(s: Sock, items: seq<Item>)
    requires Counted(s) && s.log.isnSet && Bytes(items) == InHand(s.work)
    ensures Counted(Extend(s, items))
  {
    AddAdd(s.log.isn, 1 + |s.log.stream|, |items|);
    BytesAppend(s.log.stream, items);
  }

  lemma FinAckCounted(s: Sock, isn: int)
    requires Counted(s) && s.log.isnSet && s.work == SendFinAck
    ensures Counted(Sent(s, isn))
  {
    ExtendCounted(s, [if s.finSent then ClosingAck else Fin]);
  }

  lemma DataCounted(s: Sock, isn: int)
    requires Counted(s) && s.log.isnSet && s.work.SendData?
    ensures Counted(Sent(s, isn))
  {
    BytesItems(s.work.data);
    ExtendCounted(s, Items(s.work.data));
  }

  lemma FinCounted(s: Sock, isn: int)
    requires Counted(s) && s.log.isnSet && s.work == SendFin
    ensures Counted(Sent(s, isn))
  {
    ExtendCounted(s, [Fin]);
    assert SameBooks(Extend(s, [Fin]), Sent(s, isn));
  }

  lemma AckCounted(s: Sock, isn: int)
    requires Counted(s) && (s.work == Idle || s.work == SendAck || s.work == SendHandshakeAck)
    ensures Counted(Sent(s, isn))
  {
    assert SameBooks(s, Sent(s, isn));
  }

  lemma SentCounted(s: Sock, isn: int)
    requires Counted(s) && Staged(s) && 0 <= isn < U32
    ensures Counted(Sent(s, isn))
  {
    match s.work
    case SendSynAck =>
    case SendData(_) => DataCounted(s, isn);
    case SendFin => FinCounted(s, isn);
    case SendFinAck => FinAckCounted(s, isn);
    case _ => AckCounted(s, isn);
  }

  lemma SentStaged(s: Sock, isn: int)
    requires Staged(s) && s.work != Idle
    ensures Staged(Sent(s, isn))
  {
  }

  lemma SendKeeps(s: Sock, data: seq<byte>)
    requires Counted(s) && Staged(s)
    ensures Counted(Send(s, data)) && Staged(Send(s, data)) && SameLinks(s, Send(s, data))
  {
    var n := Min(|data|, BUFFER - |s.sendBuffer|);
    if n >= 0 {
      Assoc(Bytes(s.log.stream) + InHand(s.work), s.sendBuffer, data[..n]);
    }
  }

  lemma ReceiveKeeps(s: Sock, max: nat)
    requires Counted(s) && Staged(s)
    ensures Counted(Receive(s, max)) && Staged(Receive(s, max)) && SameLinks(s, Receive(s, max))
  {
    var n := Min(max, |s.receiveBuffer|);
    Assoc(s.log.read, s.receiveBuffer[..n], s.receiveBuffer[n..]);
    assert s.receiveBuffer[..n] + s.receiveBuffer[n..] == s.receiveBuffer;
  }

  lemma ReceiveNothing(s: Sock, max: nat)
    requires s.receiveBuffer == []
    ensures Receive(s, max) == s
  {
    assert s.log.read + s.receiveBuffer == s.log.read;
  }

  lemma DisconnectKeeps(s: Sock)
    requires Counted(s) && Staged(s)
    ensures Counted(Disconnect(s)) && Staged(Disconnect(s)) && SameLinks(s, Disconnect(s))
  {
  }

  // ---------------------------------------------------------------- the two sockets

  /** A segment that is in order at `q` holds what follows what `q` has received. */
  lemma InOrderAt(p: Sock, q: Sock, seg: Segment)
    requires Numbered(q) && q.log.synced && q.log.peerIsn == p.log.isn && q.log.taken <= p.log.stream
    requires |p.log.stream| < U32
    requires Carried(p, seg) && InOrder(q, seg)
    ensures AcceptData(q, seg).log.taken <= p.log.stream
  {
    if seg.syn {
      assert Items(seg.data) == [];
    } else {
      AddAdd(q.log.peerIsn, |q.log.taken|, 1);
      OffsetAt(p.log.isn, |q.log.taken|);
    }
  }

  /** A segment that `q` finds to acknowledge everything was sent when `p` had received everything. */
  lemma Acknowledged(p: Sock, q: Sock, seg: Segment)
    requires Numbered(q) && q.log.isnSet && |q.log.stream| < U32
    requires p.log.synced ==> p.log.peerIsn == q.log.isn && p.log.taken <= q.log.stream
    requires Carried(p, seg) && InOrder(q, seg)
    ensures p.log.taken == q.log.stream
  {
    OffsetAt(q.log.isn, |q.log.stream|);
  }

  /** The connection has gone on from `s` to `t`. */
  predicate Grows(s: Sock, t: Sock)
  {
    && (s.log.isnSet ==> t.log.isnSet && t.log.isn == s.log.isn)
    && (s.log.synced ==> t.log.synced && t.log.peerIsn == s.log.peerIsn)
    && s.log.stream <= t.log.stream && s.log.taken <= t.log.taken
  }

  lemma CarriedGrows(p: Sock, t: Sock, seg: Segment)
    requires Carried(p, seg) && Grows(p, t)
    ensures Carried(t, seg)
  {
    if !seg.syn {
      var at := Offset(seg.sequence, p.log.isn);
      assert t.log.stream[at..at + |seg.data|] == p.log.stream[at..at + |seg.data|];
    }
  }

  lemma LinkedGrows(p: Sock, t: Sock, q: Sock, net: set<Segment>)
    requires Linked(p, q, net) && Grows(p, t) && (t.finSent || t.log.closed ==> Fin in q.log.taken)
    ensures Linked(t, q, net)
  {
    forall seg | seg in net ensures Carried(t, seg) {
      CarriedGrows(p, t, seg);
    }
  }

  lemma ProcessGrows(s: Sock, seg: Segment)
    requires Staged(s)
    ensures Grows(s, ProcessPacket(s, seg))
  {
  }

  /** What happens to the log when a packet is processed. */
  lemma ProcessCases(s: Sock, seg: Segment)
    ensures var t := ProcessPacket(s, seg);
      || (s.state == Connected && InOrder(s, seg) && t == AcceptData(s, seg))
      || (&& s.state == SentSyn && seg.syn && seg.ack
          && t.log == s.log.(synced := true, peerIsn := seg.sequence) && t.finSent == s.finSent)
      || (InOrder(s, seg) && (s.expectFinAck || s.state == SentFin) && t.log == s.log.(closed := t.log.closed))
      || (t.log == s.log && t.finSent == s.finSent)
  {
  }

  lemma ProcessLinkedIn(p: Sock, q: Sock, net: set<Segment>, seg: Segment)
    requires Numbered(q) && Staged(q) && Linked(p, q, net) && seg in net && |p.log.stream| < U32
    ensures Linked(p, ProcessPacket(q, seg), net)
  {
    ProcessCases(q, seg);
    if ProcessPacket(q, seg) == AcceptData(q, seg) && q.state == Connected && InOrder(q, seg) {
      InOrderAt(p, q, seg);
    }
  }

  lemma ProcessLinkedOut(p: Sock, q: Sock, toQ: set<Segment>, toP: set<Segment>, seg: Segment)
    requires Numbered(q) && Staged(q) && Linked(p, q, toQ) && Linked(q, p, toP) && seg in toQ && |q.log.stream| < U32
    ensures Linked(ProcessPacket(q, seg), p, toP)
  {
    var t := ProcessPacket(q, seg);
    ProcessGrows(q, seg);
    ProcessCases(q, seg);
    if InOrder(q, seg) && (q.expectFinAck || q.state == SentFin) {
      Acknowledged(p, q, seg);
    }
    LinkedGrows(q, t, p, toP);
  }

  lemma SentGrows(s: Sock, isn: int)
    requires Staged(s) && s.work != Idle
    ensures Grows(s, Sent(s, isn))
  {
  }

  /** A segment sent at the end of the stream is carried from then on. */
  lemma ExtendCarried(p: Sock, t: Sock, seg: Segment)
    requires Numbered(p) && p.log.isnSet && t.log.isnSet && t.log.isn == p.log.isn && |p.log.stream| < U32
    requires p.log.stream + Items(seg.data) + (if seg.fin then [Fin] else []) <= t.log.stream
    requires seg.sequence == p.sequence && !seg.syn && !seg.rst && seg.ack
    requires t.log.synced && Offset(seg.ackNumber, t.log.peerIsn) <= |t.log.taken|
    ensures Carried(t, seg)
  {
    OffsetAt(p.log.isn, |p.log.stream|);
    var at := |p.log.stream|;
    assert t.log.stream[at..at + |seg.data|] == Items(seg.data);
  }

  lemma SentExtends(s: Sock, isn: int)
    requires Staged(s) && s.work != Idle && s.work != SendSynAck
    ensures var seg := Outgoing(s, isn);
      s.log.stream + Items(seg.data) + (if seg.fin then [Fin] else []) <= Sent(s, isn).log.stream
  {
    assert Items([]) == [];
  }

  lemma OutgoingCarried(s: Sock, isn: int)
    requires Numbered(s) && Staged(s) && s.work != Idle && 0 <= isn < U32
    requires |Sent(s, isn).log.stream| < U32 && |s.log.taken| < U32
    ensures Carried(Sent(s, isn), Outgoing(s, isn))
  {
    AddAdd(s.log.peerIsn, |s.log.taken|, 1);
    OffsetAt(s.log.peerIsn, |s.log.taken|);
    SentGrows(s, isn);
    if s.work != SendSynAck {
      SentExtends(s, isn);
      ExtendCarried(s, Sent(s, isn), Outgoing(s, isn));
    }
  }

  lemma SentLinked(p: Sock, q: Sock, toQ: set<Segment>, toP: set<Segment>, isn: int)
    requires Numbered(p) && Staged(p) && Linked(p, q, toQ) && Linked(q, p, toP) && p.work != Idle && 0 <= isn < U32
    requires |Sent(p, isn).log.stream| < U32 && |q.log.stream| < U32
    ensures Linked(Sent(p, isn), q, toQ + {Outgoing(p, isn)}) && Linked(q, Sent(p, isn), toP)
  {
    SentGrows(p, isn);
    LinkedGrows(p, Sent(p, isn), q, toQ);
    OutgoingCarried(p, isn);
  }

  // ---------------------------------------------------------------- every run

  lemma LocalInv(s: System, atClient: bool, t: Sock) returns (u: System)
    requires Inv(s) && Counted(t) && Staged(t) && SameLinks(At(s, atClient), t)
    requires (!s.accepted && !atClient) || (!s.connected && atClient) ==> t == Fresh()
    ensures u == With(s, atClient, t) && Inv(u)
  {
    LinkedGrows(At(s, atClient), t, At(s, !atClient), if atClient then s.toServer else s.toClient);
    u := With(s, atClient, t);
  }

  lemma ResetKeeps(s: Sock)
    requires Counted(s) && Staged(s)
    ensures var t := s.(state := None); Counted(t) && Staged(t) && SameLinks(s, t)
  {
    assert SameBooks(s, s.(state := None));
  }

  lemma ResetInv(s: System, atClient: bool, seg: Segment) returns (u: System)
    requires Inv(s)
    ensures u == Apply(s, Reset(atClient, seg)) && Inv(u)
  {
    var t := At(s, atClient);
    u := s;
    if seg.rst {
      ResetKeeps(t);
      u := LocalInv(s, atClient, t.(state := None));
    }
  }

  lemma WakeInv(s: System, atClient: bool) returns (u: System)
    requires Inv(s)
    ensures u == Apply(s, DoWake(atClient)) && Inv(u)
  {
    var t := At(s, atClient);
    u := s;
    if t.sendEvent > 0 && t.work == Idle {
      WakeCounted(t);
      WakeStaged(t);
      u := LocalInv(s, atClient, Wake(t));
    }
  }

  lemma AppSendInv(s: System, atClient: bool, data: seq<byte>) returns (u: System)
    requires Inv(s)
    ensures u == Apply(s, AppSend(atClient, data)) && Inv(u)
  {
    var t := At(s, atClient);
    SendKeeps(t, data);
    u := LocalInv(s, atClient, Send(t, data));
  }

  lemma ReadInv(s: System, atClient: bool, t: Sock, max: nat) returns (u: System)
    requires Inv(s) && t == At(s, atClient) && t.receiveBuffer != []
    ensures u == With(s, atClient, Receive(t, max)) && Inv(u)
  {
    ReceiveKeeps(t, max);
    u := LocalInv(s, atClient, Receive(t, max));
  }

  lemma AppReceiveInv(s: System, atClient: bool, max: nat) returns (u: System)
    requires Inv(s)
    ensures u == Apply(s, AppReceive(atClient, max)) && Inv(u)
  {
    var t := At(s, atClient);
    u := s;
    if t.receiveBuffer == [] {
      ReceiveNothing(t, max);
    } else {
      u := ReadInv(s, atClient, t, max);
    }
  }

  lemma AppDisconnectInv(s: System, atClient: bool) returns (u: System)
    requires Inv(s)
    ensures u == Apply(s, AppDisconnect(atClient)) && Inv(u)
  {
    var t := At(s, atClient);
    DisconnectKeeps(t);
    u := LocalInv(s, atClient, Disconnect(t));
  }

  lemma ToServerInv(s: System, seg: Segment) returns (u: System)
    requires Inv(s) && Bounded(s)
    ensures u == Apply(s, ToServer(seg)) && Inv(u)
  {
    u := Apply(s, ToServer(seg));
    if seg in s.toServer && s.accepted {
      ProcessCounted(s.server, seg);
      ProcessStaged(s.server, seg);
      ProcessLinkedIn(s.client, s.server, s.toServer, seg);
      ProcessLinkedOut(s.client, s.server, s.toServer, s.toClient, seg);
    }
  }

  lemma ToClientInv(s: System, seg: Segment) returns (u: System)
    requires Inv(s) && Bounded(s)
    ensures u == Apply(s, ToClient(seg)) && Inv(u)
  {
    u := Apply(s, ToClient(seg));
    if seg in s.toClient {
      ProcessCounted(s.client, seg);
      ProcessStaged(s.client, seg);
      ProcessLinkedIn(s.server, s.client, s.toClient, seg);
      ProcessLinkedOut(s.server, s.client, s.toClient, s.toServer, seg);
    }
  }

  lemma ClientSendInv(s: System, isn: int) returns (u: System)
    requires Inv(s) && Bounded(s) && s.client.work != Idle && 0 <= isn < U32 && |Sent(s.client, isn).log.stream| < U32
    ensures u == s.(client := Sent(s.client, isn), toServer := s.toServer + {Outgoing(s.client, isn)}) && Inv(u)
  {
    SentCounted(s.client, isn);
    SentStaged(s.client, isn);
    SentGrows(s.client, isn);
    SentLinked(s.client, s.server, s.toServer, s.toClient, isn);
    u := s.(client := Sent(s.client, isn), toServer := s.toServer + {Outgoing(s.client, isn)});
  }

  lemma ServerSendInv(s: System, isn: int) returns (u: System)
    requires Inv(s) && Bounded(s) && s.server.work != Idle && 0 <= isn < U32 && |Sent(s.server, isn).log.stream| < U32
    ensures u == s.(server := Sent(s.server, isn), toClient := s.toClient + {Outgoing(s.server, isn)}) && Inv(u)
  {
    SentCounted(s.server, isn);
    SentStaged(s.server, isn);
    SentLinked(s.server, s.client, s.toClient, s.toServer, isn);
    u := s.(server := Sent(s.server, isn), toClient := s.toClient + {Outgoing(s.server, isn)});
  }

  lemma SendInv(s: System, atClient: bool, isn: int) returns (u: System)
    requires Inv(s) && Bounded(s) && Bounded(Apply(s, DoSend(atClient, isn)))
    ensures u == Apply(s, DoSend(atClient, isn)) && Inv(u)
  {
    u := s;
    if At(s, atClient).work != Idle && 0 <= isn < U32 {
      if atClient {
        u := ClientSendInv(s, isn);
      } else {
        u := ServerSendInv(s, isn);
      }
    }
  }

  lemma SetupInv(s: System, step: Step) returns (u: System)
    requires Inv(s) && (step.DoConnect? || step.DoListen? || step.ListenReturns? || step.DoAccept?)
    ensures u == Apply(s, step) && Inv(u)
  {
    if step.DoConnect? && !s.connected && 0 <= step.isn < U32 {
      LinkedGrows(s.client, Connect(s.client, step.isn).0, s.server, s.toServer);
    }
    u := Apply(s, step);
  }

  lemma ApplyInv(s: System, step: Step) returns (u: System)
    requires Inv(s) && Bounded(s) && Bounded(Apply(s, step))
    ensures u == Apply(s, step) && Inv(u)
  {
    match step
    case ToServer(seg) => u := ToServerInv(s, seg);
    case ToClient(seg) => u := ToClientInv(s, seg);
    case DoSend(c, isn) => u := SendInv(s, c, isn);
    case Reset(c, seg) => u := ResetInv(s, c, seg);
    case DoWake(c) => u := WakeInv(s, c);
    case AppSend(c, data) => u := AppSendInv(s, c, data);
    case AppReceive(c, max) => u := AppReceiveInv(s, c, max);
    case AppDisconnect(c) => u := AppDisconnectInv(s, c);
    case _ => u := SetupInv(s, step);
  }

  predicate ServerFresh(s: System) { !s.accepted ==> s.server == Fresh() }

  /** The streams are at least as long. */
  predicate Later(s: System, t: System)
  {
    ServerFresh(t) && |s.client.log.stream| <= |t.client.log.stream| && |s.server.log.stream| <= |t.server.log.stream|
  }

  lemma LaterAt(s: System, atClient: bool, t: Sock)
    requires ServerFresh(s) && |At(s, atClient).log.stream| <= |t.log.stream|
    requires !atClient && At(s, atClient) == Fresh() ==> t == Fresh()
    ensures Later(s, With(s, atClient, t))
  {
  }

  lemma ProcessStream(s: Sock, seg: Segment)
    ensures ProcessPacket(s, seg).log.stream == s.log.stream
  {
    ProcessCases(s, seg);
  }

  lemma ProcessFresh(seg: Segment)
    ensures ProcessPacket(Fresh(), seg) == Fresh()
  {
  }

  lemma WakeStream(s: Sock)
    requires s.sendEvent > 0
    ensures Wake(s).log.stream == s.log.stream
  {
  }

  lemma SentStream(s: Sock, isn: int)
    ensures s.log.stream <= Sent(s, isn).log.stream
  {
    match s.work
    case SendData(data) => assert Sent(s, isn).log.stream == s.log.stream + Items(data);
    case SendFin => assert Sent(s, isn).log.stream == s.log.stream + [Fin];
    case SendFinAck => assert Sent(s, isn).log.stream == s.log.stream + [if s.finSent then ClosingAck else Fin];
    case _ => assert Sent(s, isn).log.stream == s.log.stream;
  }

  lemma SendLater(s: System, atClient: bool, isn: int)
    requires ServerFresh(s)
    ensures Later(s, Apply(s, DoSend(atClient, isn)))
  {
    var t := At(s, atClient);
    if t.work != Idle {
      SentStream(t, isn);
      LaterAt(s, atClient, Sent(t, isn));
    }
  }

  lemma PacketLater(s: System, step: Step)
    requires ServerFresh(s) && (step.ToServer? || step.ToClient? || step.Reset?)
    ensures Later(s, Apply(s, step))
  {
    ProcessStream(s.server, step.segment);
    ProcessStream(s.client, step.segment);
    ProcessFresh(step.segment);
  }

  lemma HandlerLater(s: System, atClient: bool)
    requires ServerFresh(s)
    ensures Later(s, Apply(s, DoWake(atClient)))
  {
    if At(s, atClient).sendEvent > 0 {
      WakeStream(At(s, atClient));
      LaterAt(s, atClient, Wake(At(s, atClient)));
    }
  }

  lemma AppLater(s: System, step: Step)
    requires ServerFresh(s) && (step.AppSend? || step.AppReceive? || step.AppDisconnect?)
    ensures Later(s, Apply(s, step))
  {
    var t := At(s, step.atClient);
    match step
    case AppSend(c, data) => LaterAt(s, c, Send(t, data));
    case AppReceive(c, max) => LaterAt(s, c, Receive(t, max));
    case AppDisconnect(c) => LaterAt(s, c, Disconnect(t));
  }

  lemma ApplyLater(s: System, step: Step)
    requires ServerFresh(s)
    ensures Later(s, Apply(s, step))
  {
    match step
    case ToServer(_) => PacketLater(s, step);
    case ToClient(_) => PacketLater(s, step);
    case Reset(_, _) => PacketLater(s, step);
    case DoWake(c) => HandlerLater(s, c);
    case DoSend(c, isn) => SendLater(s, c, isn);
    case AppSend(_, _) => AppLater(s, step);
    case AppReceive(_, _) => AppLater(s, step);
    case AppDisconnect(_) => AppLater(s, step);
    case _ =>
  }

  lemma {:induction false} RunServerFresh(steps: seq<Step>)
    ensures ServerFresh(Run(steps))
  {
    if steps != [] {
      RunServerFresh(steps[..|steps| - 1]);
      ApplyLater(Run(steps[..|steps| - 1]), steps[|steps| - 1]);
    }
  }

  lemma {:induction false} RunInv(steps: seq<Step>)
    requires Bounded(Run(steps))
    ensures Inv(Run(steps))
  {
    if steps != [] {
      var init := steps[..|steps| - 1];
      RunServerFresh(init);
      ApplyLater(Run(init), steps[|steps| - 1]);
      RunInv(init);
      var t := ApplyInv(Run(init), steps[|steps| - 1]);
    }
  }

  // ---------------------------------------------------------------- what the protocol promises

  /** What `q` has delivered is a prefix of what `p` has sent, and that of what the application at `p` has written. */
  predicate Faithful(p: Sock, q: Sock)
  {
    && q.log.read <= q.log.delivered && Bytes(p.log.stream) <= p.log.written
    && (!q.log.discarded ==> q.log.delivered <= Bytes(p.log.stream))
  }

  lemma LinkedFaithful(p: Sock, q: Sock, net: set<Segment>)
    requires Counted(p) && Counted(q) && Linked(p, q, net)
    ensures Faithful(p, q)
  {
    if q.log.synced {
      BytesPrefix(q.log.taken, p.log.stream);
    }
  }

  /** In every run, whatever the network loses, repeats or reorders, each side delivers a prefix of what the other has
      sent, as long as fewer than 2^32 sequence numbers are used and no packet is dropped for lack of room. */
  lemma DeliveredIsPrefix(steps: seq<Step>)
    requires Bounded(Run(steps))
    ensures Faithful(Run(steps).client, Run(steps).server) && Faithful(Run(steps).server, Run(steps).client)
  {
    RunInv(steps);
    var t := Run(steps);
    LinkedFaithful(t.client, t.server, t.toServer);
    LinkedFaithful(t.server, t.client, t.toClient);
  }

  /** A segment is accepted only when everything sent so far has been received by its sender. */
  lemma AcceptedIsAcknowledged(steps: seq<Step>, seg: Segment)
    requires Bounded(Run(steps))
    ensures var t := Run(steps);
      && (seg in t.toServer && t.accepted && t.server.state == Connected && InOrder(t.server, seg) ==>
            t.client.log.taken == t.server.log.stream)
      && (seg in t.toClient && t.client.state == Connected && InOrder(t.client, seg) ==>
            t.server.log.taken == t.client.log.stream)
  {
    RunInv(steps);
    var t := Run(steps);
    if seg in t.toServer && t.accepted && t.server.state == Connected && InOrder(t.server, seg) {
      Acknowledged(t.client, t.server, seg);
    }
    if seg in t.toClient && t.client.state == Connected && InOrder(t.client, seg) {
      Acknowledged(t.server, t.client, seg);
    }
  }

  /** `q` has received a FIN of `p` and everything before it. */
  predicate ReceivedUpToFin(p: Sock, q: Sock)
  {
    exists i ::
      0 <= i < |q.log.taken| && i < |p.log.stream| && p.log.stream[i] == Fin && q.log.taken[..i] == p.log.stream[..i]
  }

  /** A socket whose FIN counts as acknowledged, or that was closed by an exchange of FINs, has got everything it sent
      before its FIN across. */
  lemma ClosedMeansReceived(steps: seq<Step>)
    requires Bounded(Run(steps))
    ensures var t := Run(steps);
      && (t.client.finSent || t.client.log.closed ==> ReceivedUpToFin(t.client, t.server))
      && (t.server.finSent || t.server.log.closed ==> ReceivedUpToFin(t.server, t.client))
  {
    RunInv(steps);
    var t := Run(steps);
    if t.client.finSent || t.client.log.closed {
      var i :| 0 <= i < |t.server.log.taken| && t.server.log.taken[i] == Fin;
      assert t.client.log.stream[i] == Fin;
    }
    if t.server.finSent || t.server.log.closed {
      var i :| 0 <= i < |t.client.log.taken| && t.client.log.taken[i] == Fin;
      assert t.server.log.stream[i] == Fin;
    }
  }

  /** The accepted socket counts as connected only when the client knows its initial sequence number. */
  predicate ShakenSock(v: Sock, clientSynced: bool)
  {
    && (v.state.Connected? || v.state.ReceivedFin? || v.state.SentFin? ==> clientSynced)
    && (v.work.Idle? || v.work.SendSynAck? || clientSynced)
    && !v.state.SentSyn? && !v.state.ReceivedSynAck? && !v.work.SendHandshakeAck?
  }

  predicate Shaken(s: System) { ShakenSock(s.server, s.client.log.synced) }

  lemma ProcessShaken(v: Sock, seg: Segment, synced: bool)
    requires ShakenSock(v, synced) && (seg.ack ==> synced)
    ensures ShakenSock(ProcessPacket(v, seg), synced)
  {
  }

  lemma WakeShaken(v: Sock, synced: bool)
    requires ShakenSock(v, synced) && v.sendEvent > 0
    ensures ShakenSock(Wake(v), synced)
  {
  }

  lemma SentShaken(v: Sock, isn: int, synced: bool)
    requires ShakenSock(v, synced)
    ensures ShakenSock(Sent(v, isn), synced)
  {
  }

  lemma ServerShaken(s: System, step: Step)
    requires Inv(s) && Shaken(s)
    ensures ShakenSock(Apply(s, step).server, s.client.log.synced)
  {
    var synced := s.client.log.synced;
    match step
    case ToServer(seg) =>
      if s.accepted && seg in s.toServer {
        ProcessShaken(s.server, seg, synced);
      }
    case DoWake(_) =>
      if s.server.sendEvent > 0 {
        WakeShaken(s.server, synced);
      }
    case DoSend(_, isn) => SentShaken(s.server, isn, synced);
    case _ =>
  }

  /** What the client knows of its peer it never forgets. */
  lemma ClientSynced(s: System, step: Step)
    requires Staged(s.client)
    ensures s.client.log.synced ==> Apply(s, step).client.log.synced
  {
    match step
    case ToClient(seg) => ProcessCases(s.client, seg);
    case Reset(_, seg) => ProcessCases(s.client, seg);
    case DoWake(_) =>
      if s.client.sendEvent > 0 {
        WakeLog(s.client);
      }
    case DoSend(_, isn) =>
      if s.client.work != Idle {
        SentGrows(s.client, isn);
      }
    case _ =>
  }

  lemma WakeLog(s: Sock)
    requires s.sendEvent > 0
    ensures Wake(s).log == s.log
  {
  }

  lemma ApplyShaken(s: System, step: Step)
    requires Inv(s) && Shaken(s)
    ensures Shaken(Apply(s, step))
  {
    ServerShaken(s, step);
    ClientSynced(s, step);
  }

  lemma {:induction false} RunShaken(steps: seq<Step>)
    requires Bounded(Run(steps))
    ensures Shaken(Run(steps))
  {
    if steps != [] {
      var init := steps[..|steps| - 1];
      RunServerFresh(init);
      ApplyLater(Run(init), steps[|steps| - 1]);
      RunShaken(init);
      RunInv(init);
      ApplyShaken(Run(init), steps[|steps| - 1]);
    }
  }

  /** When the accepted socket is connected, both sides know both initial sequence numbers. */
  lemma HandshakeAgrees(steps: seq<Step>)
    requires Bounded(Run(steps)) && Run(steps).server.state == Connected
    ensures var c, v := Run(steps).client.log, Run(steps).server.log;
      c.isnSet && v.isnSet && c.synced && v.synced && c.peerIsn == v.isn && v.peerIsn == c.isn
  {
    RunInv(steps);
    RunShaken(steps);
  }

  // ---------------------------------------------------------------- what gets through

  function Play(s: System, steps: seq<Step>): System
    decreases |steps|
  {
    if steps == [] then s else Play(Apply(s, steps[0]), steps[1..])
  }

  lemma {:induction false} RunPlay(a: seq<Step>, b: seq<Step>)
    ensures Run(a + b) == Play(Run(a), b)
    decreases |b|
  {
    if b == [] {
      assert a + b == a;
    } else {
      assert (a + [b[0]])[..|a|] == a;
      assert a + b == a + [b[0]] + b[1..];
      RunPlay(a + [b[0]], b[1..]);
    }
  }

  lemma PlayFour(s: System, steps: seq<Step>)
    requires |steps| == 4
    ensures Play(s, steps) == Apply(Apply(Apply(Apply(s, steps[0]), steps[1]), steps[2]), steps[3])
  {
    var t := Apply(s, steps[0]);
    assert Play(t, steps[1..]) == Play(Apply(t, steps[1]), steps[2..]) by {
      assert steps[1..][0] == steps[1] && steps[1..][1..] == steps[2..];
    }
    var u := Apply(t, steps[1]);
    assert Play(u, steps[2..]) == Play(Apply(u, steps[2]), steps[3..]) by {
      assert steps[2..][0] == steps[2] && steps[2..][1..] == steps[3..];
    }
    var w := Apply(u, steps[2]);
    assert Play(w, steps[3..]) == Play(Apply(w, steps[3]), []) by {
      assert steps[3..][0] == steps[3] && steps[3..][1..] == [];
    }
  }

  /** The client is connected, `n` numbers of the server have arrived, and `got` has been delivered and not been
      read. */
  predicate Receiving(q: Sock, c: int, v: int, n: nat, got: seq<byte>)
  {
    && q.state == Connected && !q.expectFinAck && q.log.stream == [] && q.sequence == Add(c, 1)
    && q.receivedSequence == Add(v, n) && q.receiveBuffer == got && q.log.delivered == got
  }

  /** The server is connected, has sent `sent`, and is still to send `waiting`. */
  predicate Sending(p: Sock, c: int, v: int, sent: seq<byte>, waiting: seq<byte>)
  {
    && p.state == Connected && p.work == Idle && p.sequence == Add(v, 1 + |sent|) && p.receivedSequence == c
    && p.sendBuffer == waiting && p.log.stream == Items(sent) && p.log.written == sent + waiting
  }

  /** All that the server has sent has arrived at the client. */
  predicate Streaming(s: System, c: int, v: int, sent: seq<byte>, waiting: seq<byte>, got: seq<byte>)
  {
    Receiving(s.client, c, v, |sent|, got) && Sending(s.server, c, v, sent, waiting)
  }

  /** A side of a connection over which nothing has been sent. */
  predicate Rested(s: Sock, own: int, peer: int)
  {
    && s.state == Connected && s.work == Idle && s.sendBuffer == [] && s.receiveBuffer == []
    && !s.doDisconnect && !s.expectFinAck && !s.finSent
    && s.sequence == Add(own, 1) && s.receivedSequence == peer && s.log.stream == []
  }

  predicate Ready(s: System, c: int, v: int)
  {
    s.accepted && Rested(s.client, c, v) && Rested(s.server, v, c)
  }

  /** The first half of the handshake: the SYN arrives and the pending connection is accepted. */
  function KnockSteps(c: int): seq<Step>
  {
    [DoConnect(c), DoListen, ToServer(Segment(c, 0, true, false, false, false, [])), DoAccept]
  }

  lemma KnockedIs(c: int)
    requires 0 <= c < U32
    ensures var t := Run(KnockSteps(c));
      t.client == Connect(Fresh(), c).0 && t.server == Accepted(c) && t.accepted
  {
    RunPlay([], KnockSteps(c));
    assert [] + KnockSteps(c) == KnockSteps(c);
    PlayFour(Run([]), KnockSteps(c));
    var syn := Segment(c, 0, true, false, false, false, []);
    var s := Apply(Apply(Run([]), DoConnect(c)), DoListen);
    assert s.client == Connect(Fresh(), c).0 && s.listener == Fresh().(state := Listening) && syn in s.toServer;
    assert !s.accepted;
    var t := Apply(s, ToServer(syn));
    assert t.client == s.client && t.listener.pendingValid && t.listener.pendingSequence == c && !t.accepted;
  }

  /** The SYN-ACK is sent and arrives, and the client's handler thread wakes. */
  function AnswerSteps(c: int, v: int): seq<Step>
  {
    [DoWake(false), DoSend(false, v), ToClient(Segment(v, Add(c, 1), true, true, false, false, [])), DoWake(true)]
  }

  lemma AnsweredIs(s: System, c: int, v: int)
    requires 0 <= c < U32 && 0 <= v < U32 && s.client == Connect(Fresh(), c).0 && s.server == Accepted(c) && s.accepted
    ensures var t := Play(s, AnswerSteps(c, v));
      && t.server == Sent(Wake(Accepted(c)), v) && t.accepted && t.client.work == SendHandshakeAck
      && t.client.sequence == Add(c, 1) && t.client.receivedSequence == v && !t.client.expectFinAck
      && t.client.receiveBuffer == [] && t.client.log.stream == [] && t.client.log.delivered == []
      && t.client.sendBuffer == [] && !t.client.doDisconnect && !t.client.finSent
  {
    PlayFour(s, AnswerSteps(c, v));
    var t := Apply(Apply(s, DoWake(false)), DoSend(false, v));
    var seg := Segment(v, Add(c, 1), true, true, false, false, []);
    assert t.client == s.client && seg in t.toClient && t.server == Sent(Wake(Accepted(c)), v);
    var u := Apply(t, ToClient(seg));
    assert u.client.state == ReceivedSynAck && u.client.sendEvent == 1 && u.client.work == Idle;
  }

  /** The ACK is sent and arrives. */
  function AckSteps(c: int, v: int, x: int): seq<Step>
  {
    [DoSend(true, x), ToServer(Segment(Add(c, 1), Add(v, 1), false, true, false, false, []))]
  }

  lemma AcknowledgedIs(s: System, c: int, v: int, x: int)
    requires 0 <= c < U32 && 0 <= v < U32 && 0 <= x < U32 && s.accepted && s.server == Sent(Wake(Accepted(c)), v)
    requires s.client.work == SendHandshakeAck && s.client.sequence == Add(c, 1) && s.client.receivedSequence == v
    requires !s.client.expectFinAck && s.client.receiveBuffer == [] && s.client.log.stream == []
    requires s.client.log.delivered == [] && s.client.sendBuffer == [] && !s.client.doDisconnect && !s.client.finSent
    ensures Streaming(Play(s, AckSteps(c, v, x)), c, v, [], [], []) && Ready(Play(s, AckSteps(c, v, x)), c, v)
  {
    var t := Apply(s, DoSend(true, x));
    var seg := Segment(Add(c, 1), Add(v, 1), false, true, false, false, []);
    assert seg in t.toServer && InOrder(t.server, seg) && t.server.state == SynAck;
    var steps := AckSteps(c, v, x);
    assert steps[0] == DoSend(true, x) && steps[1..][0] == ToServer(seg) && steps[1..][1..] == [];
    assert Play(s, steps) == Play(t, steps[1..]) == Play(Apply(t, ToServer(seg)), []);
  }

  function HandshakeSteps(c: int, v: int, x: int): seq<Step> { KnockSteps(c) + AnswerSteps(c, v) + AckSteps(c, v, x) }

  /** When no segment is lost, the three-way handshake connects both sides, whatever the initial sequence numbers. */
  lemma HandshakeCompletes(c: int, v: int, x: int)
    requires 0 <= c < U32 && 0 <= v < U32 && 0 <= x < U32
    ensures var t := Run(HandshakeSteps(c, v, x));
      t.client.state == Connected && t.server.state == Connected && Streaming(t, c, v, [], [], []) && Ready(t, c, v)
  {
    KnockedIs(c);
    RunPlay(KnockSteps(c), AnswerSteps(c, v));
    AnsweredIs(Run(KnockSteps(c)), c, v);
    RunPlay(KnockSteps(c) + AnswerSteps(c, v), AckSteps(c, v, x));
    AcknowledgedIs(Run(KnockSteps(c) + AnswerSteps(c, v)), c, v, x);
  }

  /** When both sides have received all that was sent, data sent next is delivered when its segment arrives. */
  lemma DataGetsThrough(p: Sock, q: Sock, isn: int)
    requires Counted(p) && Counted(q) && p.work.SendData? && q.state == Connected && !q.expectFinAck
    requires p.log.isnSet && p.log.synced && q.log.isnSet && q.log.synced
    requires q.log.peerIsn == p.log.isn && p.log.peerIsn == q.log.isn && q.log.taken == p.log.stream
    requires p.log.taken == q.log.stream
    requires |q.receiveBuffer| + |p.work.data| <= BUFFER
    ensures var t := ProcessPacket(q, Outgoing(p, isn));
      && t.log.delivered == q.log.delivered + p.work.data && t.receiveBuffer == q.receiveBuffer + p.work.data
      && t.log.taken == Sent(p, isn).log.stream && t.state == Connected
  {
    AddAdd(q.log.peerIsn, |q.log.taken|, 1);
    AddAdd(p.log.peerIsn, |p.log.taken|, 1);
    var seg := Outgoing(p, isn);
    assert InOrder(q, seg);
    assert ProcessPacket(q, seg) == AcceptData(q, seg);
    assert q.log.taken + Items(seg.data) + [] == q.log.taken + Items(seg.data);
  }

  // ---------------------------------------------------------------- a full receive buffer

  /** An accepted segment is delivered exactly when it fits into the receive buffer. */
  lemma AcceptedExactly(s: Sock, seg: Segment)
    requires Counted(s) && !s.log.discarded
    ensures var t := AcceptData(s, seg);
      t.log.delivered == Bytes(t.log.taken) <==> |s.receiveBuffer| + |seg.data| <= BUFFER
  {
    AcceptBytes(s, seg);
  }

  /** In every run, each side has delivered what it has acknowledged if and only if it has dropped no packet for lack of
      room. */
  lemma DeliveredExactly(steps: seq<Step>)
    requires Bounded(Run(steps))
    ensures var c, v := Run(steps).client.log, Run(steps).server.log;
      && (c.delivered == Bytes(c.taken) <==> !c.discarded)
      && (v.delivered == Bytes(v.taken) <==> !v.discarded)
  {
    RunInv(steps);
  }

  /** The next segment of the server after its application has written `more`. */
  function NextSegment(v: Sock, more: seq<byte>): Segment
  {
    var data := v.sendBuffer + more;
    Segment(v.sequence, Add(v.receivedSequence, 1), false, true, false, false, data[..Min(|data|, MAX_PAYLOAD)])
  }

  /** The application of the server writes, the handler thread sends, and the segment arrives. */
  function ShipSteps(v: Sock, more: seq<byte>): seq<Step>
  {
    [AppSend(false, more), DoWake(false), DoSend(false, 0), ToClient(NextSegment(v, more))]
  }

  lemma Written(v: Sock, more: seq<byte>)
    requires v.state == Connected && |v.sendBuffer| + |more| <= BUFFER
    ensures var w := Send(v, more);
      && w.sendBuffer == v.sendBuffer + more && w.log.written == v.log.written + more && w.sendEvent == v.sendEvent + 1
      && w == v.(sendBuffer := w.sendBuffer, sendEvent := w.sendEvent, log := v.log.(written := w.log.written))
  {
    assert more[..|more|] == more;
  }

  /** The handler thread wakes and sends what it has taken out of the send buffer. */
  lemma SendsNext(v: Sock) returns (data: seq<byte>, rest: seq<byte>, t: Sock)
    requires v.state == Connected && v.work == Idle && v.sendEvent > 0 && v.sendBuffer != []
    ensures data + rest == v.sendBuffer && |data| == Min(|v.sendBuffer|, MAX_PAYLOAD)
    ensures Wake(v).work == SendData(data) && t == Sent(Wake(v), 0) && Outgoing(Wake(v), 0) == NextSegment(v, [])
    ensures t.state == Connected && t.work == Idle && t.sequence == Add(v.sequence, |data|) && t.sendBuffer == rest
    ensures t.receivedSequence == v.receivedSequence && t.log == v.log.(stream := v.log.stream + Items(data))
  {
    var n := Min(|v.sendBuffer|, MAX_PAYLOAD);
    data, rest, t := v.sendBuffer[..n], v.sendBuffer[n..], Sent(Wake(v), 0);
    assert v.sendBuffer + [] == v.sendBuffer;
  }

  /** The first three steps: the segment is on its way. */
  lemma Shipped(s: System, more: seq<byte>) returns (t: System, data: seq<byte>, rest: seq<byte>)
    requires s.server.state == Connected && s.server.work == Idle && 0 < |s.server.sendBuffer| + |more| <= BUFFER
    ensures t == Apply(Apply(Apply(s, AppSend(false, more)), DoWake(false)), DoSend(false, 0))
    ensures data + rest == s.server.sendBuffer + more && |data| == Min(|s.server.sendBuffer| + |more|, MAX_PAYLOAD)
    ensures NextSegment(s.server, more).data == data && NextSegment(s.server, more) in t.toClient
    ensures t.client == s.client
    ensures t.server.state == Connected && t.server.work == Idle && t.server.sequence == Add(s.server.sequence, |data|)
    ensures t.server.receivedSequence == s.server.receivedSequence && t.server.sendBuffer == rest
    ensures t.server.log.stream == s.server.log.stream + Items(data)
    ensures t.server.log.written == s.server.log.written + more
  {
    Written(s.server, more);
    var w := Apply(s, AppSend(false, more));
    var v;
    data, rest, v := SendsNext(w.server);
    t := Apply(Apply(w, DoWake(false)), DoSend(false, 0));
    assert w.server.sendBuffer + [] == w.server.sendBuffer;
    assert NextSegment(w.server, []) == NextSegment(s.server, more);
  }

  lemma Regroup(sent: seq<byte>, waiting: seq<byte>, more: seq<byte>, data: seq<byte>, rest: seq<byte>)
    requires data + rest == waiting + more
    ensures sent + waiting + more == sent + data + rest && Items(sent) + Items(data) == Items(sent + data)
  {
    Assoc(sent, waiting, more);
    Assoc(sent, data, rest);
  }

  /** What arrives is delivered if it fits into the receive buffer; it is acknowledged in any case. */
  lemma TakenIn(q: Sock, c: int, v: int, n: nat, got: seq<byte>, seg: Segment)
    requires Receiving(q, c, v, n, got) && seg.sequence == Add(v, 1 + n) && seg.ackNumber == Add(c, 1)
    requires seg.ack && !seg.fin && !seg.rst
    ensures Receiving(ProcessPacket(q, seg), c, v, n + |seg.data|,
                      if |got| + |seg.data| <= BUFFER then got + seg.data else got)
  {
    AddAdd(v, n, 1);
    AddAdd(v, n, |seg.data|);
    assert ProcessPacket(q, seg) == AcceptData(q, seg);
  }

  lemma SentOut(p: Sock, c: int, v: int, sent: seq<byte>, waiting: seq<byte>, more: seq<byte>, t: Sock, data: seq<byte>,
                rest: seq<byte>)
    requires Sending(p, c, v, sent, waiting) && data + rest == waiting + more
    requires t.state == Connected && t.work == Idle && t.sequence == Add(p.sequence, |data|)
    requires t.receivedSequence == p.receivedSequence && t.sendBuffer == rest
    requires t.log.stream == p.log.stream + Items(data) && t.log.written == p.log.written + more
    ensures Sending(t, c, v, sent + data, rest)
  {
    AddAdd(v, 1 + |sent|, |data|);
    Regroup(sent, waiting, more, data, rest);
  }

  lemma Arrives(s: System, c: int, v: int, sent: seq<byte>, waiting: seq<byte>, got: seq<byte>, more: seq<byte>)
    returns (t: System, data: seq<byte>, rest: seq<byte>)
    requires Streaming(s, c, v, sent, waiting, got) && 0 < |waiting| + |more| <= BUFFER
    ensures t == Play(s, ShipSteps(s.server, more))
    ensures data + rest == waiting + more && |data| == Min(|waiting| + |more|, MAX_PAYLOAD)
    ensures Streaming(t, c, v, sent + data, rest, if |got| + |data| <= BUFFER then got + data else got)
  {
    PlayFour(s, ShipSteps(s.server, more));
    var u;
    u, data, rest := Shipped(s, more);
    SentOut(s.server, c, v, sent, waiting, more, u.server, data, rest);
    t := Lands(u, c, v, sent, got, NextSegment(s.server, more), data, rest);
  }

  /** The last step: the segment arrives. */
  lemma Lands(u: System, c: int, v: int, sent: seq<byte>, got: seq<byte>, seg: Segment, data: seq<byte>,
              rest: seq<byte>)
    returns (t: System)
    requires Receiving(u.client, c, v, |sent|, got) && Sending(u.server, c, v, sent + data, rest) && seg in u.toClient
    requires seg == Segment(Add(v, 1 + |sent|), Add(c, 1), false, true, false, false, data)
    ensures t == Apply(u, ToClient(seg))
    ensures Streaming(t, c, v, sent + data, rest, if |got| + |data| <= BUFFER then got + data else got)
  {
    TakenIn(u.client, c, v, |sent|, got, seg);
    t := Apply(u, ToClient(seg));
    assert t.server == u.server && t.client == ProcessPacket(u.client, seg);
  }

  function Shipping(steps: seq<Step>, more: seq<byte>): seq<Step> { steps + ShipSteps(Run(steps).server, more) }

  /** The handshake, then 65536 bytes are written, one more and one more. */
  function FullSteps(c: int, v: int, data: seq<byte>): seq<Step>
  {
    Shipping(Shipping(Shipping(HandshakeSteps(c, v, 0), data), [1]), [2])
  }

  lemma Ships(steps: seq<Step>, c: int, v: int, sent: seq<byte>, waiting: seq<byte>, got: seq<byte>, more: seq<byte>)
    returns (steps': seq<Step>, data: seq<byte>, rest: seq<byte>)
    requires Streaming(Run(steps), c, v, sent, waiting, got) && 0 < |waiting| + |more| <= BUFFER
    ensures steps' == Shipping(steps, more)
    ensures data + rest == waiting + more && |data| == Min(|waiting| + |more|, MAX_PAYLOAD)
    ensures Streaming(Run(steps'), c, v, sent + data, rest, if |got| + |data| <= BUFFER then got + data else got)
  {
    var t;
    t, data, rest := Arrives(Run(steps), c, v, sent, waiting, got, more);
    RunPlay(steps, ShipSteps(Run(steps).server, more));
    steps' := Shipping(steps, more);
  }

  lemma Parts(data: seq<byte>, rest: seq<byte>, whole: seq<byte>)
    requires data + rest == whole
    ensures data == whole[..|data|] && rest == whole[|data|..]
  {
  }

  /** What is written is more than one packet holds. */
  lemma ShipsFirst(steps: seq<Step>, c: int, v: int, more: seq<byte>)
    requires Streaming(Run(steps), c, v, [], [], []) && MAX_PAYLOAD <= |more| <= BUFFER
    ensures Streaming(Run(Shipping(steps, more)), c, v, more[..MAX_PAYLOAD], more[MAX_PAYLOAD..], more[..MAX_PAYLOAD])
  {
    var steps', data, rest := Ships(steps, c, v, [], [], [], more);
    Parts(data, rest, more);
    assert [] + data == data;
  }

  /** All that waits goes into one packet. */
  lemma ShipsAll(steps: seq<Step>, c: int, v: int, sent: seq<byte>, waiting: seq<byte>, got: seq<byte>, more: seq<byte>)
    requires Streaming(Run(steps), c, v, sent, waiting, got) && 0 < |waiting| + |more| <= MAX_PAYLOAD
    ensures Streaming(Run(Shipping(steps, more)), c, v, sent + waiting + more, [],
                      if |got| + |waiting| + |more| <= BUFFER then got + (waiting + more) else got)
  {
    var steps', data, rest := Ships(steps, c, v, sent, waiting, got, more);
    Parts(data, rest, waiting + more);
    assert data == waiting + more && rest == [];
    Assoc(sent, waiting, more);
  }

  /** The second packet does not fit and the third does. */
  lemma FullRun(shaken: seq<Step>, c: int, v: int, data: seq<byte>)
    requires Streaming(Run(shaken), c, v, [], [], []) && |data| == BUFFER
    ensures Streaming(Run(Shipping(Shipping(Shipping(shaken, data), [1]), [2])), c, v, data + [1] + [2], [],
                      data[..MAX_PAYLOAD] + [2])
  {
    var first, rest := data[..MAX_PAYLOAD], data[MAX_PAYLOAD..];
    ShipsFirst(shaken, c, v, data);
    ShipsAll(Shipping(shaken, data), c, v, first, rest, first, [1]);
    ShipsAll(Shipping(Shipping(shaken, data), [1]), c, v, first + rest + [1], [], first, [2]);
    assert first + rest == data && data + [1] + [] == data + [1] && [] + [2] == [2];
  }

  /** A packet dropped for lack of room is never made up for: the next one is accepted, and what has been delivered is
      no longer a prefix of what was sent. */
  lemma FullBufferBreaksPrefix(c: int, v: int, data: seq<byte>)
    requires 0 <= c < U32 && 0 <= v < U32 && |data| == BUFFER && data[MAX_PAYLOAD] != 2
    ensures var t := Run(FullSteps(c, v, data));
      && Bounded(t) && t.server.log.written == data + [1] + [2] && t.client.log.delivered == data[..MAX_PAYLOAD] + [2]
      && !(t.client.log.delivered <= t.server.log.written) && !(t.client.log.delivered <= Bytes(t.server.log.stream))
  {
    HandshakeCompletes(c, v, 0);
    FullRun(HandshakeSteps(c, v, 0), c, v, data);
    BytesItems(data + [1] + [2]);
    assert (data[..MAX_PAYLOAD] + [2])[MAX_PAYLOAD] == 2 && (data + [1] + [2])[MAX_PAYLOAD] == data[MAX_PAYLOAD];
  }
}
