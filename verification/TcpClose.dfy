/** What the handler thread of a TCP socket sends (src/dev/net/tcp.cpp), and how connections end: FIN is sent when the
    application asks for it or in answer to a FIN, and the exchange of FINs closes both sides. */
module TcpClose {
  import opened Tcp
  import opened Words

  // ---------------------------------------------------------------- what a woken handler sends

  lemma EmptySends(s: Sock, isn: int)
    requires s.state == Connected && s.work == Idle && s.sendEvent > 0 && 0 <= s.sequence < U32 && s.sendBuffer == []
    ensures var w := Wake(s); var rest := s.(sendEvent := s.sendEvent - 1);
      && w.work != Idle
      && Outgoing(w, isn) == Segment(s.sequence, Add(s.receivedSequence, 1), false, true, s.doDisconnect, false, [])
      && Sent(w, isn) == if s.doDisconnect
                         then rest.(sequence := Add(s.sequence, 1), doDisconnect := false, expectFinAck := true,
                                    log := s.log.(stream := s.log.stream + [Fin]))
                         else rest
  {
  }

  lemma BytesSend(s: Sock, isn: int)
    requires s.state == Connected && s.work == Idle && s.sendEvent > 0 && s.sendBuffer != []
    ensures var w := Wake(s); var n := Min(|s.sendBuffer|, MAX_PAYLOAD); var data := s.sendBuffer[..n];
      && w.work != Idle
      && Outgoing(w, isn) == Segment(s.sequence, Add(s.receivedSequence, 1), false, true, false, false, data)
      && Sent(w, isn) == s.(sendEvent := s.sendEvent - 1, sequence := Add(s.sequence, n),
                            sendBuffer := s.sendBuffer[n..], log := s.log.(stream := s.log.stream + Items(data)))
  {
  }

  /** A connected socket: the bytes that wait go first; a FIN is sent when none are left and the application has asked
      for it; otherwise what has arrived is acknowledged. */
  lemma ConnectedSends(s: Sock, isn: int)
    requires s.state == Connected && s.work == Idle && s.sendEvent > 0 && 0 <= s.sequence < U32
    ensures var n := Min(|s.sendBuffer|, MAX_PAYLOAD); var fin := s.sendBuffer == [] && s.doDisconnect;
      && Wake(s).work != Idle
      && Outgoing(Wake(s), isn) ==
         Segment(s.sequence, Add(s.receivedSequence, 1), false, true, fin, false, s.sendBuffer[..n])
      && Sent(Wake(s), isn) ==
         s.(sequence := Add(s.sequence, n + if fin then 1 else 0), sendBuffer := s.sendBuffer[n..],
            sendEvent := s.sendEvent - 1, doDisconnect := s.doDisconnect && !fin, expectFinAck := s.expectFinAck || fin,
            log := s.log.(stream := s.log.stream + Items(s.sendBuffer[..n]) + if fin then [Fin] else []))
  {
    var n := Min(|s.sendBuffer|, MAX_PAYLOAD);
    var stream := s.log.stream;
    if s.sendBuffer == [] {
      EmptySends(s, isn);
      assert s.sendBuffer[..n] == [] && s.sendBuffer[n..] == [] && Items([]) == [];
      assert stream + [] == stream && stream + [] + [] == stream && stream + [] + [Fin] == stream + [Fin];
    } else {
      BytesSend(s, isn);
      assert stream + Items(s.sendBuffer[..n]) + [] == stream + Items(s.sendBuffer[..n]);
    }
  }

  /** In the handshake the socket sends its SYN-ACK or the ACK that ends it; after a FIN it sends its own, or the last
      acknowledgement if that has been sent. */
  lemma HandshakeSends(s: Sock, isn: int)
    requires s.work == Idle && s.sendEvent > 0
    ensures s.state == SynAck ==>
      && Outgoing(Wake(s), isn) == Segment(isn, Add(s.receivedSequence, 1), true, true, false, false, [])
      && Sent(Wake(s), isn).sequence == Add(isn, 1) && Sent(Wake(s), isn).state == SynAck
    ensures s.state == ReceivedSynAck ==>
      && Outgoing(Wake(s), isn) == Segment(s.sequence, Add(s.receivedSequence, 1), false, true, false, false, [])
      && Sent(Wake(s), isn) == s.(state := Connected, sendEvent := s.sendEvent - 1)
    ensures s.state == ReceivedFin ==>
      && Outgoing(Wake(s), isn) == Segment(s.sequence, Add(s.receivedSequence, 1), false, true, !s.finSent, false, [])
      && Sent(Wake(s), isn).sequence == Add(s.sequence, 1)
      && Sent(Wake(s), isn).state == (if s.finSent then None else SentFin)
    ensures s.state == None || s.state == SentFin || s.state == SentSyn || s.state == Listening ==> Wake(s).work == Idle
  {
  }

  lemma WakeLog(q: Sock)
    requires q.sendEvent > 0
    ensures Wake(q).log == q.log
  {
  }

  /** What waking the handler thread of side `d` does to side `c`. */
  lemma WakeIs(s: System, d: bool, c: bool)
    ensures var t := Apply(s, DoWake(d)); var q := At(s, c);
      && At(t, c) == (if d == c && q.sendEvent > 0 && q.work == Idle then Wake(q) else q)
      && t.toServer == s.toServer && t.toClient == s.toClient && t.accepted == s.accepted && t.connected == s.connected
      && t.server.log == s.server.log
  {
    var p := At(s, d);
    if p.sendEvent == 0 || p.work != Idle {
      assert Apply(s, DoWake(d)) == s;
    } else {
      WakeLog(p);
      assert Apply(s, DoWake(d)) == With(s, d, Wake(p));
    }
  }

  // ---------------------------------------------------------------- no FIN without a cause

  /** Nothing on this side is about to close the connection. */
  predicate Open(s: Sock)
  {
    && !s.doDisconnect && !s.expectFinAck && !s.finSent && s.state != ReceivedFin && s.state != SentFin
    && s.work != SendFin && s.work != SendFinAck && Fin !in s.log.stream && Fin !in s.log.taken && !s.log.closed
  }

  ghost predicate NoFin(sent: set<Segment>)
  {
    forall seg {:trigger seg in sent} :: seg in sent ==> !seg.fin
  }

  ghost predicate AllOpen(s: System)
  {
    Open(s.client) && Open(s.server) && Open(s.listener) && NoFin(s.toServer) && NoFin(s.toClient)
  }

  lemma NoFinItems(data: seq<byte>)
    ensures Fin !in Items(data)
  {
  }

  lemma ProcessOpen(s: Sock, seg: Segment)
    requires Open(s) && (seg.rst || !seg.fin)
    ensures Open(ProcessPacket(s, seg))
  {
    NoFinItems(seg.data);
  }

  lemma HandlerOpen(s: Sock, isn: int)
    requires Open(s)
    ensures s.sendEvent > 0 ==> Open(Wake(s))
    ensures Open(Sent(s, isn)) && !Outgoing(s, isn).fin
  {
    NoFinItems(InHand(s.work));
  }

  lemma PacketOpen(s: System, step: Step)
    requires AllOpen(s) && (step.ToServer? || step.ToClient? || step.Reset?)
    ensures AllOpen(Apply(s, step))
  {
    if step.segment.rst || !step.segment.fin {
      ProcessOpen(s.server, step.segment);
      ProcessOpen(s.listener, step.segment);
      ProcessOpen(s.client, step.segment);
    }
  }

  lemma ApplyOpen(s: System, step: Step)
    requires AllOpen(s) && !step.AppDisconnect?
    ensures AllOpen(Apply(s, step))
  {
    if step.ToServer? || step.ToClient? || step.Reset? {
      PacketOpen(s, step);
    } else if step.DoWake? {
      HandlerOpen(At(s, step.atClient), 0);
    } else if step.DoSend? {
      HandlerOpen(At(s, step.atClient), step.isn);
    }
  }

  predicate NotAsked(steps: seq<Step>)
  {
    forall i :: 0 <= i < |steps| ==> !steps[i].AppDisconnect?
  }

  /** In every run in which no application closes its connection, no segment has a FIN and no side sends or receives
      one. */
  lemma {:induction false} NoFinUnasked(steps: seq<Step>)
    requires NotAsked(steps)
    ensures AllOpen(Run(steps))
  {
    if steps != [] {
      NoFinUnasked(steps[..|steps| - 1]);
      ApplyOpen(Run(steps[..|steps| - 1]), steps[|steps| - 1]);
    }
  }

  /** A side whose application has not asked for it closes only in answer to a FIN. */
  predicate Answers(s: Sock)
  {
    && !s.doDisconnect && !s.expectFinAck && !s.finSent && s.work != SendFin
    && (s.state == ReceivedFin || s.state == SentFin || s.work == SendFinAck || Fin in s.log.stream ==>
          Fin in s.log.taken)
  }

  ghost predicate AnswersOnly(s: System, c: bool)
  {
    && Answers(At(s, c)) && (Fin in At(s, c).log.taken || NoFin(if c then s.toServer else s.toClient))
    && (!s.accepted ==> s.server.log.taken == [])
  }

  lemma ProcessAnswers(s: Sock, seg: Segment)
    requires Answers(s)
    ensures Answers(ProcessPacket(s, seg)) && (Fin in s.log.taken ==> Fin in ProcessPacket(s, seg).log.taken)
  {
    NoFinItems(seg.data);
  }

  lemma HandlerAnswers(s: Sock, isn: int)
    requires Answers(s)
    ensures s.sendEvent > 0 ==> Answers(Wake(s)) && Wake(s).log == s.log
    ensures Answers(Sent(s, isn)) && Sent(s, isn).log.taken == s.log.taken
    ensures Outgoing(s, isn).fin ==> Fin in s.log.taken
  {
    NoFinItems(InHand(s.work));
  }

  lemma PacketAnswers(s: System, step: Step, c: bool)
    requires AnswersOnly(s, c) && (step.ToServer? || step.ToClient? || step.Reset?)
    ensures AnswersOnly(Apply(s, step), c)
  {
    ProcessAnswers(At(s, c), step.segment);
  }

  lemma WakeAnswers(s: System, d: bool, c: bool)
    requires AnswersOnly(s, c)
    ensures AnswersOnly(Apply(s, DoWake(d)), c)
  {
    WakeIs(s, d, c);
    if At(s, c).sendEvent > 0 {
      HandlerAnswers(At(s, c), 0);
    }
  }

  lemma ApplyAnswers(s: System, step: Step, c: bool)
    requires step != AppDisconnect(c) && AnswersOnly(s, c)
    ensures AnswersOnly(Apply(s, step), c)
  {
    if step.ToServer? || step.ToClient? || step.Reset? {
      PacketAnswers(s, step, c);
    } else if step.DoWake? {
      WakeAnswers(s, step.atClient, c);
    } else if step.DoSend? {
      SendAnswers(s, step.atClient, step.isn, c);
    }
  }

  lemma SendAnswers(s: System, d: bool, isn: int, c: bool)
    requires AnswersOnly(s, c)
    ensures AnswersOnly(Apply(s, DoSend(d, isn)), c)
  {
    if d == c {
      HandlerAnswers(At(s, c), isn);
    }
  }

  /** In every run, a side whose application has not closed the connection sends a FIN only after it has received
      one. */
  lemma {:induction false} FinAnswersFin(steps: seq<Step>, c: bool)
    requires forall i :: 0 <= i < |steps| ==> steps[i] != AppDisconnect(c)
    ensures AnswersOnly(Run(steps), c)
  {
    if steps != [] {
      FinAnswersFin(steps[..|steps| - 1], c);
      ApplyAnswers(Run(steps[..|steps| - 1]), steps[|steps| - 1], c);
    }
  }

  // ---------------------------------------------------------------- data is acknowledged

  lemma AddOne(a: int, n: nat)
    ensures Add(Add(a, n), 1) == Add(a, n + 1)
  {
    AddAdd(a, n, 1);
  }

  /** A woken handler thread sends. */
  lemma HandlerSteps(s: System, c: bool) returns (t: System)
    requires At(s, c).work == Idle && At(s, c).sendEvent > 0 && Wake(At(s, c)).work != Idle
    ensures t == Apply(Apply(s, DoWake(c)), DoSend(c, 0)) && At(t, c) == Sent(Wake(At(s, c)), 0)
    ensures At(t, !c) == At(s, !c) && t.accepted == s.accepted
    ensures Outgoing(Wake(At(s, c)), 0) in if c then t.toServer else t.toClient
  {
    t := Apply(Apply(s, DoWake(c)), DoSend(c, 0));
  }

  /** The client's answer to `n` bytes. */
  function Acknowledgement(c: int, v: int, n: nat): Segment
  {
    Segment(Add(c, 1), Add(v, 1 + n), false, true, false, false, [])
  }

  /** The client has received `data` and will send. */
  predicate Notified(s: Sock, c: int, v: int, data: seq<byte>)
  {
    && s.state == Connected && s.work == Idle && s.sendEvent > 0 && s.sendBuffer == [] && s.receiveBuffer == data
    && !s.doDisconnect && !s.expectFinAck && s.sequence == Add(c, 1) && s.receivedSequence == Add(v, |data|)
    && s.log.stream == []
  }

  lemma TakesData(q: Sock, c: int, v: int, seg: Segment)
    requires Rested(q, c, v) && 0 < |seg.data| <= MAX_PAYLOAD
    requires seg == Segment(Add(v, 1), Add(c, 1), false, true, false, false, seg.data)
    ensures Notified(ProcessPacket(q, seg), c, v, seg.data)
  {
    assert InOrder(q, seg) && [] + seg.data == seg.data;
  }

  lemma DataArrives(s: System, c: int, v: int, data: seq<byte>) returns (t: System)
    requires Ready(s, c, v) && 0 < |data| <= MAX_PAYLOAD && 0 <= c && 0 <= v
    ensures t == Play(s, ShipSteps(s.server, data)) && Notified(t.client, c, v, data)
  {
    PlayFour(s, ShipSteps(s.server, data));
    var u, sent, rest := Shipped(s, data);
    var seg := NextSegment(s.server, data);
    assert [] + data == data && data[..|data|] == data && sent == data;
    TakesData(u.client, c, v, seg);
    t := Apply(u, ToClient(seg));
  }

  lemma AcknowledgedAfter(s: System, c: int, v: int, data: seq<byte>) returns (t: System)
    requires Notified(s.client, c, v, data) && 0 <= c && 0 <= v
    ensures t == Apply(Apply(s, DoWake(true)), DoSend(true, 0)) && Acknowledgement(c, v, |data|) in t.toServer
    ensures t.client.state == Connected && t.client.receiveBuffer == data && t.client.sequence == Add(c, 1)
    ensures !t.client.expectFinAck && t.client.log.stream == []
  {
    ConnectedSends(s.client, 0);
    t := HandlerSteps(s, true);
    AddOne(v, |data|);
    assert s.client.sendBuffer[..0] == [] && [] + Items([]) + [] == [];
  }

  function AckRun(c: int, v: int, data: seq<byte>): seq<Step>
  {
    Shipping(HandshakeSteps(c, v, 0), data) + [DoWake(true)] + [DoSend(true, 0)]
  }

  lemma RunTwo(steps: seq<Step>, a: Step, b: Step)
    ensures Run(steps + [a] + [b]) == Apply(Apply(Run(steps), a), b)
  {
    assert (steps + [a])[..|steps|] == steps && (steps + [a] + [b])[..|steps + [a]|] == steps + [a];
  }

  /** After the handshake the server sends `data` and it arrives: the client acknowledges it, without a FIN, and stays
      connected. */
  lemma DataIsAcknowledged(c: int, v: int, data: seq<byte>)
    requires 0 <= c < U32 && 0 <= v < U32 && 0 < |data| <= MAX_PAYLOAD
    ensures var t := Run(AckRun(c, v, data));
      && Acknowledgement(c, v, |data|) in t.toServer && t.client.state == Connected && t.client.receiveBuffer == data
      && t.client.sequence == Add(c, 1) && !t.client.expectFinAck && Fin !in t.client.log.stream
  {
    var shaken := HandshakeSteps(c, v, 0);
    HandshakeCompletes(c, v, 0);
    RunPlay(shaken, ShipSteps(Run(shaken).server, data));
    RunTwo(Shipping(shaken, data), DoWake(true), DoSend(true, 0));
    var s := DataArrives(Run(shaken), c, v, data);
    var t := AcknowledgedAfter(s, c, v, data);
  }

  // ---------------------------------------------------------------- closing

  // The client closes. The segments: its FIN, the FIN of the server, and the last acknowledgement.

  function FirstFin(c: int, v: int): Segment { Segment(Add(c, 1), Add(v, 1), false, true, true, false, []) }

  function SecondFin(c: int, v: int): Segment { Segment(Add(v, 1), Add(c, 2), false, true, true, false, []) }

  function LastAck(c: int, v: int): Segment { Segment(Add(c, 2), Add(v, 2), false, true, false, false, []) }

  function FirstFinSteps(c: int, v: int): seq<Step>
  {
    [AppDisconnect(true), DoWake(true), DoSend(true, 0), ToServer(FirstFin(c, v))]
  }

  function SecondFinSteps(c: int, v: int): seq<Step>
  {
    [DoWake(false), DoSend(false, 0), ToClient(SecondFin(c, v)), ToClient(SecondFin(c, v))]
  }

  function LastAckSteps(c: int, v: int): seq<Step> { [DoWake(true), DoSend(true, 0), ToServer(LastAck(c, v))] }

  /** The client has sent its FIN. */
  predicate FinOut(s: Sock, c: int, v: int)
  {
    && s.state == Connected && s.work == Idle && s.expectFinAck && !s.finSent && s.receiveBuffer == []
    && s.sequence == Add(c, 2) && s.receivedSequence == v
  }

  /** The server has received it. */
  predicate FinIn(s: Sock, c: int, v: int)
  {
    && s.state == ReceivedFin && s.work == Idle && s.sendEvent > 0 && !s.expectFinAck && !s.finSent
    && s.sequence == Add(v, 1) && s.receivedSequence == Add(c, 1)
  }

  lemma TakesFin(q: Sock, c: int, v: int)
    requires Rested(q, v, c)
    ensures FinIn(ProcessPacket(q, FirstFin(c, v)), c, v)
  {
    assert InOrder(q, FirstFin(c, v));
  }

  lemma FinGoesOut(s: System, c: int, v: int) returns (t: System)
    requires Ready(s, c, v) && 0 <= c && 0 <= v
    ensures t == Apply(Apply(Apply(s, AppDisconnect(true)), DoWake(true)), DoSend(true, 0))
    ensures t.accepted && t.server == s.server && FinOut(t.client, c, v) && FirstFin(c, v) in t.toServer
  {
    var u := Apply(s, AppDisconnect(true));
    ConnectedSends(u.client, 0);
    t := HandlerSteps(u, true);
    AddOne(c, 1);
    assert u.client.sendBuffer[..0] == [] && Outgoing(Wake(u.client), 0) == FirstFin(c, v);
  }

  lemma FinArrives(s: System, c: int, v: int) returns (t: System)
    requires Ready(s, c, v) && 0 <= c && 0 <= v
    ensures t == Play(s, FirstFinSteps(c, v)) && t.accepted && FinOut(t.client, c, v) && FinIn(t.server, c, v)
    ensures FirstFin(c, v) in t.toServer
  {
    PlayFour(s, FirstFinSteps(c, v));
    var w := FinGoesOut(s, c, v);
    TakesFin(w.server, c, v);
    t := Apply(w, ToServer(FirstFin(c, v)));
  }

  /** The server has sent its FIN. */
  predicate AnswerOut(s: Sock, c: int, v: int)
  {
    && s.state == SentFin && s.work == Idle && !s.expectFinAck && s.sequence == Add(v, 2)
    && s.receivedSequence == Add(c, 1)
  }

  /** The server answers. */
  lemma ServerAnswers(s: System, c: int, v: int) returns (t: System)
    requires s.accepted && FinIn(s.server, c, v) && 0 <= c && 0 <= v
    ensures t == Apply(Apply(s, DoWake(false)), DoSend(false, 0)) && t.accepted && t.client == s.client
    ensures AnswerOut(t.server, c, v) && SecondFin(c, v) in t.toClient
  {
    HandshakeSends(s.server, 0);
    t := HandlerSteps(s, false);
    AddOne(v, 1);
    AddOne(c, 1);
  }

  /** The client takes the first copy of the FIN for the acknowledgement of its own and stays connected. The second copy
      is a FIN to it. */
  lemma FinArrivesTwice(s: System, c: int, v: int) returns (t: System, u: System)
    requires FinOut(s.client, c, v) && SecondFin(c, v) in s.toClient && 0 <= c && 0 <= v
    ensures t == Apply(s, ToClient(SecondFin(c, v))) && u == Apply(t, ToClient(SecondFin(c, v)))
    ensures t.client.state == Connected && t.client.finSent && t.client.receivedSequence == v
    ensures u.client.state == ReceivedFin && u.client.finSent && u.client.work == Idle && u.client.sendEvent > 0
    ensures u.client.sequence == Add(c, 2) && u.client.receivedSequence == Add(v, 1)
    ensures u.server == s.server && u.accepted == s.accepted
  {
    var seg := SecondFin(c, v);
    t := Apply(s, ToClient(seg));
    assert InOrder(s.client, seg) && t.client == s.client.(expectFinAck := false, finSent := true);
    u := Apply(t, ToClient(seg));
    assert InOrder(t.client, seg) && u.client == AcceptData(t.client, seg);
  }

  /** The last acknowledgement closes both sides. */
  lemma LastAckCloses(s: System, c: int, v: int) returns (t: System)
    requires s.accepted && s.client.state == ReceivedFin && s.client.finSent && s.client.work == Idle
    requires s.client.sendEvent > 0 && s.client.sequence == Add(c, 2) && s.client.receivedSequence == Add(v, 1)
    requires AnswerOut(s.server, c, v) && 0 <= c && 0 <= v
    ensures t == Apply(Apply(Apply(s, DoWake(true)), DoSend(true, 0)), ToServer(LastAck(c, v)))
    ensures t.client.state == None && t.client.log.closed && t.server.state == None && t.server.log.closed
  {
    HandshakeSends(s.client, 0);
    var u := HandlerSteps(s, true);
    AddOne(v, 1);
    AddOne(c, 1);
    assert Outgoing(Wake(s.client), 0) == LastAck(c, v) && InOrder(u.server, LastAck(c, v));
    t := Apply(u, ToServer(LastAck(c, v)));
  }

  lemma PlayThree(s: System, a: Step, b: Step, d: Step)
    ensures Play(s, [a, b, d]) == Apply(Apply(Apply(s, a), b), d)
  {
    assert [a, b, d][1..] == [b, d] && [b, d][1..] == [d] && [d][1..] == [];
    var t := Apply(s, a);
    assert Play(t, [b, d]) == Play(Apply(t, b), [d]);
    assert Play(Apply(t, b), [d]) == Play(Apply(Apply(t, b), d), []);
  }

  function CloseSteps(c: int, v: int): seq<Step>
  {
    HandshakeSteps(c, v, 0) + FirstFinSteps(c, v) + SecondFinSteps(c, v) + LastAckSteps(c, v)
  }

  /** After the handshake the client closes: its FIN reaches the server, the server answers with its own, and when that
      has arrived twice the last acknowledgement closes both sides. */
  lemma CloseCompletes(c: int, v: int)
    requires 0 <= c < U32 && 0 <= v < U32
    ensures var t := Run(HandshakeSteps(c, v, 0) + FirstFinSteps(c, v));
      FirstFin(c, v) in t.toServer && t.server.state == ReceivedFin && t.client.expectFinAck
    ensures var t := Run(CloseSteps(c, v));
      t.client.state == None && t.client.log.closed && t.server.state == None && t.server.log.closed
  {
    var shaken := HandshakeSteps(c, v, 0);
    HandshakeCompletes(c, v, 0);
    RunPlay(shaken, FirstFinSteps(c, v));
    var s := FinArrives(Run(shaken), c, v);
    RunPlay(shaken + FirstFinSteps(c, v), SecondFinSteps(c, v));
    PlayFour(s, SecondFinSteps(c, v));
    var t := ServerAnswers(s, c, v);
    var u, w := FinArrivesTwice(t, c, v);
    RunPlay(shaken + FirstFinSteps(c, v) + SecondFinSteps(c, v), LastAckSteps(c, v));
    PlayThree(w, DoWake(true), DoSend(true, 0), ToServer(LastAck(c, v)));
    var z := LastAckCloses(w, c, v);
  }

  // ---------------------------------------------------------------- resets

  /** The handler thread has looked at the state before the reset and will set another one after it. */
  predicate Revives(s: Sock) { s.work == SendHandshakeAck || (s.work == SendFinAck && !s.finSent) }

  predicate Over(s: Sock) { s.state == None && !Revives(s) }

  /** The connection of this side was opened and has ended. */
  predicate Ended(s: System, c: bool) { Over(At(s, c)) && if c then s.connected else s.accepted }

  /** Nothing more is taken in. */
  predicate TakesNothing(s: Sock, t: Sock)
  {
    t.log.taken == s.log.taken && t.log.delivered == s.log.delivered && t.log.written == s.log.written
  }

  lemma ProcessOver(s: Sock, seg: Segment)
    requires Over(s)
    ensures Over(ProcessPacket(s, seg)) && TakesNothing(s, ProcessPacket(s, seg))
  {
  }

  lemma HandlerOver(s: Sock, isn: int)
    requires Over(s)
    ensures s.sendEvent > 0 && s.work == Idle ==> Over(Wake(s)) && TakesNothing(s, Wake(s))
    ensures Over(Sent(s, isn)) && TakesNothing(s, Sent(s, isn))
  {
  }

  lemma AppOver(s: Sock, data: seq<byte>, max: nat)
    requires Over(s)
    ensures Send(s, data) == s && Disconnect(s) == s && Over(Receive(s, max)) && TakesNothing(s, Receive(s, max))
  {
  }

  lemma PacketEnded(s: System, step: Step, c: bool)
    requires Ended(s, c) && (step.ToServer? || step.ToClient? || step.Reset?)
    ensures Ended(Apply(s, step), c) && TakesNothing(At(s, c), At(Apply(s, step), c))
  {
    ProcessOver(At(s, c), step.segment);
  }

  lemma WakeEnded(s: System, d: bool, c: bool)
    requires Ended(s, c)
    ensures Ended(Apply(s, DoWake(d)), c) && TakesNothing(At(s, c), At(Apply(s, DoWake(d)), c))
  {
    WakeIs(s, d, c);
    HandlerOver(At(s, c), 0);
  }

  lemma SendEnded(s: System, d: bool, isn: int, c: bool)
    requires Ended(s, c)
    ensures Ended(Apply(s, DoSend(d, isn)), c) && TakesNothing(At(s, c), At(Apply(s, DoSend(d, isn)), c))
  {
    if d == c {
      HandlerOver(At(s, c), isn);
    }
  }

  lemma AppEnded(s: System, step: Step, c: bool)
    requires Ended(s, c) && (step.AppSend? || step.AppReceive? || step.AppDisconnect?)
    ensures Ended(Apply(s, step), c) && TakesNothing(At(s, c), At(Apply(s, step), c))
  {
    AppOver(At(s, c), if step.AppSend? then step.data else [], if step.AppReceive? then step.max else 0);
  }

  lemma ApplyEnded(s: System, step: Step, c: bool)
    requires Ended(s, c)
    ensures Ended(Apply(s, step), c) && TakesNothing(At(s, c), At(Apply(s, step), c))
  {
    if step.ToServer? || step.ToClient? || step.Reset? {
      PacketEnded(s, step, c);
    } else if step.DoWake? {
      WakeEnded(s, step.atClient, c);
    } else if step.DoSend? {
      SendEnded(s, step.atClient, step.isn, c);
    } else if step.AppSend? || step.AppReceive? || step.AppDisconnect? {
      AppEnded(s, step, c);
    }
  }

  lemma {:induction false} PlayEnded(s: System, steps: seq<Step>, c: bool)
    requires Ended(s, c)
    ensures Ended(Play(s, steps), c) && TakesNothing(At(s, c), At(Play(s, steps), c))
    decreases |steps|
  {
    if steps != [] {
      ApplyEnded(s, steps[0], c);
      PlayEnded(Apply(s, steps[0]), steps[1..], c);
    }
  }

  lemma Revived(s: System, c: bool)
    requires Revives(At(s, c))
    ensures At(Play(s, [DoSend(c, 0)]), c).state != None
  {
    var t := Apply(s, DoSend(c, 0));
    assert [DoSend(c, 0)][1..] == [] && Play(s, [DoSend(c, 0)]) == Play(t, []);
    assert At(t, c) == Sent(At(s, c), 0);
  }

  /** A reset ends the connection for good if and only if the handler thread is not just about to send the last ACK of
      the handshake or its FIN. */
  lemma ResetExactly(s: System, seg: Segment, c: bool)
    requires seg.rst && if c then s.connected else s.accepted
    ensures var t := Apply(s, Reset(c, seg));
      (forall steps {:trigger Play(t, steps)} :: At(Play(t, steps), c).state == None) <==> !Revives(At(s, c))
  {
    var t := Apply(s, Reset(c, seg));
    if Revives(At(s, c)) {
      Revived(t, c);
    } else {
      forall steps {:trigger Play(t, steps)} ensures At(Play(t, steps), c).state == None {
        PlayEnded(t, steps, c);
      }
    }
  }

  /** After a reset that ends the connection nothing more is taken in, whatever follows. */
  lemma ResetEnds(s: System, seg: Segment, c: bool, steps: seq<Step>)
    requires seg.rst && (if c then s.connected else s.accepted) && !Revives(At(s, c))
    ensures TakesNothing(At(s, c), At(Play(Apply(s, Reset(c, seg)), steps), c))
  {
    PlayEnded(Apply(s, Reset(c, seg)), steps, c);
  }

  function RaceSteps(c: int, v: int): seq<Step>
  {
    KnockSteps(c) + AnswerSteps(c, v) + [Reset(true, Segment(0, 0, false, false, false, true, []))] + [DoSend(true, 0)]
  }

  /** A reset that arrives between the waking and the sending of the last ACK of the handshake is lost. */
  lemma ResetIsLost(c: int, v: int)
    requires 0 <= c < U32 && 0 <= v < U32
    ensures Run(RaceSteps(c, v)).client.state == Connected
  {
    KnockedIs(c);
    RunPlay(KnockSteps(c), AnswerSteps(c, v));
    AnsweredIs(Run(KnockSteps(c)), c, v);
    var reset := Reset(true, Segment(0, 0, false, false, false, true, []));
    RunTwo(KnockSteps(c) + AnswerSteps(c, v), reset, DoSend(true, 0));
  }
}
