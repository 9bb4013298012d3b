/** The socket object of src/dev/net/tcp.cpp: its locked sections update its fields in place, and each of them does what
    the step of the same name in module `Tcp` says. */
module TcpSocket {
  import opened Tcp
  import opened Words

  class Tcp4Socket {
    var state: State
    var sequence: int
    var receivedSequence: int
    var pendingValid: bool
    var pendingSequence: int
    var doDisconnect: bool
    var expectFinAck: bool
    var finSent: bool
    var sendEvent: nat
    var sendBuffer: seq<byte>
    var receiveBuffer: seq<byte>
    /** What the handler thread is about to send. */
    var work: Work
    ghost var log: Log

    ghost function Value(): Sock
      reads this
    {
      Sock(state, sequence, receivedSequence, pendingValid, pendingSequence, doDisconnect, expectFinAck, finSent,
           sendEvent, sendBuffer, receiveBuffer, work, log)
    }

    constructor ()
      ensures Value() == Fresh()
    {
      state, sequence, receivedSequence := None, 0, 0;
      pendingValid, pendingSequence := false, 0;
      doDisconnect, expectFinAck, finSent := false, false, false;
      sendEvent, sendBuffer, receiveBuffer, work := 0, [], [], Idle;
      log := Fresh().log;
    }

    method OpenConnection(isn: int) returns (syn: Segment)
      modifies this
      ensures (Value(), syn) == Connect(old(Value()), isn)
    {
      sequence := Add(isn, 1);
      syn := Segment(isn, 0, true, false, false, false, []);
      state := SentSyn;
      log := log.(isnSet := true, isn := isn);
    }

    /** `accept` on the listening socket: null when no connection is pending. */
    method AcceptConnection() returns (socket: Tcp4Socket?)
      modifies this
      ensures socket == null <==> !old(pendingValid)
      ensures socket != null ==> fresh(socket) && socket.Value() == Accepted(old(pendingSequence))
      ensures Value() == old(Value()).(pendingValid := false)
    {
      if !pendingValid {
        return null;
      }
      socket := new Tcp4Socket();
      socket.state := SynAck;
      socket.receivedSequence := pendingSequence;
      socket.log := socket.log.(synced := true, peerIsn := pendingSequence);
      pendingValid := false;
      socket.sendEvent := socket.sendEvent + 1;
    }

    method WriteReceived(data: seq<byte>)
      modifies this`receiveBuffer, this`sendEvent, this`log
      ensures var full := |old(receiveBuffer)| + |data| > BUFFER;
        && receiveBuffer == (if full then old(receiveBuffer) else old(receiveBuffer) + data)
        && sendEvent == old(sendEvent) + (if full then 0 else 1)
        && log == old(log).(delivered := if full then old(log).delivered else old(log).delivered + data,
                            discarded := old(log).discarded || full)
    {
      if |receiveBuffer| + |data| > BUFFER {
        log := log.(discarded := true);
        return;
      }
      receiveBuffer := receiveBuffer + data;
      sendEvent := sendEvent + 1;
      log := log.(delivered := log.delivered + data);
    }

    method ReceiveData(seg: Segment)
      requires state == Connected
      modifies this
      ensures Value() == AcceptData(old(Value()), seg)
    {
      AddAdd(receivedSequence, 1, |seg.data|);
      log := log.(taken := log.taken + Items(seg.data) + if seg.fin then [Fin] else []);
      if seg.fin {
        state := ReceivedFin;
        sendEvent := sendEvent + 1;
        receivedSequence := Add(receivedSequence, 1);
      }
      receivedSequence := Add(receivedSequence, |seg.data|);
      WriteReceived(seg.data);
    }

    method Process(seg: Segment)
      modifies this
      ensures Value() == ProcessPacket(old(Value()), seg)
    {
      if seg.rst {
        state := None;
        return;
      }
      var inOrder := seg.ack && seg.sequence == Add(receivedSequence, 1) && seg.ackNumber == sequence;
      if expectFinAck {
        if inOrder {
          expectFinAck := false;
          finSent := true;
        }
        return;
      }
      match state
      case Listening =>
        if seg.syn && !pendingValid {
          pendingSequence := seg.sequence;
          pendingValid := true;
        }
      case SynAck =>
        if inOrder {
          state := Connected;
        }
      case SentSyn =>
        if !seg.syn || !seg.ack || seg.ackNumber != sequence {
          return;
        }
        receivedSequence := seg.sequence;
        state := ReceivedSynAck;
        sendEvent := sendEvent + 1;
        log := log.(synced := true, peerIsn := seg.sequence);
      case Connected =>
        if inOrder {
          ReceiveData(seg);
        }
      case SentFin =>
        if inOrder {
          state := None;
          log := log.(closed := true);
        }
      case _ =>
    }

    /** The handler thread passes `send_event.wait()` and looks at the state. */
    method HandlerWakes()
      requires sendEvent > 0
      modifies this
      ensures Value() == Wake(old(Value()))
    {
      sendEvent := sendEvent - 1;
      if state == SynAck {
        work := SendSynAck;
      } else if state == Connected {
        var size := |sendBuffer|;
        if size != 0 {
          var toSend := if size < MAX_PAYLOAD then size else MAX_PAYLOAD;
          work := SendData(sendBuffer[..toSend]);
          sendBuffer := sendBuffer[toSend..];
        } else if doDisconnect {
          work := SendFin;
        } else {
          work := SendAck;
        }
      } else if state == ReceivedFin {
        work := SendFinAck;
      } else if state == ReceivedSynAck {
        work := SendHandshakeAck;
      }
    }

    /** The packet that the handler thread builds; `isn` is the random number drawn. */
    method BuildPacket(isn: int) returns (seg: Segment)
      ensures seg == Outgoing(Value(), isn)
    {
      var ackNumber := Add(receivedSequence, 1);
      seg := Segment(sequence, ackNumber, false, true, false, false, []);
      match work {
        case SendSynAck => seg := seg.(sequence := isn, syn := true);
        case SendData(data) => seg := seg.(data := data);
        case SendFin => seg := seg.(fin := true);
        case SendFinAck => seg := seg.(fin := !finSent);
        case _ =>
      }
    }

    /** The answer to a FIN, after the own FIN or with it. */
    method AdvanceFinAck()
      requires work == SendFinAck
      modifies this
      ensures Value() == Sent(old(Value()), 0)
    {
      sequence := Add(sequence, 1);
      log := log.(stream := log.stream + [if finSent then ClosingAck else Fin], closed := log.closed || finSent);
      state := if finSent then None else SentFin;
      work := Idle;
    }

    /** What the packet means for the socket. */
    method Advance(isn: int)
      requires work != SendFinAck
      modifies this
      ensures Value() == Sent(old(Value()), isn)
    {
      match work {
        case SendSynAck =>
          sequence := Add(isn, 1);
          log := log.(isnSet := true, isn := isn);
        case SendData(data) =>
          sequence := Add(sequence, |data|);
          log := log.(stream := log.stream + Items(data));
        case SendFin =>
          sequence := Add(sequence, 1);
          doDisconnect := false;
          expectFinAck := true;
          log := log.(stream := log.stream + [Fin]);
        case SendHandshakeAck =>
          state := Connected;
        case _ =>
      }
      work := Idle;
    }

    /** The handler thread builds its packet and hands it to the network card. */
    method HandlerSends(isn: int) returns (seg: Segment)
      requires work != Idle
      modifies this
      ensures Value() == Sent(old(Value()), isn) && seg == Outgoing(old(Value()), isn)
    {
      seg := BuildPacket(isn);
      if work == SendFinAck {
        AdvanceFinAck();
      } else {
        Advance(isn);
      }
    }

    /** `send` on a non-blocking socket. */
    method Write(data: seq<byte>) returns (size: nat)
      requires |sendBuffer| <= BUFFER
      modifies this
      ensures Value() == Send(old(Value()), data) && |sendBuffer| <= BUFFER
      ensures size <= |data| && sendBuffer == old(sendBuffer) + data[..size]
      ensures size == if old(state) == Connected then Min(|data|, BUFFER - |old(sendBuffer)|) else 0
    {
      if state != Connected {
        return 0;
      }
      size := if |data| < BUFFER - |sendBuffer| then |data| else BUFFER - |sendBuffer|;
      sendBuffer := sendBuffer + data[..size];
      log := log.(written := log.written + data[..size]);
      sendEvent := sendEvent + 1;
    }

    /** `receive` on a non-blocking socket. */
    method Read(max: nat) returns (data: seq<byte>)
      modifies this
      ensures Value() == Receive(old(Value()), max) && data + receiveBuffer == old(receiveBuffer)
      ensures |data| == Min(max, |old(receiveBuffer)|)
    {
      var n := if max < |receiveBuffer| then max else |receiveBuffer|;
      data := receiveBuffer[..n];
      receiveBuffer := receiveBuffer[n..];
      log := log.(read := log.read + data);
    }

    method Close()
      modifies this
      ensures Value() == Disconnect(old(Value()))
      ensures doDisconnect == (old(doDisconnect) || old(state) == Connected)
      ensures sendEvent == old(sendEvent) + if old(state) == Connected then 1 else 0
    {
      if state != Connected {
        return;
      }
      doDisconnect := true;
      sendEvent := sendEvent + 1;
    }
  }

  // ---------------------------------------------------------------- two machines

  lemma SentSize(s: Sock, isn: int)
    ensures Sent(s, isn).sendBuffer == s.sendBuffer
  {
  }

  /** Three socket objects and the segments in the network. */
  class Machines {
    const client: Tcp4Socket
    const listener: Tcp4Socket
    var server: Tcp4Socket
    var connected: bool
    var accepted: bool
    var toServer: set<Segment>
    var toClient: set<Segment>

    ghost predicate Valid()
      reads this, client, server
    {
      && client != listener && client != server && listener != server
      && |client.sendBuffer| <= BUFFER && |server.sendBuffer| <= BUFFER
    }

    ghost function Value(): System
      reads this, client, listener, server
    {
      System(client.Value(), listener.Value(), server.Value(), connected, accepted, toServer, toClient)
    }

    constructor ()
      ensures Valid() && Value() == Start() && fresh(client) && fresh(listener) && fresh(server)
    {
      client := new Tcp4Socket();
      listener := new Tcp4Socket();
      server := new Tcp4Socket();
      connected, accepted, toServer, toClient := false, false, {}, {};
    }

    method DoSetup(step: Step)
      requires Valid() && (step.DoConnect? || step.DoListen? || step.ListenReturns? || step.DoAccept?)
      modifies this, client, listener
      ensures Valid() && Value() == Apply(old(Value()), step) && (server == old(server) || fresh(server))
    {
      match step
      case DoConnect(isn) =>
        if !connected && 0 <= isn < U32 {
          var syn := client.OpenConnection(isn);
          connected, toServer := true, toServer + {syn};
        }
      case DoListen => listener.state := Listening;
      case ListenReturns => listener.state := None;
      case DoAccept =>
        if !accepted {
          var socket := listener.AcceptConnection();
          if socket != null {
            server, accepted := socket, true;
          }
        }
    }

    method Deliver(step: Step)
      requires Valid() && (step.ToServer? || step.ToClient? || step.Reset?)
      modifies client, listener, server
      ensures Valid() && Value() == Apply(old(Value()), step)
    {
      match step
      case ToServer(seg) =>
        if seg in toServer {
          if accepted {
            server.Process(seg);
          } else if listener.state == Listening {
            listener.Process(seg);
          }
        }
      case ToClient(seg) =>
        if seg in toClient {
          client.Process(seg);
        }
      case Reset(atClient, seg) =>
        if seg.rst {
          var socket := if atClient then client else server;
          socket.Process(seg);
        }
    }

    method WakeHandler(atClient: bool)
      requires Valid()
      modifies client, server
      ensures Valid() && Value() == Apply(old(Value()), DoWake(atClient))
    {
      var socket := if atClient then client else server;
      if socket.sendEvent > 0 && socket.work == Idle {
        socket.HandlerWakes();
      }
    }

    method RunHandler(atClient: bool, isn: int)
      requires Valid()
      modifies this`toServer, this`toClient, client, server
      ensures Valid() && Value() == Apply(old(Value()), DoSend(atClient, isn))
    {
      var socket := if atClient then client else server;
      if socket.work != Idle && 0 <= isn < U32 {
        SentSize(socket.Value(), isn);
        var seg := socket.HandlerSends(isn);
        if atClient {
          toServer := toServer + {seg};
        } else {
          toClient := toClient + {seg};
        }
      }
    }

    method RunApplication(step: Step)
      requires Valid() && (step.AppSend? || step.AppReceive? || step.AppDisconnect?)
      modifies client, server
      ensures Valid() && Value() == Apply(old(Value()), step)
    {
      var socket := if step.atClient then client else server;
      match step
      case AppSend(_, data) => var size := socket.Write(data);
      case AppReceive(_, max) => var data := socket.Read(max);
      case AppDisconnect(_) => socket.Close();
    }

    /** Every step of the protocol is a call on the objects. */
    method Do(step: Step)
      requires Valid()
      modifies this, client, listener, server
      ensures Valid() && Value() == Apply(old(Value()), step) && (server == old(server) || fresh(server))
    {
      match step
      case ToServer(_) => Deliver(step);
      case ToClient(_) => Deliver(step);
      case Reset(_, _) => Deliver(step);
      case DoWake(atClient) => WakeHandler(atClient);
      case DoSend(atClient, isn) => RunHandler(atClient, isn);
      case AppSend(_, _) => RunApplication(step);
      case AppReceive(_, _) => RunApplication(step);
      case AppDisconnect(_) => RunApplication(step);
      case _ => DoSetup(step);
    }
  }

  /** The objects, driven by any steps, go through the states of the protocol: each side delivers a prefix of what the
      other has sent. */
  method Replay(steps: seq<Step>) returns (m: Machines)
    ensures m.Valid() && m.Value() == Run(steps)
    ensures Bounded(m.Value()) ==>
      Faithful(m.client.Value(), m.server.Value()) && Faithful(m.server.Value(), m.client.Value())
  {
    m := new Machines();
    for i := 0 to |steps|
      invariant m.Valid() && m.Value() == Run(steps[..i])
      invariant fresh(m) && fresh(m.client) && fresh(m.listener) && fresh(m.server)
    {
      assert steps[..i + 1][..i] == steps[..i];
      m.Do(steps[i]);
    }
    assert steps[..|steps|] == steps;
    if Bounded(Run(steps)) {
      DeliveredIsPrefix(steps);
    }
  }
}
