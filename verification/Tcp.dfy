/** A TCP socket opened from this side: segments in, in-order bytes out to the socket's buffer. */
module Tcp {
  import opened Words
  import opened SocketFifo
  import opened TcpLink

  class Connection {
    var state: State
    var sequence: u32
    var ackNumber: u32
    var bound: bool           // in the table that segments are looked up in
    var sent: seq<Segment>    // what was handed to the network
    const fifo: Fifo
    ghost var past: History

    /** The connection as a value. */
    ghost function View(): Link
      reads this`state, this`sequence, this`ackNumber, this`past
    {
      Link(state, sequence, ackNumber, past)
    }

    /** Bytes handed up are read in order, none lost and none twice. */
    ghost predicate Buffered()
      reads this`past, fifo, fifo.data
    {
      fifo.Valid() && past.up == past.taken + fifo.Contents()
    }

    ghost predicate Valid()
      reads this`state, this`sequence, this`ackNumber, this`past, fifo, fifo.data
    {
      Buffered() && View().Sound()
    }

    /** tcp_connect, up to the first segment sent. */
    constructor (now: u32, ghost peer: Peer)
      requires |peer.stream| < 0x1_0000_0000
      ensures Valid() && bound && state == SynSent && sequence == now && ackNumber == 0
      ensures past == History(peer, now, [], 0, [], [], false, false, false, true)
      ensures fresh(fifo) && fifo.data == null && sent == [Bare(SynFlag, now, 0)]
    {
      fifo := new Fifo();
      state, sequence, ackNumber, bound := SynSent, now, 0, true;
      past := History(peer, now, [], 0, [], [], false, false, false, true);
      sent := [Bare(SynFlag, now, 0)];
    }

    /** tcp_socket_send_internal. */
    method SendInternal(data: seq<byte>, flags: Flags)
      modifies this`sequence, this`sent
      ensures sequence == Wrap(old(sequence) + |data|)
      ensures sent == old(sent) + [Segment(flags, old(sequence), ackNumber, data)]
    {
      sent := sent + [Segment(flags, sequence, ackNumber, data)];
      sequence := Wrap(sequence + |data|);
    }

    /** tcp_socket_send. Until we hang up, byte number i of all that is sent after the handshake has
        sequence number iss + 1 + i. */
    method Send(data: seq<byte>)
      requires Valid()
      modifies this`sequence, this`sent, this`past
      ensures Valid() && View() == old(View()).Wrote(data)
      ensures sent == old(sent) + [Segment(PshAck, old(sequence), ackNumber, data)]
      ensures past.shaken && !past.hungUp ==> old(sequence) == Wrap(past.iss + 1 + |old(past.written)|)
    {
      WroteSound(View(), data);
      SendInternal(data, PshAck);
      past := past.(written := past.written + data);
    }

    /** tcp_socket_disconnect. */
    method Disconnect()
      requires Valid() && state != Closed
      modifies this`state, this`sequence, this`sent, this`past
      ensures Valid() && View() == old(View()).HungUp()
      ensures sent == old(sent) + [Bare(FinAck, old(sequence), ackNumber)]
    {
      NextSound(View(), Hangup);
      state := FinWait1;
      SendInternal([], FinAck);
      sequence := Wrap(sequence + 1);
      past := old(View()).HungUp().past;
    }

    /** One poll of socket_recv. */
    method Take(size: nat) returns (bytes: seq<byte>)
      requires Valid()
      modifies this`past, fifo`count, fifo.data
      ensures Valid() && View() == old(View()).Took(size) && past.taken == old(past.taken) + bytes
    {
      ghost var was := fifo.Contents();
      bytes := fifo.Take(size);
      Regroup(past.taken, bytes, fifo.Contents());
      past := past.(taken := past.taken + bytes);
      assert past.taken == past.up[..|past.taken|];
    }

    // ----- receiving -----

    /** What the switch on SYN, ACK and FIN leaves, before a reset. */
    twostate predicate Switched(s: Segment, reset: bool)
      reads this, fifo, fifo.data
    {
      var inOrder := s.seqNo == old(ackNumber);
      && reset == Resets(old(state), s.flags, inOrder)
      && (if reset then state == old(state) && sent == old(sent)
          else
            && state == NextState(old(state), s.flags, inOrder)
            && sent == old(sent) + Replies(old(state), s.flags, inOrder, sequence, ackNumber))
      && sequence == Wrap(old(sequence) + if Shakes(old(state), s.flags) then 1 else 0)
      && ackNumber == NextAck(old(state), s.flags, s.seqNo, |s.payload|, old(ackNumber))
    }

    /** The data branch: the segment that comes next is handed up and acknowledged, any other resets. */
    method Data(s: Segment) returns (reset: bool)
      requires fifo.Valid() && Considered(state, s.flags)
      modifies this`ackNumber, this`sent, this`sequence, fifo, fifo.data
      ensures fifo.Valid() && Switched(s, reset) && (fifo.data == old(fifo.data) || fresh(fifo.data))
      ensures fifo.Contents() == old(fifo.Contents()) + Passed(state, old(ackNumber), s)
    {
      if s.seqNo == ackNumber {
        fifo.Append(s.payload);
        ackNumber := Wrap(ackNumber + |s.payload|);
        SendInternal([], AckFlag);
        return false;
      }
      return true;
    }

    /** SYN and ACK of the peer: the handshake completes, or the connection is reset. */
    method SynAcked(s: Segment) returns (reset: bool)
      requires s.flags.syn && s.flags.ack && !s.flags.fin
      modifies this`state, this`ackNumber, this`sequence, this`sent
      ensures Switched(s, reset)
    {
      if state != SynSent {
        return true;
      }
      state, ackNumber, sequence := Established, Wrap(s.seqNo + 1), Wrap(sequence + 1);
      SendInternal([], AckFlag);
      return false;
    }

    /** FIN of the peer. */
    method Finished(s: Segment) returns (reset: bool)
      requires state != Closed && s.flags.fin && !s.flags.syn
      modifies this`state, this`ackNumber, this`sequence, this`sent
      ensures Switched(s, reset)
    {
      if state == Established {
        state, ackNumber := CloseWait, Wrap(ackNumber + 1);
        SendInternal([], AckFlag);
        SendInternal([], FinAck);
      } else if state == CloseWait {
        state := Closed;
      } else if state == FinWait1 || state == FinWait2 {
        state, ackNumber := Closed, Wrap(ackNumber + 1);
        SendInternal([], AckFlag);
      } else {
        return true;
      }
      return false;
    }

    /** A segment without SYN or FIN. */
    method Plainly(s: Segment) returns (reset: bool)
      requires fifo.Valid() && state != Closed && !s.flags.fin && !s.flags.syn
      modifies this`state, this`ackNumber, this`sequence, this`sent, fifo, fifo.data
      ensures fifo.Valid() && Switched(s, reset) && (fifo.data == old(fifo.data) || fresh(fifo.data))
      ensures fifo.Contents() == old(fifo.Contents()) + Passed(old(state), old(ackNumber), s)
    {
      reset := false;
      if s.flags.ack {
        if state == SynReceived {
          state := Established;
          return;
        } else if state == FinWait1 {
          state := FinWait2;
          return;
        } else if state == CloseWait {
          state := Closed;
          return;
        }
        if s.flags == AckFlag {
          return;
        }
      }
      reset := Data(s);
    }

    /** The switch on SYN, ACK and FIN. */
    method Switch(s: Segment) returns (reset: bool)
      requires fifo.Valid() && state != Closed && !(s.flags.syn && state == Listen)
      modifies this`state, this`ackNumber, this`sequence, this`sent, fifo, fifo.data
      ensures fifo.Valid() && Switched(s, reset) && (fifo.data == old(fifo.data) || fresh(fifo.data))
      ensures fifo.Contents() == old(fifo.Contents()) + Passed(old(state), old(ackNumber), s)
    {
      if s.flags.syn && s.flags.ack && !s.flags.fin {
        reset := SynAcked(s);
      } else if s.flags.syn {
        reset := true;
      } else if s.flags.fin {
        reset := Finished(s);
      } else {
        reset := Plainly(s);
      }
    }

    /** Reset the connection if need be, and drop a closed socket from the table. */
    method Conclude(reset: bool)
      modifies this`state, this`bound, this`sent, this`sequence
      ensures sequence == old(sequence) && state == (if reset then Closed else old(state))
      ensures bound == (old(bound) && state != Closed)
      ensures sent == old(sent) + if reset then [Bare(RstFlag, sequence, ackNumber)] else []
    {
      if reset {
        SendInternal([], RstFlag);
        state := Closed;
      }
      if state == Closed {
        bound := false;
      }
    }

    /** The switch and what follows it. */
    method Respond(s: Segment)
      requires fifo.Valid() && bound && state != Closed && !(s.flags.syn && state == Listen)
      modifies this`state, this`ackNumber, this`sequence, this`sent, this`bound, fifo, fifo.data
      ensures fifo.Valid() && (fifo.data == old(fifo.data) || fresh(fifo.data)) && bound == (state != Closed)
      ensures fifo.Contents() == old(fifo.Contents()) + Passed(old(state), old(ackNumber), s)
      ensures var inOrder := s.seqNo == old(ackNumber);
        && state == NextState(old(state), s.flags, inOrder)
        && sent == old(sent) + Replies(old(state), s.flags, inOrder, sequence, ackNumber)
        && sequence == Wrap(old(sequence) + if Shakes(old(state), s.flags) then 1 else 0)
        && ackNumber == NextAck(old(state), s.flags, s.seqNo, |s.payload|, old(ackNumber))
    {
      var reset := Switch(s);
      Conclude(reset);
    }

    /** tcp_ipv4_recv, for a segment that is routed here while the socket is bound. */
    method Receive(s: Segment)
      requires Valid() && bound && state != Closed && !(s.flags.syn && state == Listen)
      modifies this, fifo, fifo.data
      ensures Valid() && View() == old(View()).Heard(s) && bound == (state != Closed)
      ensures sent == old(sent) + Replies(old(state), s.flags, s.seqNo == old(ackNumber), sequence, ackNumber)
      ensures fifo.data == old(fifo.data) || fresh(fifo.data)
    {
      HeardSound(View(), s);
      Regroup(past.taken, fifo.Contents(), Passed(state, ackNumber, s));
      Respond(s);
      past := old(past.Heard(state, ackNumber, s));
    }
  }

  /** One step of a run. Segments for a socket that is no longer bound are not routed to it. */
  method Handle(c: Connection, e: Event) returns (read: seq<byte>)
    requires c.Valid() && c.bound == (c.state != Closed) && c.state != Listen
    modifies c, c.fifo, c.fifo.data
    ensures c.Valid() && c.bound == (c.state != Closed) && c.state != Listen
    ensures c.View() == old(c.View()).Next(e) && c.past.taken == old(c.past.taken) + read
    ensures c.sent == old(c.sent) + old(c.View()).Sends(e)
    ensures c.fifo.data == old(c.fifo.data) || fresh(c.fifo.data)
  {
    read := [];
    match e
    case Arrive(segment) =>
      if c.bound {
        c.Receive(segment);
      }
    case Write(data) =>
      if c.bound {
        c.Send(data);
      }
    case Read(size) =>
      read := c.Take(size);
    case Hangup =>
      if c.bound {
        c.Disconnect();
      }
  }

  /** Every run of a socket. If each segment is genuine and no disconnect can hide a byte, what was
      read since the handshake is a prefix of what was delivered, and that of the peer's stream. */
  method Run(c: Connection, events: seq<Event>) returns (bytes: seq<byte>)
    requires c.Valid() && c.bound == (c.state != Closed) && c.state != Listen
    modifies c, c.fifo, c.fifo.data
    ensures c.Valid() && c.bound == (c.state != Closed) && c.state != Listen
    ensures c.View() == old(c.View()).After(events) && c.past.taken == old(c.past.taken) + bytes
    ensures c.sent == old(c.sent) + old(c.View()).SentOver(events)
    ensures old(c.past.regular) && Honest(old(c.View()), events) ==>
      c.past.regular && c.past.peer == old(c.past.peer) && (c.past.shaken ==> Faithful(c.past))
    ensures c.fifo.data == old(c.fifo.data) || fresh(c.fifo.data)
  {
    bytes := [];
    ghost var start := c.View();
    if start.past.regular && Honest(start, events) {
      HonestRun(start, events);
    }
    assert events[0..] == events;
    for i := 0 to |events|
      invariant c.Valid() && c.bound == (c.state != Closed) && c.state != Listen
      invariant c.View().After(events[i..]) == start.After(events) && c.past.taken == start.past.taken + bytes
      invariant c.sent + c.View().SentOver(events[i..]) == old(c.sent) + start.SentOver(events)
      invariant c.fifo.data == old(c.fifo.data) || fresh(c.fifo.data)
    {
      Onward(c.View(), events, i);
      RegroupSent(c.sent, c.View().Sends(events[i]), c.View().Next(events[i]).SentOver(events[i + 1..]));
      var read := Handle(c, events[i]);
      Regroup(start.past.taken, bytes, read);
      bytes := bytes + read;
    }
  }

  /** A new connection whose peer sends genuine segments, and that is not hung up once a FIN came:
      without anything handed up before the handshake, all that is read is a prefix of the stream. */
  method Session(now: u32, ghost peer: Peer, events: seq<Event>) returns (c: Connection, bytes: seq<byte>)
    requires |peer.stream| < 0x1_0000_0000 && Plain(peer, false, events)
    ensures c.Valid() && c.past.taken == bytes && c.past.peer == peer && c.past.regular
    ensures c.past.shaken ==> From(bytes, c.past.mark) <= c.past.Delivered() <= peer.stream
    ensures c.past.shaken && c.past.mark == 0 ==> bytes <= peer.stream
  {
    c := new Connection(now, peer);
    PlainHonest(c.View(), false, events);
    bytes := Run(c, events);
  }

  /** The condition on hanging up is needed: a FIN is counted whatever its sequence number, and a
      disconnect after it opens the data path again, one byte further on. All segments here are
      genuine, and the first byte is skipped. */
  method SkippedByte(events: seq<Event>) returns (c: Connection)
    requires Skipping(events)
    ensures c.Valid() && c.past.peer == Peer([1, 2, 3], 100) && c.past.shaken
    ensures forall e :: e in events && e.Arrive? ==> c.past.peer.Genuine(e.segment)
    ensures c.past.up == [2, 3] && !(c.past.Delivered() <= c.past.peer.stream)
  {
    c := new Connection(0, Peer([1, 2, 3], 100));
    SkippingRun(c.View(), events);
    var bytes := Run(c, events);
  }

  /** A new connection, the answer to its SYN, a stream in consecutive slices, and enough reads. */
  method Download(now: u32, ghost peer: Peer, answer: Segment, ghost isn: nat, segments: seq<Segment>, sizes: seq<nat>)
    returns (c: Connection, bytes: seq<byte>)
    requires |peer.stream| < 0x1_0000_0000
    requires answer.flags == SynAck && answer.seqNo == Wrap(isn) && InRow(segments, isn + 1)
    requires Total(sizes) >= |Carried(segments)|
    ensures c.Valid() && c.state == Established && bytes == Carried(segments)
    ensures c.ackNumber == Wrap(isn + 1 + |bytes|) && c.sequence == Wrap(now + 1)
    ensures c.sent == [Segment(SynFlag, now, 0, [])]
      + ([Segment(AckFlag, Wrap(now + 1), Wrap(isn + 1), [])] + AckEach(segments, Wrap(now + 1), isn + 1))
  {
    c := new Connection(now, peer);
    Downloads(c.View(), answer, isn, segments, sizes);
    bytes := Run(c, DownloadEvents(answer, segments, sizes));
  }

  lemma RegroupSent(a: seq<Segment>, b: seq<Segment>, c: seq<Segment>)
    ensures (a + b) + c == a + (b + c)
  {
  }

  lemma Regroup(a: seq<byte>, b: seq<byte>, c: seq<byte>)
    ensures (a + b) + c == a + (b + c)
  {
  }
}
