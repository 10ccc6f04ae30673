/** TCP as steps of a connection seen from one side: what each segment does, and which bytes of the
    peer's stream are delivered over whole runs. */
module TcpLink {
  import opened Words

  datatype State =
    | Closed | Listen | SynSent | SynReceived | Established
    | FinWait1 | FinWait2 | Closing | TimeWait | CloseWait

  /** Header flags; `rest` stands for URG, ECE and CWR. */
  datatype Flags = Flags(fin: bool, syn: bool, rst: bool, psh: bool, ack: bool, rest: bool)

  const AckFlag: Flags := Flags(false, false, false, false, true, false)
  const FinAck: Flags := Flags(true, false, false, false, true, false)
  const RstFlag: Flags := Flags(false, false, true, false, false, false)
  const PshAck: Flags := Flags(false, false, false, true, true, false)
  const SynFlag: Flags := Flags(false, true, false, false, false, false)
  const SynAck: Flags := Flags(false, true, false, false, true, false)

  /** A 32-bit unsigned number. */
  type u32 = x: int | 0 <= x < 0x1_0000_0000

  datatype Segment = Segment(flags: Flags, seqNo: u32, ackNo: u32, payload: seq<byte>)

  /** Sequence numbers are 32 bits wide. */
  function Wrap(n: nat): u32 {
    n % 0x1_0000_0000
  }

  // ----- what a segment does -----

  /** The segment gets as far as the comparison of sequence numbers. One that is only an
      acknowledgement does not; its payload, if any, is not looked at. */
  predicate Considered(s: State, f: Flags) {
    && s != Closed && !f.syn && !f.fin && f != AckFlag
    && !(f.ack && (s == SynReceived || s == FinWait1 || s == CloseWait))
  }

  /** The segment completes the handshake. */
  predicate Shakes(s: State, f: Flags) {
    s == SynSent && f.syn && f.ack && !f.fin
  }

  /** The segment acknowledges a FIN of the peer. */
  predicate TakesFin(s: State, f: Flags) {
    f.fin && !f.syn && (s == Established || s == FinWait1 || s == FinWait2)
  }

  /** The segment does not fit and resets the connection. */
  predicate Resets(s: State, f: Flags, inOrder: bool) {
    if f.syn then !Shakes(s, f)
    else if f.fin then !TakesFin(s, f) && s != CloseWait
    else Considered(s, f) && !inOrder
  }

  /** The state after a segment. */
  function NextState(s: State, f: Flags, inOrder: bool): State {
    if s == Closed then Closed
    else if f.syn then (if Shakes(s, f) then Established else Closed)
    else if f.fin then (if s == Established then CloseWait else Closed)
    else if f.ack && s == SynReceived then Established
    else if f.ack && s == FinWait1 then FinWait2
    else if f.ack && s == CloseWait then Closed
    else if f == AckFlag || inOrder then s
    else Closed
  }

  /** The acknowledgement number after a segment. */
  function NextAck(s: State, f: Flags, seqNo: u32, len: nat, ackNo: u32): u32 {
    if Resets(s, f, seqNo == ackNo) then ackNo
    else if f.syn then Wrap(seqNo + 1)
    else if f.fin then (if TakesFin(s, f) then Wrap(ackNo + 1) else ackNo)
    else if Considered(s, f) then Wrap(ackNo + len)
    else ackNo
  }

  /** A segment without data. */
  function Bare(f: Flags, seqNo: u32, ackNo: u32): Segment {
    Segment(f, seqNo, ackNo, [])
  }

  /** What is sent in return. */
  function Replies(s: State, f: Flags, inOrder: bool, seqNo: u32, ackNo: u32): seq<Segment> {
    if Resets(s, f, inOrder) then [Bare(RstFlag, seqNo, ackNo)]
    else if f.fin && s == Established then [Bare(AckFlag, seqNo, ackNo), Bare(FinAck, seqNo, ackNo)]
    else if f.syn || TakesFin(s, f) || Considered(s, f) then [Bare(AckFlag, seqNo, ackNo)]
    else []
  }

  /** The bytes of a segment that are handed up to the socket's buffer. */
  function Passed(s: State, ackNo: u32, x: Segment): seq<byte> {
    if Considered(s, x.flags) && x.seqNo == ackNo then x.payload else []
  }

  // ----- what is remembered of a connection -----

  /** The other side: the bytes it sends, and its initial sequence number. */
  datatype Peer = Peer(stream: seq<byte>, isn: nat) {
    /** A segment that acknowledges and carries a slice of the stream; one that answers our SYN
        carries the initial sequence number. */
    ghost predicate Genuine(s: Segment) {
      s.flags.ack && (if s.flags.syn then s.seqNo == isn else exists off: nat :: Slice(s, off))
    }

    ghost predicate Slice(s: Segment, off: nat) {
      off + |s.payload| <= |stream| && s.seqNo == Wrap(isn + 1 + off) && s.payload == stream[off..off + |s.payload|]
    }

    /** Bytes `j` and `j + 1` of the stream are the same. */
    ghost predicate Repeats(j: nat)
      requires j + 1 < |stream|
    {
      stream[j] == stream[j + 1]
    }

    /** Skipping the byte at offset `n` does not show: all bytes from there on are the same, as when
        there is at most one. The last offset is excluded, since after it the numbers wrap. */
    ghost predicate Harmless(n: nat) {
      n < 0xFFFF_FFFF && forall j {:trigger Repeats(j)} :: n <= j && j + 1 < |stream| ==> Repeats(j)
    }

    /** An acknowledgement number stands for offset `k` after the initial number. */
    ghost predicate Expects(ackNo: u32, k: nat) {
      forall m {:trigger Number(m)} :: m == k ==> ackNo == Number(m)
    }

    ghost function Number(k: nat): u32 {
      Wrap(isn + k)
    }
  }

  /** A sequence from a position on. */
  function From(s: seq<byte>, mark: nat): seq<byte> {
    if mark <= |s| then s[mark..] else []
  }

  datatype History = History(
    peer: Peer,
    iss: nat,            // our initial sequence number
    up: seq<byte>,       // bytes handed up to the socket's buffer
    mark: nat,           // how many of them before the handshake
    taken: seq<byte>,    // bytes read by the application
    written: seq<byte>,  // bytes sent by the application
    shaken: bool,        // SYN and ACK of the peer were accepted
    finSeen: bool,       // a FIN was accepted after that
    hungUp: bool,        // this side disconnected
    regular: bool)       // genuine segments since the handshake, and no disconnect that can skip
  {
    /** Bytes handed up since the handshake. */
    ghost function Delivered(): seq<byte> {
      From(up, mark)
    }

    /** Those of them that were read. */
    ghost function ReadSince(): seq<byte> {
      From(taken, mark)
    }

    /** No FIN was counted, or the byte that it may hide does not show. */
    ghost predicate MayHangUp() {
      shaken && finSeen ==> peer.Harmless(|Delivered()|)
    }

    /** Our bytes are numbered one after the other, the SYN before them, until we hang up. */
    ghost predicate Numbered(seqNo: u32) {
      forall m {:trigger Wrap(m)} :: !hungUp && m == iss + (if shaken then 1 else 0) + |written| ==> seqNo == Wrap(m)
    }

    /** The bytes handed up are a prefix of the stream. The next byte is expected, after a FIN the
        one after it; then no data is taken until this side hangs up. */
    ghost predicate InOrder(state: State, ackNo: u32) {
      && Delivered() <= peer.stream
      && (state != Closed && !finSeen ==> peer.Expects(ackNo, 1 + |Delivered()|))
      && (state != Closed && finSeen ==>
            && peer.Expects(ackNo, 2 + |Delivered()|)
            && (state == CloseWait || ((state == FinWait1 || state == FinWait2) && peer.Harmless(|Delivered()|))))
    }

    /** The history with one more segment, met in a state and with an acknowledgement number. */
    ghost function Heard(state: State, ackNo: u32, s: Segment): History {
      if Shakes(state, s.flags) then
        this.(mark := |up|, shaken := true, finSeen := false, regular := s.seqNo == peer.isn)
      else
        this.(up := up + Passed(state, ackNo, s),
              finSeen := finSeen || TakesFin(state, s.flags),
              regular := regular && (shaken ==> peer.Genuine(s)))
    }
  }

  /** What happens to a connection, each step atomic. */
  datatype Event = Arrive(segment: Segment) | Write(data: seq<byte>) | Read(size: nat) | Hangup

  /** A connection: the numbers of the socket and what happened so far. */
  datatype Link = Link(state: State, sequence: u32, ackNumber: u32, past: History) {
    ghost predicate Sound() {
      && |past.peer.stream| < 0x1_0000_0000 && past.mark <= |past.up| && past.taken <= past.up
      && (past.shaken ==> state != SynSent && state != SynReceived && state != Listen)
      && (past.shaken && past.regular ==> past.InOrder(state, ackNumber))
      && past.Numbered(sequence)
    }

    /** A segment arrives. */
    ghost function Heard(s: Segment): Link {
      Link(NextState(state, s.flags, s.seqNo == ackNumber),
           Wrap(sequence + if Shakes(state, s.flags) then 1 else 0),
           NextAck(state, s.flags, s.seqNo, |s.payload|, ackNumber),
           past.Heard(state, ackNumber, s))
    }

    /** The application sends. */
    ghost function Wrote(data: seq<byte>): Link {
      this.(sequence := Wrap(sequence + |data|), past := past.(written := past.written + data))
    }

    /** The application reads at most `size` bytes of those that it has not read. */
    ghost function Took(size: nat): Link {
      var n := |past.taken| + size;
      this.(past := past.(taken := if n < |past.up| then past.up[..n] else past.up))
    }

    /** This side disconnects. */
    ghost function HungUp(): Link {
      this.(state := FinWait1, sequence := Wrap(sequence + 1),
            past := past.(hungUp := true, regular := past.regular && past.MayHangUp()))
    }

    /** One event. A closed socket is no longer in the table, and is gone. */
    ghost function Next(e: Event): Link {
      if state == Closed && !e.Read? then this else
      match e
      case Arrive(s) => Heard(s)
      case Write(data) => Wrote(data)
      case Read(size) => Took(size)
      case Hangup => HungUp()
    }

    /** What is sent in one event. */
    ghost function Sends(e: Event): seq<Segment> {
      if state == Closed && !e.Read? then [] else
      match e
      case Arrive(s) => Replies(state, s.flags, s.seqNo == ackNumber, Next(e).sequence, Next(e).ackNumber)
      case Write(data) => [Segment(PshAck, sequence, ackNumber, data)]
      case Read(_) => []
      case Hangup => [Bare(FinAck, sequence, ackNumber)]
    }

    /** What is sent over a run. */
    ghost function SentOver(events: seq<Event>): seq<Segment>
      decreases |events|
    {
      if events == [] then [] else Sends(events[0]) + Next(events[0]).SentOver(events[1..])
    }

    ghost function After(events: seq<Event>): Link
      decreases |events|
    {
      if events == [] then this else Next(events[0]).After(events[1..])
    }
  }

  // ----- every step keeps in-order delivery -----

  lemma NextSound(k: Link, e: Event)
    requires k.Sound()
    ensures k.Next(e).Sound() && k.Next(e).past.peer == k.past.peer
  {
    if k.state != Closed || e.Read? {
      match e
      case Arrive(s) => HeardSound(k, s);
      case Write(data) => WroteSound(k, data);
      case Read(_) =>
      case Hangup =>
    }
  }

  lemma HeardSound(k: Link, s: Segment)
    requires k.Sound() && k.state != Closed
    ensures k.Heard(s).Sound()
  {
    HeardNumbered(k, s);
    var h := k.past.Heard(k.state, k.ackNumber, s);
    if h.shaken && h.regular && !Shakes(k.state, s.flags) {
      HeardInOrder(k, s);
    }
  }

  lemma HeardNumbered(k: Link, s: Segment)
    requires k.Sound()
    ensures k.Heard(s).past.Numbered(k.Heard(s).sequence)
  {
    WrapAdd(k.past.iss + |k.past.written|, 1);
  }

  lemma HeardInOrder(k: Link, s: Segment)
    requires k.Sound() && k.state != Closed && k.past.shaken && k.past.regular && k.past.peer.Genuine(s)
    ensures k.Heard(s).past.InOrder(k.Heard(s).state, k.Heard(s).ackNumber)
  {
    if Considered(k.state, s.flags) && s.seqNo == k.ackNumber {
      DataHeard(k, s);
    } else if k.state == Established && s.flags.fin && !s.flags.syn {
      FinHeard(k, s);
    } else {
      NothingHeard(k, s);
    }
  }

  lemma DataHeard(k: Link, s: Segment)
    requires k.Sound() && k.past.shaken && k.past.regular && k.past.peer.Genuine(s)
    requires Considered(k.state, s.flags) && s.seqNo == k.ackNumber
    ensures k.Heard(s).past.InOrder(k.Heard(s).state, k.Heard(s).ackNumber)
  {
    NextBytes(k.past, s, k.state, k.ackNumber);
    assert k.Heard(s).past == k.past.(up := k.past.up + s.payload);
  }

  lemma FinHeard(k: Link, s: Segment)
    requires k.Sound() && k.past.shaken && k.past.regular && k.past.peer.Genuine(s)
    requires k.state == Established && s.flags.fin && !s.flags.syn
    ensures k.Heard(s).past.InOrder(k.Heard(s).state, k.Heard(s).ackNumber)
  {
    CountFin(k.past, k.ackNumber);
    assert k.past.up + [] == k.past.up;
    assert k.Heard(s).past == k.past.(finSeen := true);
  }

  /** Any other segment leaves the connection as it is, up to the state, or closes it. */
  lemma NothingHeard(k: Link, s: Segment)
    requires k.state != SynSent && k.past.regular && k.past.peer.Genuine(s)
    requires !(Considered(k.state, s.flags) && s.seqNo == k.ackNumber)
    requires !(k.state == Established && s.flags.fin && !s.flags.syn)
    ensures k.Heard(s).past.Delivered() == k.past.Delivered() && k.Heard(s).past.peer == k.past.peer
    ensures k.Heard(s).state == Closed
      || (&& k.Heard(s).past == k.past && k.Heard(s).ackNumber == k.ackNumber
          && (k.Heard(s).state == k.state
              || (k.state == SynReceived && k.Heard(s).state == Established)
              || (k.state == FinWait1 && k.Heard(s).state == FinWait2)))
  {
    assert k.past.up + [] == k.past.up;
  }

  /** A FIN is counted as one byte. */
  lemma CountFin(h: History, ackNo: u32)
    requires h.InOrder(Established, ackNo) && !h.finSeen
    ensures h.(finSeen := true).InOrder(CloseWait, Wrap(ackNo + 1))
  {
    var next := 1 + |h.Delivered()|;
    assert ackNo == h.peer.Number(next);
    WrapAdd(h.peer.isn + next, 1);
  }

  /** The bytes that come next in the stream, or after a FIN those that may as well. */
  lemma NextBytes(h: History, s: Segment, state: State, ackNo: u32)
    requires |h.peer.stream| < 0x1_0000_0000 && h.mark <= |h.up| && h.InOrder(state, ackNo)
    requires Considered(state, s.flags) && h.peer.Genuine(s) && s.seqNo == ackNo
    ensures h.(up := h.up + s.payload).InOrder(state, Wrap(ackNo + |s.payload|))
  {
    var d := h.Delivered();
    var next := if h.finSeen then |d| + 1 else |d|;
    assert ackNo == h.peer.Number(1 + next);
    OffsetKnown(h.peer, s, next);
    if h.finSeen {
      SkipHidden(h.peer, d, s.payload);
    } else {
      Extends(h.peer.stream, d, s.payload);
    }
    Tail(h.up, s.payload, h.mark);
    WrapAdd(h.peer.isn + (1 + next), |s.payload|);
  }

  /** The sequence number of a slice says where in the stream it is. */
  lemma OffsetKnown(peer: Peer, s: Segment, next: nat)
    requires |peer.stream| < 0x1_0000_0000 && next < 0x1_0000_0000
    requires !s.flags.syn && peer.Genuine(s) && s.seqNo == peer.Number(1 + next)
    ensures peer.Slice(s, next)
  {
    var off: nat :| peer.Slice(s, off);
    SameOffset(peer.isn + 1, off, next);
  }

  /** Where a skip does not show, the bytes behind it are those at it. */
  lemma SkipHidden(peer: Peer, d: seq<byte>, p: seq<byte>)
    requires |peer.stream| < 0x1_0000_0000 && d <= peer.stream && peer.Harmless(|d|)
    requires |d| + 1 + |p| <= |peer.stream| && p == peer.stream[|d| + 1..|d| + 1 + |p|]
    ensures d + p <= peer.stream && peer.Harmless(|d + p|)
  {
    forall i | 0 <= i < |p|
      ensures p[i] == peer.stream[|d| + i]
    {
      assert peer.Repeats(|d| + i);
    }
  }

  lemma WroteSound(k: Link, data: seq<byte>)
    requires k.Sound()
    ensures k.Wrote(data).Sound()
  {
    WrapAdd(k.past.iss + (if k.past.shaken then 1 else 0) + |k.past.written|, |data|);
  }

  // ----- whole runs -----

  /** Every segment is genuine, and no disconnect finds a FIN counted that can hide a byte. */
  ghost predicate Honest(k: Link, events: seq<Event>)
    decreases |events|
  {
    events == [] ||
      (&& (events[0].Arrive? ==> k.past.peer.Genuine(events[0].segment))
       && (events[0].Hangup? ==> k.past.MayHangUp())
       && Honest(k.Next(events[0]), events[1..]))
  }

  /** What was read since the handshake, what was delivered since, and the peer's stream, each a
      prefix of the next one. */
  ghost predicate Faithful(h: History) {
    h.ReadSince() <= h.Delivered() <= h.peer.stream
  }

  /** In a sound state that only genuine segments led to, whatever came before the handshake. */
  lemma SoundFaithful(k: Link)
    requires k.Sound() && k.past.shaken && k.past.regular
    ensures Faithful(k.past)
  {
    var h := k.past;
    if h.mark <= |h.taken| {
      assert h.taken[h.mark..] <= h.up[h.mark..];
    }
  }

  /** One more event of a run. */
  lemma Onward(k: Link, events: seq<Event>, i: nat)
    requires i < |events|
    ensures k.After(events[i..]) == k.Next(events[i]).After(events[i + 1..])
    ensures k.SentOver(events[i..]) == k.Sends(events[i]) + k.Next(events[i]).SentOver(events[i + 1..])
  {
    assert events[i..][0] == events[i] && events[i..][1..] == events[i + 1..];
  }

  /** An honest run stays regular, so what it delivers and what is read is in order. */
  lemma {:induction false} HonestRun(k: Link, events: seq<Event>)
    requires k.Sound() && k.past.regular && Honest(k, events)
    ensures var h := k.After(events).past;
      h.regular && h.peer == k.past.peer && (h.shaken ==> Faithful(h))
    decreases |events|
  {
    if events != [] {
      NextSound(k, events[0]);
      HonestRun(k.Next(events[0]), events[1..]);
    } else if k.past.shaken {
      SoundFaithful(k);
    }
  }

  /** Genuine segments, and no disconnect once a FIN has come: all of it read off the events. */
  ghost predicate Plain(peer: Peer, finCame: bool, events: seq<Event>)
    decreases |events|
  {
    events == [] ||
      (&& (events[0].Arrive? ==> peer.Genuine(events[0].segment))
       && (events[0].Hangup? ==> !finCame)
       && Plain(peer, finCame || (events[0].Arrive? && events[0].segment.flags.fin), events[1..]))
  }

  lemma {:induction false} PlainHonest(k: Link, finCame: bool, events: seq<Event>)
    requires k.Sound() && Plain(k.past.peer, finCame, events) && (k.past.finSeen ==> finCame)
    ensures Honest(k, events)
    decreases |events|
  {
    if events != [] {
      NextSound(k, events[0]);
      PlainHonest(k.Next(events[0]), finCame || (events[0].Arrive? && events[0].segment.flags.fin), events[1..]);
    }
  }

  /** One run after another. */
  lemma {:induction false} TwoRuns(k: Link, a: seq<Event>, b: seq<Event>)
    ensures k.After(a + b) == k.After(a).After(b)
    ensures k.SentOver(a + b) == k.SentOver(a) + k.After(a).SentOver(b)
    decreases |a|
  {
    if a == [] {
      assert a + b == b;
    } else {
      assert (a + b)[0] == a[0] && (a + b)[1..] == a[1..] + b;
      TwoRuns(k.Next(a[0]), a[1..], b);
    }
  }

  // ----- a stream that arrives in order is delivered -----

  /** A data segment without SYN or FIN. */
  predicate Pushed(f: Flags) {
    f.psh && !f.syn && !f.fin
  }

  /** The segments carry one slice of a stream after the other, the first with number `next`. */
  ghost predicate InRow(segments: seq<Segment>, next: nat)
    decreases |segments|
  {
    segments == [] ||
      (Pushed(segments[0].flags) && segments[0].seqNo == Wrap(next) && InRow(segments[1..], next + |segments[0].payload|))
  }

  /** What they carry. */
  ghost function Carried(segments: seq<Segment>): seq<byte>
    decreases |segments|
  {
    if segments == [] then [] else segments[0].payload + Carried(segments[1..])
  }

  function Arrivals(segments: seq<Segment>): seq<Event> {
    seq(|segments|, i requires 0 <= i < |segments| => Arrive(segments[i]))
  }

  /** One acknowledgement for each, with the number of the byte behind it. */
  ghost function AckEach(segments: seq<Segment>, seqNo: u32, next: nat): seq<Segment>
    decreases |segments|
  {
    if segments == [] then []
    else
      var n := next + |segments[0].payload|;
      [Segment(AckFlag, seqNo, Wrap(n), [])] + AckEach(segments[1..], seqNo, n)
  }

  /** Data in order is handed up and acknowledged segment by segment, across the wrap of 2^32. */
  lemma {:induction false} RowDelivered(k: Link, segments: seq<Segment>, next: nat)
    requires k.state == Established && k.ackNumber == Wrap(next) && InRow(segments, next)
    ensures var t := k.After(Arrivals(segments));
      && t.state == Established && t.ackNumber == Wrap(next + |Carried(segments)|) && t.sequence == k.sequence
      && t.past.up == k.past.up + Carried(segments) && t.past.mark == k.past.mark
      && t.past.shaken == k.past.shaken && t.past.taken == k.past.taken
    ensures k.SentOver(Arrivals(segments)) == AckEach(segments, k.sequence, next)
    decreases |segments|
  {
    if segments == [] {
      assert k.past.up + [] == k.past.up;
    } else {
      var n := next + |segments[0].payload|;
      FirstDelivered(k, segments[0], next);
      RowDelivered(k.Next(Arrive(segments[0])), segments[1..], n);
      assert Arrivals(segments)[0] == Arrive(segments[0]) && Arrivals(segments)[1..] == Arrivals(segments[1..]);
      assert (k.past.up + segments[0].payload) + Carried(segments[1..]) == k.past.up + Carried(segments);
    }
  }

  lemma FirstDelivered(k: Link, s: Segment, next: nat)
    requires k.state == Established && k.ackNumber == Wrap(next) && Pushed(s.flags) && s.seqNo == Wrap(next)
    ensures var t := k.Next(Arrive(s));
      && t.state == Established && t.ackNumber == Wrap(next + |s.payload|) && t.sequence == k.sequence
      && t.past.up == k.past.up + s.payload && t.past.mark == k.past.mark
      && t.past.shaken == k.past.shaken && t.past.taken == k.past.taken
    ensures k.Sends(Arrive(s)) == [Segment(AckFlag, k.sequence, Wrap(next + |s.payload|), [])]
  {
    WrapAdd(next, |s.payload|);
  }

  /** The answer to our SYN. */
  lemma HandshakeDone(k: Link, s: Segment, isn: nat)
    requires k.state == SynSent && s.flags == SynAck && s.seqNo == Wrap(isn)
    ensures var t := k.Next(Arrive(s));
      && t.state == Established && t.ackNumber == Wrap(isn + 1) && t.sequence == Wrap(k.sequence + 1)
      && t.past.up == k.past.up && t.past.mark == |k.past.up| && t.past.shaken && t.past.taken == k.past.taken
    ensures k.Sends(Arrive(s)) == [Segment(AckFlag, Wrap(k.sequence + 1), Wrap(isn + 1), [])]
  {
    WrapAdd(isn, 1);
  }

  function ReadsOf(sizes: seq<nat>): seq<Event> {
    seq(|sizes|, i requires 0 <= i < |sizes| => Read(sizes[i]))
  }

  function Total(sizes: seq<nat>): nat {
    if sizes == [] then 0 else sizes[0] + Total(sizes[1..])
  }

  /** Reads return what was handed up from the front, all of it if they ask for enough. */
  lemma {:induction false} ReadsDrain(k: Link, sizes: seq<nat>)
    requires k.past.taken <= k.past.up
    ensures var t := k.After(ReadsOf(sizes)); var n := |k.past.taken| + Total(sizes);
      && t == k.(past := k.past.(taken := if n < |k.past.up| then k.past.up[..n] else k.past.up))
    ensures k.SentOver(ReadsOf(sizes)) == []
    decreases |sizes|
  {
    if sizes == [] {
      assert k.past.taken == k.past.up[..|k.past.taken|];
    } else {
      ReadsDrain(k.Next(Read(sizes[0])), sizes[1..]);
      assert ReadsOf(sizes)[0] == Read(sizes[0]) && ReadsOf(sizes)[1..] == ReadsOf(sizes[1..]);
    }
  }

  function DownloadEvents(answer: Segment, segments: seq<Segment>, sizes: seq<nat>): seq<Event> {
    ([Arrive(answer)] + Arrivals(segments)) + ReadsOf(sizes)
  }

  /** The link once a stream was downloaded from peer number `isn`. */
  ghost predicate Downloaded(t: Link, sequence: u32, isn: nat, stream: seq<byte>) {
    && t.state == Established && t.past.shaken && t.past.mark == 0 && t.past.up == t.past.taken == stream
    && t.ackNumber == Wrap(isn + 1 + |stream|) && t.sequence == Wrap(sequence + 1)
  }

  /** The handshake and the stream. */
  lemma StreamArrives(k: Link, answer: Segment, isn: nat, segments: seq<Segment>)
    requires k.state == SynSent && k.past.up == k.past.taken == []
    requires answer.flags == SynAck && answer.seqNo == Wrap(isn) && InRow(segments, isn + 1)
    ensures var t := k.After([Arrive(answer)] + Arrivals(segments));
      && t.state == Established && t.past.shaken && t.past.mark == 0 && t.past.taken == []
      && t.past.up == Carried(segments)
      && t.ackNumber == Wrap(isn + 1 + |Carried(segments)|) && t.sequence == Wrap(k.sequence + 1)
    ensures k.SentOver([Arrive(answer)] + Arrivals(segments)) ==
      [Segment(AckFlag, Wrap(k.sequence + 1), Wrap(isn + 1), [])] + AckEach(segments, Wrap(k.sequence + 1), isn + 1)
  {
    var first, data := [Arrive(answer)], Arrivals(segments);
    HandshakeDone(k, answer, isn);
    var t := k.Next(first[0]);
    assert first[1..] == [] && t.After([]) == t && t.SentOver([]) == [];
    assert k.After(first) == t && k.SentOver(first) == k.Sends(first[0]) + [];
    RowDelivered(t, segments, isn + 1);
    TwoRuns(k, first, data);
    assert [] + Carried(segments) == Carried(segments);
  }

  /** A new connection, the answer to its SYN, a stream in order and enough reads: everything arrives
      and is read, and there was one acknowledgement for each segment. */
  lemma Downloads(k: Link, answer: Segment, isn: nat, segments: seq<Segment>, sizes: seq<nat>)
    requires k.state == SynSent && k.past.up == k.past.taken == []
    requires answer.flags == SynAck && answer.seqNo == Wrap(isn) && InRow(segments, isn + 1)
    requires Total(sizes) >= |Carried(segments)|
    ensures Downloaded(k.After(DownloadEvents(answer, segments, sizes)), k.sequence, isn, Carried(segments))
    ensures k.SentOver(DownloadEvents(answer, segments, sizes)) ==
      [Segment(AckFlag, Wrap(k.sequence + 1), Wrap(isn + 1), [])] + AckEach(segments, Wrap(k.sequence + 1), isn + 1)
  {
    var all := [Arrive(answer)] + Arrivals(segments);
    StreamArrives(k, answer, isn, segments);
    var t := k.After(all);
    ReadsDrain(t, sizes);
    TwoRuns(k, all, ReadsOf(sizes));
    assert k.SentOver(all) + [] == k.SentOver(all);
  }

  // ----- closing, and what does not fit -----

  /** This side hangs up first: its FIN is acknowledged, and the peer's in turn. */
  lemma HangsUpFirst(k: Link, ack: Segment, fin: Segment)
    requires k.state == Established && ack.flags == AckFlag && fin.flags.fin && !fin.flags.syn
    ensures var a := k.Next(Hangup); var b := a.Next(Arrive(ack)); var c := b.Next(Arrive(fin));
      && a.state == FinWait1 && k.Sends(Hangup) == [Segment(FinAck, k.sequence, k.ackNumber, [])]
      && b.state == FinWait2 && a.Sends(Arrive(ack)) == []
      && c.state == Closed && c.ackNumber == Wrap(k.ackNumber + 1)
      && b.Sends(Arrive(fin)) == [Segment(AckFlag, Wrap(k.sequence + 1), c.ackNumber, [])]
  {
  }

  /** The peer hangs up first: its FIN is acknowledged, and ours follows. */
  lemma PeerHangsUpFirst(k: Link, fin: Segment, ack: Segment)
    requires k.state == Established && fin.flags.fin && !fin.flags.syn && ack.flags == AckFlag
    ensures var a := k.Next(Arrive(fin)); var b := a.Next(Arrive(ack));
      && a.state == CloseWait && a.ackNumber == Wrap(k.ackNumber + 1)
      && k.Sends(Arrive(fin)) ==
           [Segment(AckFlag, k.sequence, a.ackNumber, []), Segment(FinAck, k.sequence, a.ackNumber, [])]
      && b.state == Closed && a.Sends(Arrive(ack)) == []
  {
  }

  /** Data that does not come next is dropped, and resets the connection. */
  lemma OutOfOrder(k: Link, data: Segment)
    requires k.state == Established && Pushed(data.flags) && data.seqNo != k.ackNumber
    ensures k.Next(Arrive(data)).state == Closed && k.Next(Arrive(data)).past.up == k.past.up
    ensures k.Sends(Arrive(data)) == [Segment(RstFlag, k.sequence, k.ackNumber, [])]
  {
  }

  // ----- exactly when a disconnect keeps the order -----

  /** Genuine segments only. */
  ghost predicate Answers(peer: Peer, events: seq<Event>) {
    forall i :: 0 <= i < |events| ==> events[i].Arrive? && peer.Genuine(events[i].segment)
  }

  /** After a run, what was delivered is a prefix of the stream. */
  ghost predicate Keeps(k: Link, events: seq<Event>) {
    k.After(events).past.Delivered() <= k.past.peer.stream
  }

  /** A disconnect keeps the order for all genuine segments to come exactly if no FIN was counted, or
      the byte that it may hide does not show. */
  lemma HangUpExact(k: Link)
    requires k.Sound() && k.state != Closed && k.past.shaken && k.past.regular
    ensures k.past.MayHangUp() <==> forall events :: Answers(k.past.peer, events) ==> Keeps(k.Next(Hangup), events)
  {
    NextSound(k, Hangup);
    if k.past.MayHangUp() {
      forall events | Answers(k.past.peer, events)
        ensures Keeps(k.Next(Hangup), events)
      {
        AnswersHonest(k.Next(Hangup), events);
        HonestRun(k.Next(Hangup), events);
        StaysShaken(k.Next(Hangup), events);
      }
    } else {
      var events := Skip(k);
      assert !Keeps(k.Next(Hangup), events);
    }
  }

  lemma {:induction false} AnswersHonest(k: Link, events: seq<Event>)
    requires k.Sound() && Answers(k.past.peer, events)
    ensures Honest(k, events)
    decreases |events|
  {
    if events != [] {
      NextSound(k, events[0]);
      AnswersHonest(k.Next(events[0]), events[1..]);
    }
  }

  lemma {:induction false} StaysShaken(k: Link, events: seq<Event>)
    requires k.Sound() && k.past.shaken
    ensures k.After(events).past.shaken && k.After(events).past.mark == k.past.mark
    decreases |events|
  {
    if events != [] {
      NextSound(k, events[0]);
      StaysShaken(k.Next(events[0]), events[1..]);
    }
  }

  /** An acknowledgement, then the slice behind the hidden byte up to where it shows. */
  lemma Skip(k: Link) returns (events: seq<Event>)
    requires k.Sound() && k.state != Closed && k.past.shaken && k.past.regular && !k.past.MayHangUp()
    ensures Answers(k.past.peer, events) && !Keeps(k.Next(Hangup), events)
  {
    var h, peer := k.past, k.past.peer;
    var from, to := Visible(peer, h.Delivered(), k.ackNumber);
    var ack := Segment(AckFlag, Wrap(peer.isn + 1 + 0), 0, []);
    var data := Segment(PshAck, k.ackNumber, 0, peer.stream[from..to]);
    assert peer.Slice(ack, 0) && peer.Slice(data, from);
    events := [Arrive(ack), Arrive(data)];
    TwoSteps(k.HungUp(), ack, data);
    Tail(h.up, data.payload, h.mark);
  }

  /** The slice that is expected after a FIN was counted, so long that the skip shows. */
  lemma Visible(peer: Peer, d: seq<byte>, ackNo: u32) returns (from: nat, to: nat)
    requires |peer.stream| < 0x1_0000_0000 && d <= peer.stream && !peer.Harmless(|d|)
    requires peer.Expects(ackNo, 2 + |d|)
    ensures from < to <= |peer.stream| && ackNo == Wrap(peer.isn + 1 + from)
    ensures !(d + peer.stream[from..to] <= peer.stream)
  {
    assert ackNo == peer.Number(2 + |d|);
    if |d| == 0xFFFF_FFFF {
      Around(peer.isn + 1);
      from, to := 0, 1;
    } else {
      var j :| |d| <= j && j + 1 < |peer.stream| && !peer.Repeats(j);
      from, to := |d| + 1, j + 2;
      Shows(peer.stream, d, to);
    }
  }

  /** Past an acknowledgement, a disconnected socket takes data again. */
  lemma TwoSteps(k: Link, ack: Segment, data: Segment)
    requires k.state == FinWait1 && ack.flags == AckFlag && data.flags == PshAck && data.seqNo == k.ackNumber
    ensures k.After([Arrive(ack), Arrive(data)]).past.up == k.past.up + data.payload
    ensures k.After([Arrive(ack), Arrive(data)]).past.mark == k.past.mark
  {
    var events := [Arrive(ack), Arrive(data)];
    var one := k.Next(events[0]);
    assert events[1..] == [Arrive(data)] && events[1..][1..] == [];
    assert one.past.up == k.past.up;
    assert k.After(events) == one.Next(Arrive(data)).After([]);
  }

  lemma Shows(stream: seq<byte>, d: seq<byte>, to: nat)
    requires d <= stream && |d| + 2 <= to <= |stream| && stream[to - 2] != stream[to - 1]
    ensures !(d + stream[|d| + 1..to] <= stream)
  {
    var p := stream[|d| + 1..to];
    assert (d + p)[to - 2] == p[to - 2 - |d|] == stream[to - 1];
  }

  /** The FIN behind the stream [1, 2, 3], ahead of its bytes, a disconnect, an acknowledgement, and the
      slice from offset 1. */
  predicate Skipping(events: seq<Event>) {
    && |events| == 5 && events[0] == Arrive(Bare(SynAck, 100, 0)) && events[1] == Arrive(Bare(FinAck, 104, 0))
    && events[2] == Hangup && events[3] == Arrive(Bare(AckFlag, 102, 0))
    && events[4] == Arrive(Segment(PshAck, 102, 0, [2, 3]))
  }

  lemma SkippingGenuine(peer: Peer, events: seq<Event>)
    requires peer == Peer([1, 2, 3], 100) && Skipping(events)
    ensures forall e :: e in events && e.Arrive? ==> peer.Genuine(e.segment)
  {
    assert peer.Slice(events[1].segment, 3) && peer.Slice(events[3].segment, 1) && peer.Slice(events[4].segment, 1);
  }

  /** Up to the FIN. */
  lemma SkippingStart(k: Link, events: seq<Event>) returns (k2: Link)
    requires k.state == SynSent && k.past.up == [] && Skipping(events)
    ensures k.After(events) == k2.After(events[2..]) && k2.past.peer == k.past.peer && k2.past.taken == k.past.taken
    ensures k2.state == CloseWait && k2.ackNumber == 102 && k2.past.up == [] && k2.past.shaken && k2.past.mark == 0
  {
    var k1 := k.Next(events[0]);
    assert k1.state == Established && k1.ackNumber == 101 && k1.past.up == [];
    k2 := k1.Next(events[1]);
    assert events[0..] == events;
    Onward(k, events, 0);
    Onward(k1, events, 1);
  }

  /** From the disconnect on. */
  lemma SkippingEnd(k2: Link, events: seq<Event>)
    requires k2.state == CloseWait && k2.ackNumber == 102 && k2.past.up == [] && k2.past.shaken && k2.past.mark == 0
    requires Skipping(events)
    ensures var h := k2.After(events[2..]).past;
      h.shaken && h.up == [2, 3] && h.mark == 0 && h.peer == k2.past.peer && h.taken == k2.past.taken
  {
    var k3 := k2.Next(events[2]);
    var k4 := k3.Next(events[3]);
    assert k4.state == FinWait2 && k4.ackNumber == 102 && k4.past.up == [];
    var k5 := k4.Next(events[4]);
    assert k5.past.up == [2, 3] && k5.past.shaken && k5.past.mark == 0;
    Onward(k2, events, 2);
    Onward(k3, events, 3);
    Onward(k4, events, 4);
    assert events[5..] == [];
  }

  /** All segments are genuine, and yet the bytes handed up are [2, 3]. */
  lemma SkippingRun(k: Link, events: seq<Event>)
    requires k.state == SynSent && k.past.up == [] && k.past.peer == Peer([1, 2, 3], 100) && Skipping(events)
    ensures var h := k.After(events).past;
      && h.shaken && h.up == [2, 3] && h.peer == k.past.peer && h.taken == k.past.taken
      && !(h.Delivered() <= h.peer.stream)
    ensures forall e :: e in events && e.Arrive? ==> k.past.peer.Genuine(e.segment)
  {
    var k2 := SkippingStart(k, events);
    SkippingEnd(k2, events);
    SkippingGenuine(k.past.peer, events);
    assert k.past.peer.stream[0] == 1 && [2, 3][0] == 2 && [2, 3][0..] == [2, 3];
  }

  // ----- arithmetic -----

  /** The slice that follows a prefix makes a longer prefix. */
  lemma Extends(stream: seq<byte>, d: seq<byte>, p: seq<byte>)
    requires d <= stream && |d| + |p| <= |stream| && p == stream[|d|..|d| + |p|]
    ensures d + p <= stream
  {
  }

  lemma Tail(up: seq<byte>, p: seq<byte>, mark: nat)
    requires mark <= |up|
    ensures From(up + p, mark) == From(up, mark) + p
  {
  }

  /** Offsets below 2^32 are determined by their sequence numbers. */
  lemma SameOffset(base: nat, a: nat, b: nat)
    requires a < 0x1_0000_0000 && b < 0x1_0000_0000 && Wrap(base + a) == Wrap(base + b)
    ensures a == b
  {
  }

  lemma Around(a: nat)
    ensures Wrap(a + 0x1_0000_0000) == Wrap(a)
  {
  }

  lemma WrapAdd(a: nat, b: nat)
    ensures Wrap(Wrap(a) + b) == Wrap(a + b)
  {
  }
}
