/** The shared-page tunnel between a client and a host, as interleaved single reads and writes of the
    page: its state word, its byte count and the bytes of its buffer. */
module IpcTunnel {
  import opened Words

  datatype Tag = Start | Ack | Ok | Wait

  /** Where the client is. `Idle(i)` is before the call that sends message number `i`. */
  datatype Client =
    | Polling                // ipc_init: until the host has started
    | Acking                 // about to write the acknowledgement
    | AwaitOk                // until the connection is confirmed
    | Idle(i: nat)           // about to check that the tunnel is free
    | SetCount(i: nat)
    | Fill(i: nat, k: nat)   // about to copy byte `k`
    | Post(i: nat)           // about to write the state
    | Await(i: nat)          // until the host has answered
    | ClientFailed           // an assertion failed

  datatype Host =
    | PollRead                                     // ipc_init_host: about to read the state
    | PollWrite(seen: Tag)                         // about to write its answer to what it read
    | Look                                         // ipc_message_ready: about to read the state
    | GetCount
    | Copy(n: nat, got: seq<byte>)                 // about to read the next of `n` bytes, or to handle them
    | Check                                        // ipc_ok: about to check the state
    | Release                                      // about to write the state
    | HostFailed

  /** The page, both programs, the messages to be sent and those handled. */
  datatype System = System(
    tag: Tag, count: nat, buffer: seq<byte>, client: Client, host: Host,
    messages: seq<seq<byte>>, handled: seq<seq<byte>>)

  /** One read or write of the client. */
  function ClientStep(s: System): System {
    match s.client
    case Polling => if s.tag == Start then s.(client := Acking) else s
    case Acking => s.(tag := Ack, client := AwaitOk)
    case AwaitOk => if s.tag == Ok then s.(client := Idle(0)) else s
    case Idle(i) =>
      if i >= |s.messages| then s
      else if s.tag == Ok then s.(client := SetCount(i))
      else s.(client := ClientFailed)
    case SetCount(i) => if i < |s.messages| then s.(count := |s.messages[i]|, client := Fill(i, 0)) else s
    case Fill(i, k) =>
      if i < |s.messages| && k < |s.messages[i]| && k < |s.buffer| then
        s.(buffer := s.buffer[k := s.messages[i][k]], client := Fill(i, k + 1))
      else s.(client := Post(i))
    case Post(i) => s.(tag := Wait, client := Await(i))
    case Await(i) => if s.tag != Wait then s.(client := Idle(i + 1)) else s
    case ClientFailed => s
  }

  /** One read or write of the host; handling a message is a step of its own. */
  function HostStep(s: System): System {
    match s.host
    case PollRead => s.(host := PollWrite(s.tag))
    case PollWrite(seen) => if seen != Ack then s.(tag := Start, host := PollRead) else s.(tag := Ok, host := Look)
    case Look => if s.tag == Wait then s.(host := GetCount) else s
    case GetCount => s.(host := Copy(s.count, []))
    case Copy(n, got) =>
      if |got| < n && |got| < |s.buffer| then s.(host := Copy(n, got + [s.buffer[|got|]]))
      else s.(handled := s.handled + [got], host := Check)
    case Check => if s.tag == Wait then s.(host := Release) else s.(host := HostFailed)
    case Release => s.(tag := Ok, host := Look)
    case HostFailed => s
  }

  /** Both programs at their start, the state word neither acknowledged nor confirmed; every message
      fits in the buffer. */
  predicate Initial(s: System) {
    && s.tag != Ack && s.tag != Ok && s.client == Polling && s.host == PollRead && s.handled == []
    && forall i :: 0 <= i < |s.messages| ==> |s.messages[i]| <= |s.buffer|
  }

  /** Which program moves. */
  datatype Move = ClientMoves | HostMoves

  function Run(s: System, moves: seq<Move>): System
    decreases |moves|
  {
    if |moves| == 0 then s
    else
      var before := Run(s, moves[..|moves| - 1]);
      if moves[|moves| - 1] == ClientMoves then ClientStep(before) else HostStep(before)
  }

  // ----- what holds in every reachable state -----

  predicate Connected(h: Host) {
    h.Look? || h.GetCount? || h.Copy? || h.Check? || h.Release?
  }

  /** Before the connection. */
  predicate Shaking(s: System) {
    match s.client
    case Polling => s.tag != Ack && s.tag != Ok && Unacked(s.host)
    case Acking => s.tag != Ack && s.tag != Ok && Unacked(s.host)
    case AwaitOk =>
      || (s.tag == Ack && (Unacked(s.host) || s.host == PollWrite(Ack)))
      || (s.tag == Start && Unacked(s.host))
      || (s.tag == Ok && s.host == Look)
    case _ => true
  }

  /** The host has not seen an acknowledgement. */
  predicate Unacked(h: Host) {
    h == PollRead || (h.PollWrite? && h.seen != Ack)
  }

  /** Message `i` is in the page. */
  predicate InPage(s: System, i: nat) {
    i < |s.messages| && s.count == |s.messages[i]| <= |s.buffer| && s.buffer[..s.count] == s.messages[i]
  }

  /** Message `i` is posted, and the host is at some point of receiving it. */
  predicate Receiving(s: System, i: nat) {
    && s.tag == Wait && InPage(s, i)
    && match s.host
       case Look => s.handled == s.messages[..i]
       case GetCount => s.handled == s.messages[..i]
       case Copy(n, got) => s.handled == s.messages[..i] && n == s.count && got <= s.messages[i]
       case Check => s.handled == s.messages[..i + 1]
       case Release => s.handled == s.messages[..i + 1]
       case _ => false
  }

  /** The tunnel is free: the host has handled the first `i` messages and only looks. */
  predicate Free(s: System, i: nat) {
    s.tag == Ok && s.host == Look && i <= |s.messages| && s.handled == s.messages[..i]
  }

  /** While connected. */
  predicate Talking(s: System) {
    match s.client
    case Idle(i) => Free(s, i)
    case SetCount(i) => Free(s, i) && i < |s.messages|
    case Fill(i, k) =>
      && Free(s, i) && i < |s.messages| && s.count == |s.messages[i]| && k <= s.count <= |s.buffer|
      && s.buffer[..k] == s.messages[i][..k]
    case Post(i) => Free(s, i) && InPage(s, i)
    case Await(i) => i < |s.messages| && (Receiving(s, i) || Free(s, i + 1))
    case ClientFailed => false
    case _ => s.handled == []
  }

  predicate Inv(s: System) {
    && (forall i :: 0 <= i < |s.messages| ==> |s.messages[i]| <= |s.buffer|)
    && Shaking(s) && Talking(s)
  }

  lemma ClientKeeps(s: System)
    requires Inv(s)
    ensures Inv(ClientStep(s))
  {
    var t := ClientStep(s);
    if s.client.Fill? {
      var i, k := s.client.i, s.client.k;
      if k < |s.messages[i]| {
        assert t.buffer[..k + 1] == s.buffer[..k] + [s.messages[i][k]];
        assert s.messages[i][..k + 1] == s.messages[i][..k] + [s.messages[i][k]];
      } else {
        assert s.messages[i][..k] == s.messages[i];
      }
    }
  }

  lemma HostKeeps(s: System)
    requires Inv(s)
    ensures Inv(HostStep(s))
  {
    if s.client.Await? && s.host.Copy? {
      var i, got := s.client.i, s.host.got;
      if |got| < s.host.n {
        assert s.buffer[|got|] == s.buffer[..s.count][|got|];
      } else {
        assert got == s.messages[i];
        assert s.messages[..i + 1] == s.messages[..i] + [got];
      }
    }
  }

  /** Every interleaving keeps the invariant. */
  lemma {:induction false} RunKeeps(s: System, moves: seq<Move>)
    requires Initial(s)
    ensures Inv(Run(s, moves)) && Run(s, moves).messages == s.messages
    decreases |moves|
  {
    if |moves| == 0 {
      assert s.messages[..0] == [];
    } else {
      RunKeeps(s, moves[..|moves| - 1]);
      var before := Run(s, moves[..|moves| - 1]);
      ClientKeeps(before);
      HostKeeps(before);
    }
  }

  /** In every interleaving of reads and writes: messages are handled in the order they are sent and
      unchanged, no assertion fails, the client touches the page only while the host does not read it,
      and the client is connected only once the host has seen its acknowledgement. */
  lemma TunnelWorks(s: System, moves: seq<Move>)
    requires Initial(s)
    ensures var t := Run(s, moves);
      && t.handled <= s.messages
      && t.client != ClientFailed && t.host != HostFailed
      && ((t.host.GetCount? || t.host.Copy?) ==> t.client.Await?)
      && ((t.client.Idle? || t.client.SetCount? || t.client.Fill? || t.client.Post? || t.client.Await?) ==> Connected(t.host))
      && (t.client.Idle? ==> t.client.i <= |s.messages| && t.handled == s.messages[..t.client.i])
  {
    RunKeeps(s, moves);
  }

  // ----- when the handshake completes -----

  /** The acknowledgement is about to be overwritten, or was. */
  predicate AckLost(s: System) {
    && s.client == AwaitOk && Unacked(s.host)
    && ((s.tag == Ack && s.host.PollWrite?) || s.tag == Start)
  }

  lemma {:induction false} LostForever(s: System, moves: seq<Move>)
    requires AckLost(s)
    ensures AckLost(Run(s, moves))
    decreases |moves|
  {
    if |moves| > 0 {
      LostForever(s, moves[..|moves| - 1]);
    }
  }

  /** The client gets past the handshake. */
  predicate Connects(s: System, moves: seq<Move>) {
    Run(s, moves).client != AwaitOk
  }

  /** The client's acknowledgement gets through exactly if the host is not between reading the state
      and answering it when the client writes: then two steps of the host confirm the connection,
      otherwise no continuation ever does. */
  lemma HandshakeCompletes(s: System)
    requires Inv(s) && s.client == Acking
    ensures s.host == PollRead <==>
      exists moves :: Connects(ClientStep(s), moves)
    ensures s.host == PollRead ==> Run(ClientStep(s), [HostMoves, HostMoves, ClientMoves]).client == Idle(0)
  {
    var t := ClientStep(s);
    if s.host == PollRead {
      var m := [HostMoves, HostMoves, ClientMoves];
      assert m[..2][..1] == [HostMoves] && m[..2][..1][..0] == [];
      assert Run(t, []) == t;
      assert Run(t, m[..2][..1]) == HostStep(t);
      assert Run(t, m[..2]) == HostStep(HostStep(t));
      assert Run(t, m).client == Idle(0);
      assert Connects(t, m);
    } else {
      forall moves
        ensures !Connects(t, moves)
      {
        LostForever(t, moves);
      }
    }
  }

  /** From a start state both outcomes are reached: the same page, and one step of the host more. */
  lemma BothReached(s: System)
    requires Initial(s)
    ensures var t := Run(s, [HostMoves, HostMoves, ClientMoves]); t.client == Acking && t.host == PollRead
    ensures var t := Run(s, [HostMoves, HostMoves, HostMoves, ClientMoves]); t.client == Acking && t.host.PollWrite?
    ensures forall moves :: !Connects(ClientStep(Run(s, [HostMoves, HostMoves, HostMoves, ClientMoves])), moves)
  {
    var two, three := [HostMoves, HostMoves], [HostMoves, HostMoves, HostMoves];
    var quick, slow := two + [ClientMoves], three + [ClientMoves];
    assert two[..1] == [HostMoves] && [HostMoves][..0] == [];
    assert Run(s, [HostMoves]) == HostStep(s);
    assert Run(s, two) == HostStep(HostStep(s));
    assert three[..2] == two && Run(s, three) == HostStep(Run(s, two));
    assert quick == [HostMoves, HostMoves, ClientMoves] && quick[..2] == two && Run(s, quick) == ClientStep(Run(s, two));
    assert slow == [HostMoves, HostMoves, HostMoves, ClientMoves] && slow[..3] == three;
    assert Run(s, slow) == ClientStep(Run(s, three));
    RunKeeps(s, slow);
    HandshakeCompletes(Run(s, slow));
  }

  // ----- progress -----

  /** The same move `n` times. */
  function Many(m: Move, n: nat): seq<Move> {
    seq(n, _ => m)
  }

  lemma OneMore(s: System, m: Move, n: nat)
    requires n > 0
    ensures Run(s, Many(m, n)) == Moved(Run(s, Many(m, n - 1)), m)
  {
    assert Many(m, n)[..n - 1] == Many(m, n - 1);
  }

  function Moved(s: System, m: Move): System {
    if m == ClientMoves then ClientStep(s) else HostStep(s)
  }

  /** The client is past the handshake, and so is the host. */
  predicate Established(s: System) {
    Inv(s) && !(s.client.Polling? || s.client.Acking? || s.client.AwaitOk?)
  }

  lemma MovedKeeps(s: System, m: Move)
    requires Established(s)
    ensures Established(Moved(s, m)) && Moved(s, m).messages == s.messages
  {
    ClientKeeps(s);
    HostKeeps(s);
  }

  /** Host moves until message `i`, posted by the client, is answered. */
  function HostWork(s: System, i: nat): nat
    requires i < |s.messages|
  {
    if s.tag != Wait then 0
    else
      match s.host
      case Look => |s.messages[i]| + 5
      case GetCount => |s.messages[i]| + 4
      case Copy(_, got) => if |got| <= |s.messages[i]| then |s.messages[i]| - |got| + 3 else 0
      case Check => 2
      case _ => 1
  }

  /** Each of them is needed, and once there are none left the message is handled. */
  lemma HostAdvances(s: System, i: nat)
    requires Established(s) && s.client == Await(i)
    ensures var t := HostStep(s); t.client == Await(i) && HostWork(t, i) == if HostWork(s, i) > 0 then HostWork(s, i) - 1 else 0
    ensures s.tag == Wait <==> HostWork(s, i) > 0
    ensures HostWork(s, i) == 0 ==> s.tag == Ok && s.handled == s.messages[..i + 1] && HostStep(s) == s
  {
  }

  /** A posted message is handled and answered within as many host moves as it has bytes, and five;
      then one client move returns from the call. */
  lemma {:induction false} HostAnswers(s: System, i: nat, n: nat)
    requires Established(s) && s.client == Await(i)
    ensures var t := Run(s, Many(HostMoves, n));
      && Established(t) && t.client == Await(i) && t.messages == s.messages
      && HostWork(t, i) == (if HostWork(s, i) > n then HostWork(s, i) - n else 0)
      && (n >= |s.messages[i]| + 5 ==> t.tag == Ok && t.handled == s.messages[..i + 1] && ClientStep(t).client == Idle(i + 1))
    decreases n
  {
    if n > 0 {
      HostAnswers(s, i, n - 1);
      var t := Run(s, Many(HostMoves, n - 1));
      OneMore(s, HostMoves, n);
      MovedKeeps(t, HostMoves);
      HostAdvances(t, i);
      HostAdvances(Run(s, Many(HostMoves, n)), i);
    } else {
      HostAdvances(s, i);
    }
  }

  /** Client moves until message `i` is posted. */
  function ClientWork(s: System, i: nat): nat
    requires i < |s.messages|
  {
    match s.client
    case Idle(j) => if j == i then |s.messages[i]| + 4 else 0
    case SetCount(_) => |s.messages[i]| + 3
    case Fill(_, k) => if k <= |s.messages[i]| then |s.messages[i]| - k + 2 else 0
    case Post(_) => 1
    case _ => 0
  }

  /** A message is posted by as many client moves as it has bytes, and four. */
  lemma {:induction false} ClientPosts(s: System, i: nat, n: nat)
    requires Established(s) && s.client == Idle(i) && i < |s.messages| && n <= |s.messages[i]| + 4
    ensures var t := Run(s, Many(ClientMoves, n));
      && Established(t) && t.messages == s.messages && ClientWork(t, i) == |s.messages[i]| + 4 - n
      && (t.client == Idle(i) || t.client == SetCount(i) || (t.client.Fill? && t.client.i == i) || t.client == Post(i)
          || t.client == Await(i))
      && (n == |s.messages[i]| + 4 ==> t.client == Await(i) && t.tag == Wait)
    decreases n
  {
    if n > 0 {
      ClientPosts(s, i, n - 1);
      OneMore(s, ClientMoves, n);
      MovedKeeps(Run(s, Many(ClientMoves, n - 1)), ClientMoves);
    }
  }

  // ----- every fair run handles all messages -----

  /** Moves for all messages from number `i` on, each posted, handled, answered and returned from. */
  function AllWork(messages: seq<seq<byte>>, i: nat): nat
    decreases |messages| - i
  {
    if i >= |messages| then 0 else 2 * |messages[i]| + 10 + AllWork(messages, i + 1)
  }

  /** Moves that are left. */
  function Work(s: System): nat
    requires Established(s)
  {
    match s.client
    case Idle(i) => AllWork(s.messages, i)
    case Await(i) => HostWork(s, i) + 1 + AllWork(s.messages, i + 1)
    case SetCount(i) => PostWork(s, i)
    case Fill(i, _) => PostWork(s, i)
    case Post(i) => PostWork(s, i)
  }

  /** With message `i` on its way into the page. */
  function PostWork(s: System, i: nat): nat
    requires i < |s.messages|
  {
    ClientWork(s, i) + |s.messages[i]| + 6 + AllWork(s.messages, i + 1)
  }

  /** A move changes nothing or does one move of the work; while there is work left one program does it. */
  lemma MoveWorks(s: System, m: Move)
    requires Established(s)
    ensures Established(Moved(s, m)) && Moved(s, m).messages == s.messages
    ensures Moved(s, m) == s || Work(Moved(s, m)) == Work(s) - 1
    ensures Work(s) > 0 ==> ClientStep(s) != s || HostStep(s) != s
    ensures Work(s) == 0 ==> s.client == Idle(|s.messages|) && s.handled == s.messages
  {
    MovedKeeps(s, m);
    if s.client.Await? {
      HostAdvances(s, s.client.i);
    }
  }

  /** A stretch of moves does some work, or every single one of them could do none. */
  lemma {:induction false} StretchWorks(s: System, moves: seq<Move>)
    requires Established(s)
    ensures var t := Run(s, moves);
      && Established(t) && t.messages == s.messages
      && (Work(t) < Work(s) || (t == s && forall k {:trigger moves[k]} :: 0 <= k < |moves| ==> Moved(s, moves[k]) == s))
    decreases |moves|
  {
    if |moves| > 0 {
      var init := moves[..|moves| - 1];
      StretchWorks(s, init);
      MoveWorks(Run(s, init), moves[|moves| - 1]);
      assert forall k {:trigger moves[k]} :: 0 <= k < |init| ==> moves[k] == init[k];
    }
  }

  function RunAll(s: System, rounds: seq<seq<Move>>): System {
    if |rounds| == 0 then s else Run(RunAll(s, rounds[..|rounds| - 1]), rounds[|rounds| - 1])
  }

  /** Both programs move in every round. */
  predicate Fair(rounds: seq<seq<Move>>) {
    forall k {:trigger rounds[k]} :: 0 <= k < |rounds| ==> ClientMoves in rounds[k] && HostMoves in rounds[k]
  }

  /** After the handshake, in every interleaving in which both programs keep moving, all messages are
      handled and the client returns from its last call. */
  lemma {:induction false} AllHandled(s: System, rounds: seq<seq<Move>>)
    requires Established(s) && Fair(rounds)
    ensures var t := RunAll(s, rounds);
      && Established(t) && t.messages == s.messages
      && Work(t) <= (if Work(s) > |rounds| then Work(s) - |rounds| else 0)
      && (|rounds| >= Work(s) ==> t.handled == s.messages && t.client == Idle(|s.messages|))
    decreases |rounds|
  {
    MoveWorks(s, HostMoves);
    if |rounds| > 0 {
      var n := |rounds| - 1;
      AllHandled(s, rounds[..n]);
      var t := RunAll(s, rounds[..n]);
      RoundWorks(t, rounds[n]);
      MoveWorks(Run(t, rounds[n]), HostMoves);
    }
  }

  /** A round in which both programs move does some work if there is any. */
  lemma RoundWorks(t: System, round: seq<Move>)
    requires Established(t) && ClientMoves in round && HostMoves in round
    ensures Established(Run(t, round)) && Run(t, round).messages == t.messages
    ensures Work(Run(t, round)) <= if Work(t) > 0 then Work(t) - 1 else 0
  {
    StretchWorks(t, round);
    MoveWorks(t, HostMoves);
    var a :| 0 <= a < |round| && round[a] == ClientMoves;
    var b :| 0 <= b < |round| && round[b] == HostMoves;
    assert Moved(t, round[a]) == ClientStep(t) && Moved(t, round[b]) == HostStep(t);
  }

  /** From the moment at which the client may acknowledge, three moves connect, and then every fair
      continuation of twice the bytes and ten moves a message handles everything. */
  lemma TunnelDelivers(s: System, rounds: seq<seq<Move>>)
    requires Inv(s) && s.client == Acking && s.host == PollRead && Fair(rounds)
    requires |rounds| >= AllWork(s.messages, 0)
    ensures var t := RunAll(Run(ClientStep(s), [HostMoves, HostMoves, ClientMoves]), rounds);
      t.handled == s.messages && t.client == Idle(|s.messages|)
  {
    HandshakeCompletes(s);
    var moves := [HostMoves, HostMoves, ClientMoves];
    ClientKeeps(s);
    RunFrom(ClientStep(s), moves);
    AllHandled(Run(ClientStep(s), moves), rounds);
  }

  lemma {:induction false} RunFrom(s: System, moves: seq<Move>)
    requires Inv(s)
    ensures Inv(Run(s, moves)) && Run(s, moves).messages == s.messages
    decreases |moves|
  {
    if |moves| > 0 {
      RunFrom(s, moves[..|moves| - 1]);
      ClientKeeps(Run(s, moves[..|moves| - 1]));
      HostKeeps(Run(s, moves[..|moves| - 1]));
    }
  }
}
