/** Two ends of a channel joined by two FIFO connections, and what holds in every state that any
    interleaving of their reads, writes and deliveries can reach. */
module ChannelProtocol {
  import opened Bytes
  import opened SshBuffers
  import opened ChannelModel

  /** One end, the messages on their way to it, and the bytes it has accepted from its writers
      and handed to its readers so far, for stdout and stderr. */
  datatype Side = Side(end: Endpoint, inbox: seq<Msg>,
                       acceptedOut: seq<byte>, acceptedErr: seq<byte>, readOut: seq<byte>, readErr: seq<byte>)
  {
    function Accepted(stderr: bool): seq<byte> {
      if stderr then acceptedErr else acceptedOut
    }

    function Read(stderr: bool): seq<byte> {
      if stderr then readErr else readOut
    }

    function Accept(stderr: bool, s: seq<byte>): Side {
      if stderr then this.(acceptedErr := acceptedErr + s) else this.(acceptedOut := acceptedOut + s)
    }

    function Hand(stderr: bool, s: seq<byte>): Side {
      if stderr then this.(readErr := readErr + s) else this.(readOut := readOut + s)
    }

    function Post(msgs: seq<Msg>): Side {
      this.(inbox := inbox + msgs)
    }
  }

  /** Handling the next message, one packet of a write, the two halves of a read, and the end of
      file. A write or read that waits is a sequence of these with deliveries in between. */
  datatype Step =
    | Deliver
    | Send(stderr: bool, data: seq<byte>)
    | Begin(count: nat, stderr: bool)
    | End(count: nat, stderr: bool)
    | Finish

  function Act(me: Side, peer: Side, step: Step): (Side, Side)
    requires Possible(me, step)
  {
    match step
    case Deliver => (me.(end := Receive(me.end, me.inbox[0]), inbox := me.inbox[1..]), peer)
    case Send(stderr, data) =>
      var payload := data[..Chunk(me.end, |data|)];
      var (e, msg) := SendChunk(me.end, stderr, payload);
      (me.(end := e).Accept(stderr, payload), peer.Post([msg]))
    case Begin(count, stderr) =>
      var (e, msgs) := ReadBegin(me.end, count, stderr);
      (me.(end := e), peer.Post(msgs))
    case End(count, stderr) =>
      var (e, bytes, msgs) := ReadEnd(me.end, count, stderr);
      (me.(end := e).Hand(stderr, bytes), peer.Post(msgs))
    case Finish => (me.(end := me.end.(localEof := true)), peer.Post([Eof]))
  }

  predicate Possible(me: Side, step: Step) {
    match step
    case Deliver => me.inbox != []
    case Send(_, data) =>
      && data != [] && me.end.remoteWindow > 0
      && me.end.CanSend() && !me.end.localEof
    case Begin(count, _) => 0 < count < TWO_TO_THE_32
    case End(count, _) => 0 < count < TWO_TO_THE_32
    case Finish => true
  }

  /** Buffers have room: a delivery leaves less than 2^31 bytes unread. */
  predicate Roomy(me: Side, step: Step) {
    step.Deliver? && me.inbox != [] && me.inbox[0].Data? ==>
      |me.end.Buffered(me.inbox[0].stderr)| + |me.inbox[0].payload| < HALF
  }

  // ----- the invariant -----

  /** Whether the end of file has been sent, for what has arrived and what is on its way. */
  predicate Eofed(eof: bool, msgs: seq<Msg>) {
    eof || exists i :: 0 <= i < |msgs| && msgs[i].Eof?
  }

  /** No data follows the end of file. */
  predicate Orderly(eof: bool, msgs: seq<Msg>) {
    && (eof ==> forall i :: 0 <= i < |msgs| ==> !msgs[i].Data?)
    && forall i, j :: 0 <= i < j < |msgs| && msgs[i].Eof? ==> !msgs[j].Data?
  }

  /** Window conservation: what the receiver has granted is what the sender may still send, what
      is on its way, and the grants on their way back. */
  predicate WindowsAgree(me: Side, peer: Side) {
    && me.end.localWindow == peer.end.remoteWindow + DataBytes(me.inbox) + Adjusted(peer.inbox)
    && me.end.localWindow < HALF
  }

  /** Every byte accepted by a writer is read, buffered or on its way, in order. */
  predicate StreamIntact(me: Side, peer: Side, stderr: bool) {
    && me.Read(stderr) + me.end.Buffered(stderr) + Payloads(stderr, me.inbox) == peer.Accepted(stderr)
    && |me.end.Buffered(stderr)| < HALF
  }

  ghost predicate PacketsInOrder(me: Side, peer: Side) {
    && PacketsFit(me.inbox, peer.end.remoteMaxpacket)
    && Orderly(me.end.remoteEof, me.inbox)
    && (peer.end.localEof <==> Eofed(me.end.remoteEof, me.inbox))
  }

  /** The direction from peer to me. */
  ghost predicate Link(me: Side, peer: Side) {
    WindowsAgree(me, peer) && StreamIntact(me, peer, false) && StreamIntact(me, peer, true) && PacketsInOrder(me, peer)
  }

  lemma HeadAndRest(msgs: seq<Msg>)
    requires msgs != []
    ensures DataBytes(msgs) == DataBytes([msgs[0]]) + DataBytes(msgs[1..])
    ensures Adjusted(msgs) == Adjusted([msgs[0]]) + Adjusted(msgs[1..])
    ensures forall stderr :: Payloads(stderr, msgs) == Payloads(stderr, [msgs[0]]) + Payloads(stderr, msgs[1..])
  {
    SumsAppend([msgs[0]], msgs[1..]);
    assert [msgs[0]] + msgs[1..] == msgs;
  }

  lemma OneMessage(m: Msg)
    ensures DataBytes([m]) == (if m.Data? then |m.payload| else 0)
    ensures Adjusted([m]) == (if m.Adjust? then m.bytes else 0)
    ensures forall stderr :: Payloads(stderr, [m]) == if m.Data? && m.stderr == stderr then m.payload else []
  {
    assert forall s: seq<byte> :: s + [] == s;
  }

  // ----- each step keeps the invariant -----

  lemma DeliverKeepsIn(me: Side, peer: Side)
    requires Link(me, peer) && me.inbox != [] && Roomy(me, Deliver)
    ensures Link(Act(me, peer, Deliver).0, peer)
    ensures me.inbox[0].Data? ==> |me.inbox[0].payload| <= me.end.localWindow
  {
    hide Payloads, DataBytes, Adjusted;
    var m, rest := me.inbox[0], me.inbox[1..];
    HeadAndRest(me.inbox);
    OneMessage(m);
    var me' := Act(me, peer, Deliver).0;
    assert forall i :: 0 <= i < |rest| ==> rest[i] == me.inbox[i + 1];
    forall stderr
      ensures StreamIntact(me', peer, stderr)
    {
      StreamMoves(me, peer, stderr);
    }
    EofMoves(me.end.remoteEof, me.inbox);
  }

  lemma StreamMoves(me: Side, peer: Side, stderr: bool)
    requires StreamIntact(me, peer, stderr) && me.inbox != [] && Roomy(me, Deliver)
    ensures StreamIntact(Act(me, peer, Deliver).0, peer, stderr)
  {
    hide Payloads, DataBytes, Adjusted;
    var m, rest := me.inbox[0], me.inbox[1..];
    HeadAndRest(me.inbox);
    OneMessage(m);
    var r, b, p := me.Read(stderr), me.end.Buffered(stderr), Payloads(stderr, rest);
    if m.Data? && m.stderr == stderr {
      assert r + (b + m.payload) + p == r + b + (m.payload + p);
    } else {
      assert [] + p == p;
    }
  }

  lemma EofMoves(eof: bool, msgs: seq<Msg>)
    requires msgs != [] && Orderly(eof, msgs)
    ensures Orderly(eof || msgs[0].Eof?, msgs[1..])
    ensures Eofed(eof || msgs[0].Eof?, msgs[1..]) <==> Eofed(eof, msgs)
  {
    if Eofed(eof, msgs) && !eof && !msgs[0].Eof? {
      var i :| 0 <= i < |msgs| && msgs[i].Eof?;
      assert msgs[1..][i - 1].Eof?;
    }
  }

  lemma DeliverKeepsOut(me: Side, peer: Side)
    requires Link(peer, me) && me.inbox != []
    ensures Link(peer, Act(me, peer, Deliver).0)
    ensures me.inbox[0].Adjust? ==> me.end.remoteWindow + me.inbox[0].bytes < HALF
  {
    hide Payloads, DataBytes, Adjusted;
    HeadAndRest(me.inbox);
    OneMessage(me.inbox[0]);
  }

  /** Messages other than data change only the grants on their way. */
  lemma PostKeeps(me: Side, peer: Side, msgs: seq<Msg>)
    requires PacketsInOrder(peer, me) && StreamIntact(peer, me, false) && StreamIntact(peer, me, true)
    requires |msgs| <= 1 && (msgs != [] ==> msgs[0].Adjust?)
    ensures PacketsInOrder(peer.Post(msgs), me) && StreamIntact(peer.Post(msgs), me, false)
    ensures StreamIntact(peer.Post(msgs), me, true)
    ensures DataBytes(peer.Post(msgs).inbox) == DataBytes(peer.inbox)
    ensures Adjusted(peer.Post(msgs).inbox) == Adjusted(peer.inbox) + if msgs == [] then 0 else msgs[0].bytes
  {
    hide Payloads, DataBytes, Adjusted;
    if msgs == [] {
      assert peer.inbox + msgs == peer.inbox;
    } else {
      assert msgs == [msgs[0]];
      OneMessage(msgs[0]);
      SumsAppend(peer.inbox, msgs);
      assert forall s: seq<byte> :: s + [] == s;
      var all := peer.inbox + msgs;
      assert forall i :: 0 <= i < |peer.inbox| ==> all[i] == peer.inbox[i];
    }
  }

  lemma GrowBounds(e: Endpoint, minimumSize: int)
    requires e.localWindow < HALF && minimumSize < HALF
    ensures var (e', msgs) := Grow(e, minimumSize);
            && |msgs| <= 1 && (msgs != [] ==> msgs[0].Adjust?)
            && e' == e.(localWindow := e.localWindow + if msgs == [] then 0 else msgs[0].bytes)
            && e'.localWindow < HALF && e'.localWindow >= WINDOW_BASE && e'.localWindow >= minimumSize
  {
  }

  /** What growing the window, or leaving it, makes of an end. */
  predicate Granted(e: Endpoint, e': Endpoint, msgs: seq<Msg>) {
    && |msgs| <= 1 && (msgs != [] ==> msgs[0].Adjust?)
    && e' == e.(localWindow := e.localWindow + if msgs == [] then 0 else msgs[0].bytes)
    && e'.localWindow < HALF && (msgs == [] || e'.localWindow >= WINDOW_BASE)
  }

  lemma GrantKeeps(me: Side, peer: Side, e: Endpoint, msgs: seq<Msg>)
    requires Link(me, peer) && Link(peer, me) && Granted(me.end, e, msgs)
    ensures Link(me.(end := e), peer.Post(msgs)) && Link(peer.Post(msgs), me.(end := e))
  {
    hide Payloads, DataBytes, Adjusted, Orderly, Eofed, PacketsFit;
    PostKeeps(me, peer, msgs);
  }

  lemma BeginEffect(e: Endpoint, count: nat, stderr: bool)
    requires e.localWindow < HALF && |e.Buffered(stderr)| < HALF && 0 < count < TWO_TO_THE_32
    ensures var (e', msgs) := ReadBegin(e, count, stderr);
            Granted(e, e', msgs) && (e.localWindow == 0 && e.Buffered(stderr) == [] ==> msgs != [])
  {
    hide Grow;
    var rest := |e.Buffered(stderr)|;
    if count > (rest + e.localWindow) % TWO_TO_THE_32 {
      GrowBounds(e, ToInt32(count - rest));
    }
  }

  lemma BeginKeeps(me: Side, peer: Side, count: nat, stderr: bool)
    requires Link(me, peer) && Link(peer, me) && 0 < count < TWO_TO_THE_32
    ensures var (me', peer') := Act(me, peer, Begin(count, stderr));
            Link(me', peer') && Link(peer', me')
  {
    hide Payloads, DataBytes, Adjusted, PacketsInOrder, ReadBegin, Granted;
    BeginEffect(me.end, count, stderr);
    var (e, msgs) := ReadBegin(me.end, count, stderr);
    GrantKeeps(me, peer, e, msgs);
  }

  /** A side after handing out the next bytes of a stream. */
  function Taken(me: Side, stderr: bool, len: nat): Side
    requires len <= |me.end.Buffered(stderr)|
  {
    var buffered := me.end.Buffered(stderr);
    me.(end := me.end.WithBuffered(stderr, buffered[len..])).Hand(stderr, buffered[..len])
  }

  lemma TakeKeeps(me: Side, peer: Side, stderr: bool, len: nat)
    requires Link(me, peer) && Link(peer, me) && len <= |me.end.Buffered(stderr)|
    ensures Link(Taken(me, stderr, len), peer) && Link(peer, Taken(me, stderr, len))
  {
    hide Payloads, DataBytes, Adjusted, Orderly, Eofed, PacketsFit;
    var buffered := me.end.Buffered(stderr);
    assert me.Read(stderr) + buffered[..len] + buffered[len..] == me.Read(stderr) + buffered;
  }

  /** How much the end of a read takes. */
  function Length(e: Endpoint, count: nat, stderr: bool): (len: nat)
    ensures len <= |e.Buffered(stderr)|
  {
    if |e.Buffered(stderr)| > count then count else |e.Buffered(stderr)|
  }

  lemma ReadEndEffect(e: Endpoint, count: nat, stderr: bool)
    requires e.localWindow < HALF
    ensures var (e', bytes, msgs) := ReadEnd(e, count, stderr);
            var buffered, len := e.Buffered(stderr), Length(e, count, stderr);
            && bytes == buffered[..len] && Granted(e.WithBuffered(stderr, buffered[len..]), e', msgs)
            && (buffered != [] && e.localWindow < WINDOW_LIMIT ==> msgs != [])
  {
    hide Grow;
    var buffered, len := e.Buffered(stderr), Length(e, count, stderr);
    GrowBounds(e.WithBuffered(stderr, buffered[len..]), 0);
    GrowGrants(e.WithBuffered(stderr, buffered[len..]));
    if buffered == [] {
      assert buffered[len..] == [] && buffered[..len] == [];
    }
  }

  /** The end of a read takes what there is and, unless it met the end of file, sees to the window. */
  lemma EndEffect(me: Side, peer: Side, count: nat, stderr: bool)
    requires me.end.localWindow < HALF && 0 < count < TWO_TO_THE_32
    ensures Granted(Taken(me, stderr, Length(me.end, count, stderr)).end,
                    ReadEnd(me.end, count, stderr).0, ReadEnd(me.end, count, stderr).2)
    ensures Act(me, peer, End(count, stderr))
         == (Taken(me, stderr, Length(me.end, count, stderr)).(end := ReadEnd(me.end, count, stderr).0),
             peer.Post(ReadEnd(me.end, count, stderr).2))
    ensures me.end.Buffered(stderr) != [] && me.end.localWindow < WINDOW_LIMIT ==>
      ReadEnd(me.end, count, stderr).2 != []
  {
    hide ReadEnd, Granted, Length, Act, Taken;
    var len := Length(me.end, count, stderr);
    ReadEndEffect(me.end, count, stderr);
    TakenEnd(me, stderr, len);
    ActEnd(me, peer, count, stderr);
    HandTaken(me, stderr, len, ReadEnd(me.end, count, stderr).0);
  }

  lemma TakenEnd(me: Side, stderr: bool, len: nat)
    requires len <= |me.end.Buffered(stderr)|
    ensures Taken(me, stderr, len).end == me.end.WithBuffered(stderr, me.end.Buffered(stderr)[len..])
  {
  }

  lemma ActEnd(me: Side, peer: Side, count: nat, stderr: bool)
    requires 0 < count < TWO_TO_THE_32
    ensures var (e, bytes, msgs) := ReadEnd(me.end, count, stderr);
            Act(me, peer, End(count, stderr)) == (me.(end := e).Hand(stderr, bytes), peer.Post(msgs))
  {
    hide ReadEnd, Receive, ReadBegin, Chunk, SendChunk, PayloadLimit;
  }

  lemma HandTaken(me: Side, stderr: bool, len: nat, e: Endpoint)
    requires len <= |me.end.Buffered(stderr)|
    ensures Taken(me, stderr, len).(end := e) == me.(end := e).Hand(stderr, me.end.Buffered(stderr)[..len])
  {
  }

  lemma GrowGrants(e: Endpoint)
    ensures e.localWindow < WINDOW_BASE ==> Grow(e, 0).1 != []
  {
  }

  lemma EndKeeps(me: Side, peer: Side, count: nat, stderr: bool)
    requires Link(me, peer) && Link(peer, me) && 0 < count < TWO_TO_THE_32
    ensures var (me', peer') := Act(me, peer, End(count, stderr));
            Link(me', peer') && Link(peer', me')
  {
    hide Payloads, DataBytes, Adjusted, PacketsInOrder, StreamIntact, ReadEnd, Granted, Taken, Act;
    EndEffect(me, peer, count, stderr);
    var len := Length(me.end, count, stderr);
    TakeKeeps(me, peer, stderr, len);
    var (e, bytes, msgs) := ReadEnd(me.end, count, stderr);
    GrantKeeps(Taken(me, stderr, len), peer, e, msgs);
  }

  /** What sending a packet does to the two sides. */
  lemma SendEffect(me: Side, peer: Side, stderr: bool, data: seq<byte>)
    requires Possible(me, Send(stderr, data))
    ensures var payload := data[..Chunk(me.end, |data|)];
            && 1 <= |payload| <= me.end.remoteWindow && |payload| <= PayloadLimit(me.end.remoteMaxpacket)
            && Act(me, peer, Send(stderr, data)) == Sent(me, peer, stderr, payload)
  {
    ChunkBounds(me.end, |data|);
  }

  function Sent(me: Side, peer: Side, stderr: bool, payload: seq<byte>): (Side, Side)
    requires |payload| <= me.end.remoteWindow
  {
    (me.(end := me.end.(remoteWindow := me.end.remoteWindow - |payload|)).Accept(stderr, payload),
     peer.Post([Data(stderr, payload)]))
  }

  lemma SendWindows(me: Side, peer: Side, stderr: bool, payload: seq<byte>)
    requires WindowsAgree(me, peer) && WindowsAgree(peer, me) && |payload| <= me.end.remoteWindow
    ensures var (me', peer') := Sent(me, peer, stderr, payload);
            WindowsAgree(me', peer') && WindowsAgree(peer', me')
  {
    hide Payloads, DataBytes, Adjusted;
    SumsAppend(peer.inbox, [Data(stderr, payload)]);
    OneMessage(Data(stderr, payload));
  }

  lemma SendStream(me: Side, peer: Side, stderr: bool, payload: seq<byte>, s: bool)
    requires StreamIntact(me, peer, s) && StreamIntact(peer, me, s) && |payload| <= me.end.remoteWindow
    ensures var (me', peer') := Sent(me, peer, stderr, payload);
            StreamIntact(me', peer', s) && StreamIntact(peer', me', s)
  {
    hide Payloads, DataBytes, Adjusted;
    SumsAppend(peer.inbox, [Data(stderr, payload)]);
    OneMessage(Data(stderr, payload));
    var here, underway := peer.Read(s) + peer.end.Buffered(s), Payloads(s, peer.inbox);
    assert here + (underway + payload) == here + underway + payload;
    assert underway + [] == underway;
  }

  lemma SendKeeps(me: Side, peer: Side, stderr: bool, data: seq<byte>)
    requires Link(me, peer) && Link(peer, me) && Possible(me, Send(stderr, data))
    ensures var (me', peer') := Act(me, peer, Send(stderr, data));
            Link(me', peer') && Link(peer', me')
  {
    hide WindowsAgree, StreamIntact, PacketsFit, Orderly, Eofed, Chunk, Act;
    ChunkBounds(me.end, |data|);
    SendEffect(me, peer, stderr, data);
    var payload := data[..Chunk(me.end, |data|)];
    SendWindows(me, peer, stderr, payload);
    SendStream(me, peer, stderr, payload, false);
    SendStream(me, peer, stderr, payload, true);
    SendInOrder(me, peer, Data(stderr, payload));
  }

  lemma SendInOrder(me: Side, peer: Side, msg: Msg)
    requires PacketsInOrder(peer, me) && msg.Data? && !me.end.localEof
    requires 1 <= |msg.payload| <= PayloadLimit(me.end.remoteMaxpacket)
    ensures PacketsInOrder(peer.Post([msg]), me)
  {
    var all := peer.inbox + [msg];
    assert forall i :: 0 <= i < |peer.inbox| ==> all[i] == peer.inbox[i];
  }

  lemma FinishKeeps(me: Side, peer: Side)
    requires Link(me, peer) && Link(peer, me)
    ensures var (me', peer') := Act(me, peer, Finish);
            Link(me', peer') && Link(peer', me')
  {
    hide Payloads, DataBytes, Adjusted;
    SumsAppend(peer.inbox, [Eof]);
    OneMessage(Eof);
    assert forall s: seq<byte> :: s + [] == s;
    var all := peer.inbox + [Eof];
    assert forall i :: 0 <= i < |peer.inbox| ==> all[i] == peer.inbox[i];
    assert all[|peer.inbox|].Eof?;
  }

  lemma StepKeeps(me: Side, peer: Side, step: Step)
    requires Link(me, peer) && Link(peer, me) && Possible(me, step) && Roomy(me, step)
    ensures var (me', peer') := Act(me, peer, step);
            Link(me', peer') && Link(peer', me')
  {
    hide Link, Receive, ReadBegin, ReadEnd, SendChunk, Chunk;
    match step {
      case Deliver => DeliverKeepsIn(me, peer); DeliverKeepsOut(me, peer);
      case Send(stderr, data) => SendKeeps(me, peer, stderr, data);
      case Begin(count, stderr) => BeginKeeps(me, peer, count, stderr);
      case End(count, stderr) => EndKeeps(me, peer, count, stderr);
      case Finish => FinishKeeps(me, peer);
    }
  }

  // ----- runs -----

  datatype System = System(a: Side, b: Side)

  /** One step by one of the two ends. */
  datatype Move = Move(byA: bool, step: Step)

  function Mover(sys: System, byA: bool): Side {
    if byA then sys.a else sys.b
  }

  function Other(sys: System, byA: bool): Side {
    if byA then sys.b else sys.a
  }

  function Placed(byA: bool, me: Side, peer: Side): System {
    if byA then System(me, peer) else System(peer, me)
  }

  function Apply(sys: System, m: Move): System
    requires Possible(Mover(sys, m.byA), m.step)
  {
    var (me, peer) := Act(Mover(sys, m.byA), Other(sys, m.byA), m.step);
    Placed(m.byA, me, peer)
  }

  predicate Legal(sys: System, moves: seq<Move>)
    decreases |moves|
  {
    moves == []
    || (&& Possible(Mover(sys, moves[0].byA), moves[0].step)
        && Roomy(Mover(sys, moves[0].byA), moves[0].step)
        && Legal(Apply(sys, moves[0]), moves[1..]))
  }

  function Run(sys: System, moves: seq<Move>): System
    requires Legal(sys, moves)
    decreases |moves|
  {
    if moves == [] then sys else Run(Apply(sys, moves[0]), moves[1..])
  }

  ghost predicate Inv(sys: System) {
    Link(sys.a, sys.b) && Link(sys.b, sys.a)
  }

  /** Both ends of a channel just opened: each has been told the other's window and packet limit. */
  function Opened(windowA: nat, maxpacketA: nat, windowB: nat, maxpacketB: nat): System {
    System(Side(Endpoint(windowA, windowB, maxpacketB, [], [], false, false), [], [], [], [], []),
           Side(Endpoint(windowB, windowA, maxpacketA, [], [], false, false), [], [], [], [], []))
  }

  lemma OpenedInv(windowA: nat, maxpacketA: nat, windowB: nat, maxpacketB: nat)
    requires windowA < HALF && windowB < HALF
    ensures Inv(Opened(windowA, maxpacketA, windowB, maxpacketB))
  {
  }

  lemma {:induction false} RunKeepsInv(sys: System, moves: seq<Move>)
    requires Inv(sys) && Legal(sys, moves)
    ensures Inv(Run(sys, moves))
    decreases |moves|
  {
    hide Link, Act, Possible, Roomy;
    if moves != [] {
      var m := moves[0];
      StepKeeps(Mover(sys, m.byA), Other(sys, m.byA), m.step);
      RunKeepsInv(Apply(sys, m), moves[1..]);
    }
  }

  /** In every reachable state, in both directions: the receiver's window is the sender's plus
      what is on its way; the next data fits the window, so it is never clamped; the next grant
      does not overflow the sender's window; and every byte accepted has been read, is buffered,
      or is on its way, in order, on each of the two streams. */
  lemma EveryReachableState(windowA: nat, maxpacketA: nat, windowB: nat, maxpacketB: nat, moves: seq<Move>, byA: bool)
    requires windowA < HALF && windowB < HALF && Legal(Opened(windowA, maxpacketA, windowB, maxpacketB), moves)
    ensures var sys := Run(Opened(windowA, maxpacketA, windowB, maxpacketB), moves);
            var me, peer := Mover(sys, byA), Other(sys, byA);
            && me.end.localWindow == peer.end.remoteWindow + DataBytes(me.inbox) + Adjusted(peer.inbox)
            && (me.inbox != [] && me.inbox[0].Data? ==> |me.inbox[0].payload| <= me.end.localWindow)
            && (me.inbox != [] && me.inbox[0].Adjust? ==> me.end.remoteWindow + me.inbox[0].bytes < TWO_TO_THE_32)
            && (forall stderr ::
                  me.Read(stderr) + me.end.Buffered(stderr) + Payloads(stderr, me.inbox) == peer.Accepted(stderr))
            && PacketsFit(me.inbox, peer.end.remoteMaxpacket) && TenBytesFree(me.inbox, peer.end.remoteMaxpacket)
  {
    hide Run, Legal, Payloads, PacketsFit, TenBytesFree, Orderly, Eofed, DataBytes, Adjusted;
    OpenedInv(windowA, maxpacketA, windowB, maxpacketB);
    RunKeepsInv(Opened(windowA, maxpacketA, windowB, maxpacketB), moves);
    var sys := Run(Opened(windowA, maxpacketA, windowB, maxpacketB), moves);
    HeadWithinWindow(Mover(sys, byA), Other(sys, byA));
    FitLeavesTen(Mover(sys, byA).inbox, Other(sys, byA).end.remoteMaxpacket);
  }

  lemma HeadWithinWindow(me: Side, peer: Side)
    requires WindowsAgree(me, peer) && WindowsAgree(peer, me)
    ensures me.inbox != [] && me.inbox[0].Data? ==> |me.inbox[0].payload| <= me.end.localWindow
    ensures me.inbox != [] && me.inbox[0].Adjust? ==> me.end.remoteWindow + me.inbox[0].bytes < TWO_TO_THE_32
  {
  }

  /** Once the end of file has been reached with nothing buffered, everything the other end ever
      accepted has been read, and it accepts no more. */
  lemma EndOfFileIsComplete(me: Side, peer: Side)
    requires Link(me, peer) && me.end.remoteEof && me.end.out == [] && me.end.err == []
    ensures me.readOut == peer.acceptedOut && me.readErr == peer.acceptedErr && peer.end.localEof
  {
    NoDataNoPayload(me.inbox);
    assert me.Read(false) + [] + [] == me.readOut && me.Read(true) + [] + [] == me.readErr;
  }

  lemma {:induction false} NoDataNoPayload(msgs: seq<Msg>)
    requires forall i :: 0 <= i < |msgs| ==> !msgs[i].Data?
    ensures Payloads(false, msgs) == [] && Payloads(true, msgs) == []
    decreases |msgs|
  {
    if msgs != [] {
      var rest := msgs[1..];
      assert forall i :: 0 <= i < |rest| ==> rest[i] == msgs[i + 1];
      NoDataNoPayload(rest);
    }
  }

  /** No deadlock: with nothing on its way and the sender's window closed, the receiver's window
      is closed too, and the receiver's next read, for any positive count and without waiting for
      data, sends a grant that reopens the sender's window to at least WINDOW_BASE. */
  lemma NoWindowDeadlock(me: Side, peer: Side, count: nat, stderr: bool)
    requires Link(me, peer) && Link(peer, me) && peer.end.remoteWindow == 0 && 0 < count < TWO_TO_THE_32
    requires DataBytes(me.inbox) == 0 && Adjusted(peer.inbox) == 0
    ensures me.end.localWindow == 0
    ensures me.end.Buffered(stderr) == [] ==> Adjusted(Act(me, peer, Begin(count, stderr)).1.inbox) >= WINDOW_BASE
    ensures me.end.Buffered(stderr) != [] ==>
              var (me1, peer1) := Act(me, peer, Begin(count, stderr));
              Adjusted(Act(me1, peer1, End(count, stderr)).1.inbox) >= WINDOW_BASE
  {
    hide Payloads, DataBytes, Adjusted, PacketsInOrder, ReadBegin, Grow;
    BeginEffect(me.end, count, stderr);
    var (e1, msgs) := ReadBegin(me.end, count, stderr);
    PostSums(peer, msgs);
    BeginKeeps(me, peer, count, stderr);
    var (me1, peer1) := Act(me, peer, Begin(count, stderr));
    if me.end.Buffered(stderr) != [] {
      EndGrants(me1, peer1, count, stderr);
    }
  }

  lemma PostSums(peer: Side, msgs: seq<Msg>)
    requires |msgs| <= 1 && (msgs != [] ==> msgs[0].Adjust?)
    ensures Adjusted(peer.Post(msgs).inbox) == Adjusted(peer.inbox) + if msgs == [] then 0 else msgs[0].bytes
  {
    hide Adjusted;
    SumsAppend(peer.inbox, msgs);
    if msgs == [] {
      assert peer.inbox + msgs == peer.inbox;
    } else {
      assert msgs == [msgs[0]];
      OneMessage(msgs[0]);
    }
  }

  lemma EndGrants(me: Side, peer: Side, count: nat, stderr: bool)
    requires Link(me, peer) && Link(peer, me) && me.end.Buffered(stderr) != [] && 0 < count < TWO_TO_THE_32
    requires me.end.localWindow == 0 || me.end.localWindow >= WINDOW_BASE
    requires me.end.localWindow == Adjusted(peer.inbox)
    ensures Adjusted(Act(me, peer, End(count, stderr)).1.inbox) >= WINDOW_BASE
  {
    hide Payloads, DataBytes, Adjusted, PacketsInOrder, StreamIntact, ReadEnd, Act;
    EndEffect(me, peer, count, stderr);
    var len := Length(me.end, count, stderr);
    PostSums(peer, ReadEnd(me.end, count, stderr).2);
  }

  // ----- whole writes and reads are runs -----

  /** Room for everything that may arrive. */
  predicate RoomFor(e: Endpoint, msgs: seq<Msg>) {
    |e.out| + |e.err| + DataBytes(msgs) < HALF
  }

  lemma DeliverOne(sys: System, byA: bool, incoming: seq<Msg>, later: seq<Msg>)
    requires incoming != [] && Mover(sys, byA).inbox == incoming + later && RoomFor(Mover(sys, byA).end, incoming)
    ensures Possible(Mover(sys, byA), Deliver) && Roomy(Mover(sys, byA), Deliver)
    ensures var me := Mover(sys, byA);
            var e := Receive(me.end, incoming[0]);
            && Apply(sys, Move(byA, Deliver))
               == Placed(byA, me.(end := e, inbox := incoming[1..] + later), Other(sys, byA))
            && RoomFor(e, incoming[1..]) && e.localEof == me.end.localEof && e.remoteMaxpacket == me.end.remoteMaxpacket
  {
    assert (incoming + later)[1..] == incoming[1..] + later;
  }

  lemma AcceptTwice(me: Side, stderr: bool, s: seq<byte>, t: seq<byte>)
    ensures me.Accept(stderr, s).Accept(stderr, t) == me.Accept(stderr, s + t)
  {
    assert me.Accepted(stderr) + s + t == me.Accepted(stderr) + (s + t);
  }

  lemma PostTwice(peer: Side, s: seq<Msg>, t: seq<Msg>)
    ensures peer.Post(s).Post(t) == peer.Post(s + t)
  {
    assert peer.inbox + s + t == peer.inbox + (s + t);
  }

  lemma NothingDone(me: Side, peer: Side, stderr: bool, data: seq<byte>)
    ensures me.Accept(stderr, data[..0]) == me && me.Hand(stderr, []) == me && peer.Post([]) == peer
  {
    assert data[..0] == [];
    assert forall s: seq<byte> :: s + [] == s;
    assert peer.inbox + [] == peer.inbox;
  }

  lemma PlacedBack(byA: bool, me: Side, peer: Side)
    ensures Mover(Placed(byA, me, peer), byA) == me && Other(Placed(byA, me, peer), byA) == peer
  {
  }

  lemma OneMove(sys: System, m: Move, rest: seq<Move>)
    requires Possible(Mover(sys, m.byA), m.step) && Roomy(Mover(sys, m.byA), m.step) && Legal(Apply(sys, m), rest)
    ensures Legal(sys, [m] + rest) && Run(sys, [m] + rest) == Run(Apply(sys, m), rest)
  {
    hide Act, Possible, Roomy;
    assert ([m] + rest)[1..] == rest;
  }

  /** The state a whole write leaves behind. */
  function Written(me: Side, peer: Side, byA: bool, stderr: bool, data: seq<byte>, incoming: seq<Msg>,
                   later: seq<Msg>): System
    requires me.end.CanSend()
    requires WriteLoop(me.end, stderr, data, incoming).3 <= |data|
  {
    var (e, sent, left, written) := WriteLoop(me.end, stderr, data, incoming);
    Placed(byA, me.(end := e, inbox := left + later).Accept(stderr, data[..written]), peer.Post(sent))
  }

  /** A write, with the deliveries it handles while it waits, is a run of the system. */
  lemma {:induction false} WriteIsRun(sys: System, byA: bool, stderr: bool, data: seq<byte>, incoming: seq<Msg>,
                                      later: seq<Msg>)
      returns (moves: seq<Move>)
    requires Mover(sys, byA).inbox == incoming + later && RoomFor(Mover(sys, byA).end, incoming)
    requires Mover(sys, byA).end.CanSend() && !Mover(sys, byA).end.localEof
    ensures WriteLoop(Mover(sys, byA).end, stderr, data, incoming).3 <= |data|
    ensures Legal(sys, moves)
    ensures Run(sys, moves) == Written(Mover(sys, byA), Other(sys, byA), byA, stderr, data, incoming, later)
    decreases |data|, |incoming|
  {
    hide Receive, Chunk, Roomy, RoomFor, Act, Apply, Run, Legal, Possible, LeftOver, PayloadLimit, Payloads, PacketsFit;
    hide WriteLoop, Written;
    var me, peer := Mover(sys, byA), Other(sys, byA);
    WriteSendsPrefix(me.end, stderr, data, incoming);
    if data == [] || (me.end.remoteWindow == 0 && incoming == []) {
      moves := [];
      NoMoves(sys);
      NothingWritten(me, peer, byA, stderr, data, incoming, later);
      assert Placed(byA, me, peer) == sys;
    } else if me.end.remoteWindow == 0 {
      DeliverOne(sys, byA, incoming, later);
      var me1 := me.(end := Receive(me.end, incoming[0]), inbox := incoming[1..] + later);
      PlacedBack(byA, me1, peer);
      var rest := WriteIsRun(Placed(byA, me1, peer), byA, stderr, data, incoming[1..], later);
      OneMove(sys, Move(byA, Deliver), rest);
      moves := [Move(byA, Deliver)] + rest;
      WrittenAfterDelivery(me, peer, byA, stderr, data, incoming, later);
    } else {
      SendOne(sys, byA, stderr, data);
      var n := Chunk(me.end, |data|);
      ChunkBounds(me.end, |data|);
      var (e1, msg) := SendChunk(me.end, stderr, data[..n]);
      var me1 := me.(end := e1).Accept(stderr, data[..n]);
      PlacedBack(byA, me1, peer.Post([msg]));
      SendKeepsRoom(me.end, stderr, data[..n], incoming);
      var rest := WriteIsRun(Placed(byA, me1, peer.Post([msg])), byA, stderr, data[n..], incoming, later);
      OneMove(sys, Move(byA, Send(stderr, data)), rest);
      moves := [Move(byA, Send(stderr, data))] + rest;
      WrittenAfterSend(me, peer, byA, stderr, data, incoming, later);
    }
  }

  lemma NothingWritten(me: Side, peer: Side, byA: bool, stderr: bool, data: seq<byte>, incoming: seq<Msg>,
                       later: seq<Msg>)
    requires me.end.CanSend() && me.inbox == incoming + later
    requires data == [] || (me.end.remoteWindow == 0 && incoming == [])
    ensures WriteLoop(me.end, stderr, data, incoming).3 <= |data|
    ensures Written(me, peer, byA, stderr, data, incoming, later) == Placed(byA, me, peer)
  {
    hide PayloadLimit, Chunk, Receive;
    NothingDone(me, peer, stderr, data);
  }

  lemma WrittenAfterDelivery(me: Side, peer: Side, byA: bool, stderr: bool, data: seq<byte>, incoming: seq<Msg>,
                             later: seq<Msg>)
    requires me.end.CanSend() && data != [] && me.end.remoteWindow == 0 && incoming != []
    ensures var me1 := me.(end := Receive(me.end, incoming[0]), inbox := incoming[1..] + later);
            && me1.end.CanSend() && WriteLoop(me1.end, stderr, data, incoming[1..]).3 <= |data|
            && WriteLoop(me.end, stderr, data, incoming).3 <= |data|
            && Written(me1, peer, byA, stderr, data, incoming[1..], later)
               == Written(me, peer, byA, stderr, data, incoming, later)
  {
    hide PayloadLimit, Chunk, Payloads, DataBytes, Adjusted, PacketsFit, LeftOver;
    WriteSendsPrefix(me.end, stderr, data, incoming);
  }

  lemma WrittenAfterSend(me: Side, peer: Side, byA: bool, stderr: bool, data: seq<byte>, incoming: seq<Msg>,
                         later: seq<Msg>)
    requires me.end.CanSend() && data != [] && me.end.remoteWindow > 0
    ensures var n := Chunk(me.end, |data|);
            && 1 <= n <= |data| && n <= me.end.remoteWindow
            && var (e1, msg) := SendChunk(me.end, stderr, data[..n]);
               var me1 := me.(end := e1).Accept(stderr, data[..n]);
               && me1.end.CanSend() && WriteLoop(me1.end, stderr, data[n..], incoming).3 <= |data[n..]|
               && WriteLoop(me.end, stderr, data, incoming).3 <= |data|
               && Written(me1, peer.Post([msg]), byA, stderr, data[n..], incoming, later)
                  == Written(me, peer, byA, stderr, data, incoming, later)
  {
    hide PayloadLimit, Chunk, Payloads, DataBytes, Adjusted, PacketsFit, LeftOver, Receive;
    var n := Chunk(me.end, |data|);
    ChunkBounds(me.end, |data|);
    var (e1, msg) := SendChunk(me.end, stderr, data[..n]);
    WriteSendsPrefix(e1, stderr, data[n..], incoming);
    var (e2, sent, left, written) := WriteLoop(e1, stderr, data[n..], incoming);
    assert data[..n] + data[n..][..written] == data[..n + written];
    AcceptTwice(me.(end := e2, inbox := left + later), stderr, data[..n], data[n..][..written]);
    PostTwice(peer, [msg], sent);
  }

  lemma NoMoves(sys: System)
    ensures Legal(sys, []) && Run(sys, []) == sys
  {
  }

  lemma SendOne(sys: System, byA: bool, stderr: bool, data: seq<byte>)
    requires data != [] && Mover(sys, byA).end.remoteWindow > 0
    requires Mover(sys, byA).end.CanSend() && !Mover(sys, byA).end.localEof
    ensures Possible(Mover(sys, byA), Send(stderr, data)) && Roomy(Mover(sys, byA), Send(stderr, data))
    ensures var me, peer := Mover(sys, byA), Other(sys, byA);
            var n := Chunk(me.end, |data|);
            && n <= |data| && n <= me.end.remoteWindow
            && var (e, msg) := SendChunk(me.end, stderr, data[..n]);
               Apply(sys, Move(byA, Send(stderr, data)))
               == Placed(byA, me.(end := e).Accept(stderr, data[..n]), peer.Post([msg]))
  {
  }

  lemma SendKeepsRoom(e: Endpoint, stderr: bool, payload: seq<byte>, incoming: seq<Msg>)
    requires RoomFor(e, incoming) && |payload| <= e.remoteWindow
    ensures RoomFor(SendChunk(e, stderr, payload).0, incoming)
  {
  }

  lemma {:induction false} RunAppend(sys: System, a: seq<Move>, b: seq<Move>)
    requires Legal(sys, a) && Legal(Run(sys, a), b)
    ensures Legal(sys, a + b) && Run(sys, a + b) == Run(Run(sys, a), b)
    decreases |a|
  {
    hide Act, Possible, Roomy;
    if a == [] {
      assert a + b == b;
    } else {
      assert (a + b)[1..] == a[1..] + b;
      RunAppend(Apply(sys, a[0]), a[1..], b);
    }
  }

  /** The wait of a read is a run of deliveries. */
  lemma {:induction false} WaitIsRun(sys: System, byA: bool, stderr: bool, incoming: seq<Msg>, later: seq<Msg>)
      returns (moves: seq<Move>)
    requires Mover(sys, byA).inbox == incoming + later && RoomFor(Mover(sys, byA).end, incoming)
    ensures Legal(sys, moves)
    ensures var me, peer := Mover(sys, byA), Other(sys, byA);
            var (e, left) := ReadWait(me.end, stderr, incoming);
            Run(sys, moves) == Placed(byA, me.(end := e, inbox := left + later), peer)
    decreases |incoming|
  {
    hide Receive, Roomy, RoomFor, Act, Apply, Run, Legal, Possible;
    var me, peer := Mover(sys, byA), Other(sys, byA);
    if |me.end.Buffered(stderr)| >= 1 || me.end.remoteEof || incoming == [] {
      moves := [];
      NoMoves(sys);
      assert Placed(byA, me, peer) == sys;
    } else {
      DeliverOne(sys, byA, incoming, later);
      var me1 := me.(end := Receive(me.end, incoming[0]), inbox := incoming[1..] + later);
      PlacedBack(byA, me1, peer);
      var rest := WaitIsRun(Placed(byA, me1, peer), byA, stderr, incoming[1..], later);
      OneMove(sys, Move(byA, Deliver), rest);
      moves := [Move(byA, Deliver)] + rest;
    }
  }

  /** A read, with the deliveries it waits for, is a run of the system. */
  lemma ReadIsRun(sys: System, byA: bool, count: nat, stderr: bool, incoming: seq<Msg>, later: seq<Msg>)
      returns (moves: seq<Move>)
    requires Mover(sys, byA).inbox == incoming + later && RoomFor(Mover(sys, byA).end, incoming)
    requires 0 < count < TWO_TO_THE_32
    ensures Legal(sys, moves)
    ensures var me, peer := Mover(sys, byA), Other(sys, byA);
            var (e1, first) := ReadBegin(me.end, count, stderr);
            var (e2, left) := ReadWait(e1, stderr, incoming);
            var (e3, bytes, second) := ReadEnd(e2, count, stderr);
            Run(sys, moves)
            == Placed(byA, me.(end := e3, inbox := left + later).Hand(stderr, bytes), peer.Post(first).Post(second))
  {
    hide Receive, RoomFor, ReadBegin, ReadWait, ReadEnd, Run, Legal;
    var me, peer := Mover(sys, byA), Other(sys, byA);
    var (e1, first) := ReadBegin(me.end, count, stderr);
    BeginKeepsRoom(me.end, count, stderr, incoming);
    var begin, end := Move(byA, Begin(count, stderr)), Move(byA, End(count, stderr));
    var sys1 := Placed(byA, me.(end := e1), peer.Post(first));
    assert Apply(sys, begin) == sys1;
    var waiting := WaitIsRun(sys1, byA, stderr, incoming, later);
    var (e2, left) := ReadWait(e1, stderr, incoming);
    var sys2 := Placed(byA, me.(end := e2, inbox := left + later), peer.Post(first));
    assert Run(sys1, waiting) == sys2;
    NoMoves(Apply(sys2, end));
    OneMove(sys2, end, []);
    assert [end] + [] == [end];
    RunAppend(sys1, waiting, [end]);
    OneMove(sys, begin, waiting + [end]);
    moves := [begin] + (waiting + [end]);
  }

  lemma BeginKeepsRoom(e: Endpoint, count: nat, stderr: bool, incoming: seq<Msg>)
    requires RoomFor(e, incoming)
    ensures RoomFor(ReadBegin(e, count, stderr).0, incoming)
  {
  }

  // ----- progress -----

  /** The same as a writer: what it has accepted, and whether and how it may send. */
  ghost predicate SameWriter(me: Side, me': Side) {
    && me'.acceptedOut == me.acceptedOut && me'.acceptedErr == me.acceptedErr
    && me'.end.localEof == me.end.localEof && me'.end.remoteMaxpacket == me.end.remoteMaxpacket
  }

  /** What reading and taking messages in leaves as it was: the end itself as a writer, and the
      other end but for grants sent to it. */
  ghost predicate Absorbs(me: Side, peer: Side, me': Side, peer': Side) {
    && SameWriter(me, me')
    && peer' == peer.(inbox := peer'.inbox) && DataBytes(peer'.inbox) == DataBytes(peer.inbox)
  }

  /** The run from one state to another by moves of one end that absorb. */
  ghost predicate AbsorbingRun(sys: System, byA: bool, moves: seq<Move>) {
    && Legal(sys, moves) && Inv(Run(sys, moves))
    && Absorbs(Mover(sys, byA), Other(sys, byA), Mover(Run(sys, moves), byA), Other(Run(sys, moves), byA))
  }

  lemma AbsorbTwice(sys: System, byA: bool, a: seq<Move>, b: seq<Move>)
    requires AbsorbingRun(sys, byA, a) && AbsorbingRun(Run(sys, a), byA, b)
    ensures AbsorbingRun(sys, byA, a + b) && Run(sys, a + b) == Run(Run(sys, a), b)
  {
    hide Legal, Run, Inv, DataBytes;
    RunAppend(sys, a, b);
  }

  lemma OneAbsorbs(sys: System, byA: bool, step: Step, me: Side, peer: Side)
    requires Inv(sys) && Possible(Mover(sys, byA), step) && Roomy(Mover(sys, byA), step)
    requires Act(Mover(sys, byA), Other(sys, byA), step) == (me, peer)
    requires Absorbs(Mover(sys, byA), Other(sys, byA), me, peer)
    ensures AbsorbingRun(sys, byA, [Move(byA, step)]) && Run(sys, [Move(byA, step)]) == Placed(byA, me, peer)
  {
    hide Act, Possible, Roomy, Link, Absorbs, Run, Legal;
    var m := Move(byA, step);
    NoMoves(Apply(sys, m));
    OneMove(sys, m, []);
    assert [m] + [] == [m];
    PlacedBack(byA, me, peer);
    RunKeepsInv(sys, [m]);
  }

  /** Reading a stream empties its buffer. */
  lemma ReadStream(sys: System, byA: bool, stderr: bool) returns (moves: seq<Move>)
    requires Inv(sys)
    ensures AbsorbingRun(sys, byA, moves)
    ensures var me, me' := Mover(sys, byA), Mover(Run(sys, moves), byA);
            && me'.inbox == me.inbox && me'.end.Buffered(stderr) == []
            && me'.end.Buffered(!stderr) == me.end.Buffered(!stderr)
  {
    hide DataBytes, Adjusted, Payloads, PacketsInOrder, ReadEnd, Act, AbsorbingRun, Run;
    var me, peer := Mover(sys, byA), Other(sys, byA);
    var buffered := me.end.Buffered(stderr);
    var count := if buffered == [] then 1 else |buffered|;
    EndEffect(me, peer, count, stderr);
    var len := Length(me.end, count, stderr);
    var (e, bytes, msgs) := ReadEnd(me.end, count, stderr);
    PostData(peer, msgs);
    OneAbsorbs(sys, byA, End(count, stderr), Taken(me, stderr, len).(end := e), peer.Post(msgs));
    moves := [Move(byA, End(count, stderr))];
    PlacedBack(byA, Taken(me, stderr, len).(end := e), peer.Post(msgs));
  }

  lemma PostData(peer: Side, msgs: seq<Msg>)
    requires |msgs| <= 1 && (msgs != [] ==> msgs[0].Adjust?)
    ensures DataBytes(peer.Post(msgs).inbox) == DataBytes(peer.inbox)
  {
    hide DataBytes, Adjusted, Payloads;
    SumsAppend(peer.inbox, msgs);
    if msgs == [] {
      assert peer.inbox + msgs == peer.inbox;
    } else {
      assert msgs == [msgs[0]];
      OneMessage(msgs[0]);
    }
  }

  lemma ReadAll(sys: System, byA: bool) returns (moves: seq<Move>)
    requires Inv(sys)
    ensures AbsorbingRun(sys, byA, moves)
    ensures var me, me' := Mover(sys, byA), Mover(Run(sys, moves), byA);
            me'.inbox == me.inbox && me'.end.out == [] && me'.end.err == []
  {
    hide Link, Legal, Run, Absorbs;
    var a := ReadStream(sys, byA, false);
    var b := ReadStream(Run(sys, a), byA, true);
    AbsorbTwice(sys, byA, a, b);
    moves := a + b;
  }

  /** Delivering into empty buffers. */
  lemma DeliverAbsorbs(sys: System, byA: bool)
    requires Inv(sys) && Mover(sys, byA).inbox != []
    requires Mover(sys, byA).end.out == [] && Mover(sys, byA).end.err == []
    ensures AbsorbingRun(sys, byA, [Move(byA, Deliver)])
    ensures Mover(Run(sys, [Move(byA, Deliver)]), byA).inbox == Mover(sys, byA).inbox[1..]
  {
    hide DataBytes, Adjusted, Payloads, PacketsInOrder, AbsorbingRun, Run;
    var me, peer := Mover(sys, byA), Other(sys, byA);
    HeadWithinWindow(me, peer);
    var me1 := me.(end := Receive(me.end, me.inbox[0]), inbox := me.inbox[1..]);
    OneAbsorbs(sys, byA, Deliver, me1, peer);
    PlacedBack(byA, me1, peer);
  }

  /** An end can take in and read everything on its way to it. */
  lemma {:induction false} TakeIn(sys: System, byA: bool) returns (moves: seq<Move>)
    requires Inv(sys)
    ensures AbsorbingRun(sys, byA, moves)
    ensures var me' := Mover(Run(sys, moves), byA);
            me'.inbox == [] && me'.end.out == [] && me'.end.err == []
    decreases |Mover(sys, byA).inbox|
  {
    hide Link, Legal, Run, Absorbs;
    moves := ReadAll(sys, byA);
    var sys1 := Run(sys, moves);
    if Mover(sys1, byA).inbox != [] {
      DeliverAbsorbs(sys1, byA);
      var sys2 := Run(sys1, [Move(byA, Deliver)]);
      AbsorbTwice(sys, byA, moves, [Move(byA, Deliver)]);
      var rest := TakeIn(sys2, byA);
      AbsorbTwice(sys, byA, moves + [Move(byA, Deliver)], rest);
      moves := moves + [Move(byA, Deliver)] + rest;
    }
  }

  /** The reader sees to it that its window is open, with nothing buffered. */
  lemma OpenOwn(sys: System, byA: bool) returns (moves: seq<Move>)
    requires Inv(sys) && Mover(sys, byA).end.out == []
    ensures AbsorbingRun(sys, byA, moves)
    ensures var me' := Mover(Run(sys, moves), byA);
            me'.inbox == Mover(sys, byA).inbox && me'.end.localWindow > 0
  {
    hide DataBytes, Adjusted, Payloads, PacketsInOrder, ReadBegin, AbsorbingRun, Run;
    var me, peer := Mover(sys, byA), Other(sys, byA);
    BeginEffect(me.end, 1, false);
    var (e, msgs) := ReadBegin(me.end, 1, false);
    PostData(peer, msgs);
    OneAbsorbs(sys, byA, Begin(1, false), me.(end := e), peer.Post(msgs));
    moves := [Move(byA, Begin(1, false))];
    PlacedBack(byA, me.(end := e), peer.Post(msgs));
  }

  /** From every state of the invariant the writer's window can be opened: the reader takes in what
      is on its way and grants more, and the writer takes the grants in. */
  lemma OpenWindow(sys: System, byA: bool) returns (moves: seq<Move>)
    requires Inv(sys)
    ensures Legal(sys, moves) && Inv(Run(sys, moves))
    ensures Mover(Run(sys, moves), byA).end.remoteWindow > 0
    ensures SameWriter(Mover(sys, byA), Mover(Run(sys, moves), byA))
    ensures SameWriter(Other(sys, byA), Other(Run(sys, moves), byA))
  {
    hide Link, Legal, Run, DataBytes, Adjusted;
    var a := TakeIn(sys, !byA);
    var sys1 := Run(sys, a);
    var b := OpenOwn(sys1, !byA);
    var sys2 := Run(sys1, b);
    var c := TakeIn(sys2, byA);
    var sys3 := Run(sys2, c);
    RunAppend(sys1, b, c);
    RunAppend(sys, a, b + c);
    moves := a + (b + c);
    NothingUnderway();
    WindowOpen(Mover(sys3, byA), Other(sys3, byA));
  }

  lemma NothingUnderway()
    ensures DataBytes([]) == 0 && Adjusted([]) == 0
  {
  }

  lemma WindowOpen(me: Side, peer: Side)
    requires Link(peer, me) && DataBytes(peer.inbox) == 0 && me.inbox == [] && peer.end.localWindow > 0
    ensures me.end.remoteWindow > 0
  {
    hide DataBytes, Adjusted, StreamIntact, PacketsInOrder;
    NothingUnderway();
  }

  lemma SentSide(sys: System, byA: bool, stderr: bool, payload: seq<byte>)
    requires |payload| <= Mover(sys, byA).end.remoteWindow
    ensures var me := Mover(sys, byA);
            var (e, msg) := SendChunk(me.end, stderr, payload);
            var me' := Mover(Placed(byA, me.(end := e).Accept(stderr, payload), Other(sys, byA).Post([msg])), byA);
            && me'.Accepted(stderr) == me.Accepted(stderr) + payload && me'.Accepted(!stderr) == me.Accepted(!stderr)
            && me'.end.localEof == me.end.localEof && me'.end.remoteMaxpacket == me.end.remoteMaxpacket
  {
  }

  lemma AllRead(me: Side, peer: Side)
    requires Link(me, peer) && me.inbox == [] && me.end.out == [] && me.end.err == []
    ensures me.readOut == peer.acceptedOut && me.readErr == peer.acceptedErr
  {
    hide DataBytes, Adjusted, PacketsInOrder;
    NoDataNoPayload([]);
    assert me.Read(false) + [] + [] == me.readOut && me.Read(true) + [] + [] == me.readErr;
  }

  /** One packet through an open window, and what is left to write. */
  lemma SendSome(sys: System, byA: bool, stderr: bool, data: seq<byte>) returns (n: nat)
    requires Inv(sys) && data != [] && Mover(sys, byA).end.remoteWindow > 0
    requires Mover(sys, byA).end.CanSend() && !Mover(sys, byA).end.localEof
    ensures 1 <= n <= |data|
    ensures var send := Move(byA, Send(stderr, data));
            Legal(sys, [send]) && Inv(Run(sys, [send]))
            && var me, me' := Mover(sys, byA), Mover(Run(sys, [send]), byA);
               && me'.Accepted(stderr) == me.Accepted(stderr) + data[..n]
               && me'.Accepted(!stderr) == me.Accepted(!stderr)
               && me'.end.localEof == me.end.localEof && me'.end.remoteMaxpacket == me.end.remoteMaxpacket
  {
    hide Link, Legal, Run, Act, Possible, Roomy, Chunk, Apply, PayloadLimit;
    SendOne(sys, byA, stderr, data);
    n := Chunk(Mover(sys, byA).end, |data|);
    ChunkBounds(Mover(sys, byA).end, |data|);
    var send := Move(byA, Send(stderr, data));
    SentSide(sys, byA, stderr, data[..n]);
    NoMoves(Apply(sys, send));
    OneMove(sys, send, []);
    assert [send] + [] == [send];
    RunKeepsInv(sys, [send]);
  }

  /** What progress is: the writer has accepted all of the data, and the other end has read
      everything the writer ever accepted, on both streams. */
  predicate Completed(sys: System, sys': System, byA: bool, stderr: bool, data: seq<byte>) {
    var me, me', peer' := Mover(sys, byA), Mover(sys', byA), Other(sys', byA);
    && me'.Accepted(stderr) == me.Accepted(stderr) + data && me'.Accepted(!stderr) == me.Accepted(!stderr)
    && peer'.readOut == me'.acceptedOut && peer'.readErr == me'.acceptedErr
  }

  /** Progress: from every state of the invariant, whatever its windows, buffers and messages on
      their way, there is a legal continuation that completes the write. */
  lemma {:induction false} WriteCompletes(sys: System, byA: bool, stderr: bool, data: seq<byte>)
      returns (moves: seq<Move>)
    requires Inv(sys) && (data == [] || (Mover(sys, byA).end.CanSend() && !Mover(sys, byA).end.localEof))
    ensures Legal(sys, moves) && Inv(Run(sys, moves)) && Completed(sys, Run(sys, moves), byA, stderr, data)
    decreases |data|
  {
    hide Inv, Legal, Run, DataBytes, PayloadLimit, Link;
    if data == [] {
      moves := TakeIn(sys, !byA);
      BothLinks(Run(sys, moves), byA);
      AllRead(Other(Run(sys, moves), byA), Mover(Run(sys, moves), byA));
      assert Mover(sys, byA).Accepted(stderr) + [] == Mover(sys, byA).Accepted(stderr);
    } else {
      var opening := OpenWindow(sys, byA);
      var sys1 := Run(sys, opening);
      var send := [Move(byA, Send(stderr, data))];
      var n := SendSome(sys1, byA, stderr, data);
      var sys2 := Run(sys1, send);
      var rest := WriteCompletes(sys2, byA, stderr, data[n..]);
      RunAppend(sys1, send, rest);
      RunAppend(sys, opening, send + rest);
      moves := opening + (send + rest);
      InTwoParts(Mover(sys, byA).Accepted(stderr), data, n);
    }
  }

  lemma BothLinks(sys: System, byA: bool)
    requires Inv(sys)
    ensures Link(Other(sys, byA), Mover(sys, byA))
  {
    hide Link;
  }

  lemma InTwoParts(before: seq<byte>, data: seq<byte>, n: nat)
    requires n <= |data|
    ensures before + data[..n] + data[n..] == before + data
  {
    assert data[..n] + data[n..] == data;
  }

  /** In particular from every state that any interleaving can reach. */
  lemma ReachableWriteCompletes(windowA: nat, maxpacketA: nat, windowB: nat, maxpacketB: nat, past: seq<Move>,
                                byA: bool, stderr: bool, data: seq<byte>)
      returns (moves: seq<Move>)
    requires windowA < HALF && windowB < HALF && Legal(Opened(windowA, maxpacketA, windowB, maxpacketB), past)
    requires var me := Mover(Run(Opened(windowA, maxpacketA, windowB, maxpacketB), past), byA);
             me.end.CanSend() && !me.end.localEof
    ensures var start := Opened(windowA, maxpacketA, windowB, maxpacketB);
            Legal(start, past + moves)
            && Completed(Run(start, past), Run(start, past + moves), byA, stderr, data)
  {
    hide Link, Legal, Run, PayloadLimit, Completed;
    var start := Opened(windowA, maxpacketA, windowB, maxpacketB);
    OpenedInv(windowA, maxpacketA, windowB, maxpacketB);
    RunKeepsInv(start, past);
    moves := WriteCompletes(Run(start, past), byA, stderr, data);
    RunAppend(start, past, moves);
  }
}
