/** A channel as libssh keeps it, its fields updated in place and its buffers growable. Packets
    sent are returned; packets that arrive while a call waits are given to it. */
module Channels {
  import opened Bytes
  import opened SshBuffers
  import opened ChannelModel
  import opened ChannelProtocol

  class Channel {
    var localWindow: nat
    var remoteWindow: nat
    var remoteMaxpacket: nat
    const stdoutBuffer: SshBuffer
    const stderrBuffer: SshBuffer
    var localEof: bool
    var remoteEof: bool

    ghost predicate Valid()
      reads this, stdoutBuffer, stderrBuffer
    {
      && stdoutBuffer != stderrBuffer && stdoutBuffer.data != stderrBuffer.data
      && stdoutBuffer.Valid() && stderrBuffer.Valid()
    }

    /** Both buffers know the true size of their arrays. */
    ghost predicate Measured()
      reads this, stdoutBuffer, stderrBuffer
    {
      stdoutBuffer.Exact() && stderrBuffer.Exact()
    }

    /** The arrays are the old ones or newly allocated, so that calls can follow one another. */
    twostate predicate OwnsArrays()
      reads this, stdoutBuffer, stderrBuffer
    {
      && (stdoutBuffer.data == old(stdoutBuffer.data) || fresh(stdoutBuffer.data))
      && (stderrBuffer.data == old(stderrBuffer.data) || fresh(stderrBuffer.data))
    }

    function Buffer(stderr: bool): SshBuffer {
      if stderr then stderrBuffer else stdoutBuffer
    }

    ghost function Value(): Endpoint
      requires Valid()
      reads this, stdoutBuffer, stderrBuffer, stdoutBuffer.data, stderrBuffer.data
    {
      Endpoint(localWindow, remoteWindow, remoteMaxpacket,
               stdoutBuffer.Queue(), stderrBuffer.Queue(), localEof, remoteEof)
    }

    constructor (localWindow: nat, remoteWindow: nat, remoteMaxpacket: nat)
      ensures Valid() && Measured()
      ensures Value() == Endpoint(localWindow, remoteWindow, remoteMaxpacket, [], [], false, false)
      ensures fresh(stdoutBuffer) && fresh(stderrBuffer) && fresh(stdoutBuffer.data) && fresh(stderrBuffer.data)
    {
      this.localWindow, this.remoteWindow, this.remoteMaxpacket := localWindow, remoteWindow, remoteMaxpacket;
      var outBuffer := new SshBuffer();
      var errBuffer := new SshBuffer();
      stdoutBuffer, stderrBuffer := outBuffer, errBuffer;
      localEof, remoteEof := false, false;
    }

    /** grow_window. */
    method GrowWindow(minimumSize: int) returns (sent: seq<Msg>)
      requires Valid()
      modifies this`localWindow
      ensures Valid() && (Value(), sent) == Grow(old(Value()), minimumSize)
    {
      var newWindow := if minimumSize > WINDOW_BASE then minimumSize else WINDOW_BASE;
      if newWindow <= localWindow {
        return [];
      }
      sent := [Adjust(newWindow - localWindow)];
      localWindow := newWindow;
    }

    /** channel_rcv_change_window. */
    method RcvChangeWindow(bytes: nat)
      requires Valid()
      modifies this`remoteWindow
      ensures Valid() && Value() == Receive(old(Value()), Adjust(bytes))
      ensures remoteWindow == (old(remoteWindow) + bytes) % 0x1_0000_0000
    {
      remoteWindow := (remoteWindow + bytes) % TWO_TO_THE_32;
    }

    /** channel_rcv_data, with channel_default_bufferize, for data that the buffer takes. */
    method RcvData(stderr: bool, payload: seq<byte>)
      requires Valid() && Buffer(stderr).used + |payload| < TWO_TO_THE_32
      modifies this`localWindow, Buffer(stderr), Buffer(stderr).data
      ensures Valid() && OwnsArrays() && Value() == Receive(old(Value()), Data(stderr, payload))
      ensures Value().Buffered(stderr) == old(Value()).Buffered(stderr) + payload
      ensures Value().Buffered(!stderr) == old(Value()).Buffered(!stderr)
      ensures localWindow == Max(0, old(localWindow) - |payload|)
      ensures old(Measured()) && |old(Value()).Buffered(stderr)| + |payload| < HALF ==> Measured()
    {
      hide SshBuffer.Valid, SshBuffer.Queue, SshBuffer.Exact;
      if !stderr {
        var _ := stdoutBuffer.AddData(payload);
      } else {
        var _ := stderrBuffer.AddData(payload);
      }
      if |payload| <= localWindow {
        localWindow := localWindow - |payload|;
      } else {
        localWindow := 0;
      }
    }

    /** A buffer that knows its size takes whatever leaves less than 2^31 bytes unread. */
    lemma TakesData(stderr: bool, n: nat)
      requires Valid() && Measured() && |Value().Buffered(stderr)| + n < HALF
      ensures Buffer(stderr).used + n < TWO_TO_THE_32
    {
      Buffer(stderr).HalfUsed();
    }

    /** channel_rcv_eof. */
    method RcvEof()
      requires Valid()
      modifies this`remoteEof
      ensures Valid() && Value() == Receive(old(Value()), Eof)
    {
      remoteEof := true;
    }

    /** The handler for whichever message it is, for data that the buffer takes. */
    method Handle(msg: Msg)
      requires Valid() && (msg.Data? ==> Buffer(msg.stderr).used + |msg.payload| < TWO_TO_THE_32)
      modifies this`localWindow, this`remoteWindow, this`remoteEof
      modifies stdoutBuffer, stderrBuffer, stdoutBuffer.data, stderrBuffer.data
      ensures Valid() && OwnsArrays() && Value() == Receive(old(Value()), msg)
      ensures old(Measured()) && old(RoomFor(Value(), [msg])) ==> Measured()
    {
      hide SshBuffer.Valid, SshBuffer.Queue, SshBuffer.Exact, Receive;
      OneMessage(msg);
      match msg {
        case Adjust(bytes) => RcvChangeWindow(bytes);
        case Data(stderr, payload) => RcvData(stderr, payload);
        case Eof => RcvEof();
      }
    }

    /** A message there is room for is taken. */
    lemma TakesMessage(msg: Msg)
      requires Valid() && Measured() && RoomFor(Value(), [msg])
      ensures msg.Data? ==> Buffer(msg.stderr).used + |msg.payload| < TWO_TO_THE_32
    {
      hide SshBuffer.Valid, SshBuffer.Queue, SshBuffer.Exact;
      OneMessage(msg);
      if msg.Data? {
        TakesData(msg.stderr, |msg.payload|);
      }
    }

    /** channel_write_common: blocks while the window is closed. */
    method WriteCommon(stderr: bool, data: seq<byte>, incoming: seq<Msg>)
        returns (r: int, sent: seq<Msg>, left: seq<Msg>)
      requires Valid() && Measured() && Value().CanSend() && RoomFor(Value(), incoming)
      modifies this`localWindow, this`remoteWindow, this`remoteEof
      modifies stdoutBuffer, stderrBuffer, stdoutBuffer.data, stderrBuffer.data
      ensures Valid() && Measured() && OwnsArrays()
      ensures |data| >= 0x8000_0000 || old(localEof) ==>
        r == -1 && sent == [] && left == incoming && Value() == old(Value())
      ensures |data| < HALF && !old(localEof) ==>
        (Value(), sent, left, r) == WriteLoop(old(Value()), stderr, data, incoming)
      ensures TenBytesFree(sent, remoteMaxpacket) && remoteMaxpacket == old(remoteMaxpacket)
    {
      assert Value().CanSend();
      WriteSendsPrefix(Value(), stderr, data, incoming);
      NothingSent(remoteMaxpacket);
      assert Value().remoteMaxpacket == remoteMaxpacket;
      hide SshBuffer.Valid, SshBuffer.Queue, SshBuffer.Exact, Receive, Chunk, TenBytesFree, PacketsFit, Payloads;
      hide RoomFor, WriteLoop, Valid, Measured, Value;
      if |data| >= HALF {
        return -1, [], incoming;
      }
      if localEof {
        return -1, [], incoming;
      }
      r, sent, left := WriteAll(stderr, data, incoming);
    }

    /** The loop of a write. */
    method WriteAll(stderr: bool, data: seq<byte>, incoming: seq<Msg>)
        returns (r: nat, sent: seq<Msg>, left: seq<Msg>)
      requires Valid() && Measured() && Value().CanSend() && RoomFor(Value(), incoming)
      modifies this`localWindow, this`remoteWindow, this`remoteEof
      modifies stdoutBuffer, stderrBuffer, stdoutBuffer.data, stderrBuffer.data
      ensures Valid() && Measured() && OwnsArrays()
      ensures (Value(), sent, left, r) == WriteLoop(old(Value()), stderr, data, incoming)
    {
      hide SshBuffer.Valid, SshBuffer.Queue, SshBuffer.Exact, Receive, Chunk, RoomFor;
      hide WriteLoop, Valid, Measured, Value, Later;
      sent, left := [], incoming;
      var rest := data;
      ghost var all := WriteLoop(Value(), stderr, data, incoming);
      NothingBefore(all);
      while rest != []
        invariant Valid() && Measured() && OwnsArrays() && RoomFor(Value(), left)
        invariant Value().CanSend() && |rest| <= |data|
        invariant all == Later(sent, |data| - |rest|, WriteLoop(Value(), stderr, rest, left))
        decreases |rest|, |left|
      {
        var closed := WindowClosed();
        if closed {
          WriteWaits(Value(), stderr, rest, left);
          if left == [] {
            NothingAfter(sent, |data| - |rest|, Value(), left);
            return |data| - |rest|, sent, left;
          }
          RoomForHead(Value(), left);
          TakesMessage(left[0]);
          Handle(left[0]);
          left := left[1..];
        } else {
          WriteSends(Value(), stderr, rest, left, sent, |data| - |rest|);
          var msg := SendPacket(stderr, rest, left);
          sent := sent + [msg];
          rest := rest[|msg.payload|..];
        }
      }
      WriteDone(Value(), stderr, left);
      NothingAfter(sent, |data|, Value(), left);
      return |data|, sent, left;
    }

    method WindowClosed() returns (closed: bool)
      requires Valid()
      ensures closed <==> Value().remoteWindow == 0
    {
      closed := remoteWindow == 0;
    }

    /** One packet of a write. */
    method SendPacket(stderr: bool, rest: seq<byte>, ghost left: seq<Msg>) returns (msg: Msg)
      requires Valid() && Value().CanSend() && rest != [] && Value().remoteWindow > 0
      modifies this`remoteWindow
      ensures Measured() == old(Measured())
      ensures Valid() && msg == Data(stderr, rest[..Chunk(old(Value()), |rest|)])
      ensures 1 <= |msg.payload| <= |rest| && |msg.payload| <= old(Value()).remoteWindow
      ensures Value() == SendChunk(old(Value()), stderr, msg.payload).0
      ensures old(RoomFor(Value(), left)) ==> RoomFor(Value(), left)
    {
      hide SshBuffer.Valid, SshBuffer.Queue, SshBuffer.Exact;
      ChunkBounds(Value(), |rest|);
      var effectivelen := if remoteWindow < |rest| then remoteWindow else |rest|;
      effectivelen := Min(effectivelen, PayloadLimit(remoteMaxpacket));
      msg := Data(stderr, rest[..effectivelen]);
      remoteWindow := remoteWindow - effectivelen;
    }

    /** ssh_channel_read_timeout: blocks until a byte can be read or the end is known. */
    method ReadTimeout(count: nat, stderr: bool, incoming: seq<Msg>)
        returns (bytes: seq<byte>, sent: seq<Msg>, left: seq<Msg>)
      requires Valid() && Measured() && count < TWO_TO_THE_32 && RoomFor(Value(), incoming)
      modifies this`localWindow, this`remoteWindow, this`remoteEof
      modifies stdoutBuffer, stderrBuffer, stdoutBuffer.data, stderrBuffer.data
      ensures Valid() && Measured() && OwnsArrays()
      ensures count == 0 ==> bytes == [] && sent == [] && left == incoming && Value() == old(Value())
      ensures count > 0 ==>
        var (e1, first) := ReadBegin(old(Value()), count, stderr);
        var (e2, left') := ReadWait(e1, stderr, incoming);
        var (e3, bytes', second) := ReadEnd(e2, count, stderr);
        Value() == e3 && bytes == bytes' && sent == first + second && left == left'
    {
      hide SshBuffer.Valid, SshBuffer.Queue, SshBuffer.Exact, Receive, RoomFor, Valid, Measured, Value;
      hide ReadBegin, ReadWait, ReadEnd;
      if count == 0 {
        return [], [], incoming;
      }
      BeginKeepsRoom(Value(), count, stderr, incoming);
      var first := StartRead(count, stderr);
      left := incoming;
      ghost var waited := ReadWait(Value(), stderr, left);
      var ready := Ready(stderr);
      while !ready && left != []
        invariant Valid() && Measured() && OwnsArrays() && RoomFor(Value(), left)
        invariant waited == ReadWait(Value(), stderr, left)
        invariant ready <==> |Value().Buffered(stderr)| >= 1 || Value().remoteEof
        decreases |left|
      {
        WaitsOn(Value(), stderr, left);
        RoomForHead(Value(), left);
        TakesMessage(left[0]);
        Handle(left[0]);
        left := left[1..];
        ready := Ready(stderr);
      }
      WaitEnds(Value(), stderr, left);
      var second;
      bytes, second := FinishRead(count, stderr);
      sent := first + second;
    }

    method StartRead(count: nat, stderr: bool) returns (sent: seq<Msg>)
      requires Valid()
      modifies this`localWindow
      ensures Measured() == old(Measured())
      ensures Valid() && (Value(), sent) == ReadBegin(old(Value()), count, stderr)
      ensures Usual(old(Value()), count, stderr) ==> GrownFor(old(Value()), Value(), sent, count, stderr)
    {
      hide SshBuffer.Valid, SshBuffer.Queue, SshBuffer.Exact, Grow, GrownFor, Usual;
      ReadBeginGrows(Value(), count, stderr);
      var stdbuf := if stderr then stderrBuffer else stdoutBuffer;
      var rest := stdbuf.RestLen();
      sent := [];
      if count > (rest + localWindow) % TWO_TO_THE_32 {
        sent := GrowWindow(ToInt32(count - rest));
      }
    }

    /** ssh_channel_read_termination for one byte. */
    method Ready(stderr: bool) returns (ready: bool)
      requires Valid()
      ensures ready <==> |Value().Buffered(stderr)| >= 1 || Value().remoteEof
    {
      hide SshBuffer.Valid, SshBuffer.Queue, SshBuffer.Exact;
      var stdbuf := if stderr then stderrBuffer else stdoutBuffer;
      var rest := stdbuf.RestLen();
      ready := rest >= 1 || remoteEof;
    }

    /** Takes the first bytes out of a buffer, at most `count` of them. */
    method TakeBuffered(count: nat, stderr: bool) returns (bytes: seq<byte>)
      requires Valid() && count < TWO_TO_THE_32
      modifies stdoutBuffer, stderrBuffer
      ensures old(Measured()) ==> Measured()
      ensures stdoutBuffer.data == old(stdoutBuffer.data) && stderrBuffer.data == old(stderrBuffer.data)
      ensures var buffered := old(Value()).Buffered(stderr);
              var len := if |buffered| > count then count else |buffered|;
              && Valid() && bytes == buffered[..len]
              && Value() == old(Value()).WithBuffered(stderr, buffered[len..])
    {
      hide SshBuffer.Valid, SshBuffer.Queue, SshBuffer.Exact;
      var stdbuf := if stderr then stderrBuffer else stdoutBuffer;
      var len := stdbuf.RestLen();
      len := if len > count then count else len;
      bytes := stdbuf.Rest(len);
      var _ := stdbuf.PassBytes(len);
    }

    method FinishRead(count: nat, stderr: bool) returns (bytes: seq<byte>, sent: seq<Msg>)
      requires Valid() && count < TWO_TO_THE_32
      modifies this`localWindow, stdoutBuffer, stderrBuffer
      ensures old(Measured()) ==> Measured()
      ensures stdoutBuffer.data == old(stdoutBuffer.data) && stderrBuffer.data == old(stderrBuffer.data)
      ensures Valid() && (Value(), bytes, sent) == ReadEnd(old(Value()), count, stderr)
    {
      hide SshBuffer.Valid, SshBuffer.Queue, SshBuffer.Exact, Grow;
      var stdbuf := if stderr then stderrBuffer else stdoutBuffer;
      var len := stdbuf.RestLen();
      if remoteEof && len == 0 {
        return [], [];
      }
      bytes := TakeBuffered(count, stderr);
      sent := [];
      if localWindow < WINDOW_LIMIT {
        sent := GrowWindow(0);
      }
    }

    /** ssh_channel_send_eof. */
    method SendEof() returns (sent: seq<Msg>)
      requires Valid()
      modifies this`localEof
      ensures Valid() && sent == [Eof] && Value() == old(Value()).(localEof := true)
    {
      sent := [Eof];
      localEof := true;
    }
  }

  // ----- loops unfolded -----

  type Outcome = (Endpoint, seq<Msg>, seq<Msg>, nat)

  /** The outcome of a write that has sent some packets already. */
  function Later(sent: seq<Msg>, written: nat, o: Outcome): Outcome {
    (o.0, sent + o.1, o.2, written + o.3)
  }

  lemma NothingBefore(o: Outcome)
    ensures o == Later([], 0, o)
  {
    assert [] + o.1 == o.1;
  }

  lemma NothingAfter(sent: seq<Msg>, written: nat, e: Endpoint, left: seq<Msg>)
    ensures Later(sent, written, (e, [], left, 0)) == (e, sent, left, written)
  {
    assert sent + [] == sent;
  }

  lemma WriteDone(e: Endpoint, stderr: bool, left: seq<Msg>)
    requires e.CanSend()
    ensures WriteLoop(e, stderr, [], left) == (e, [], left, 0)
  {
  }

  lemma WriteWaits(e: Endpoint, stderr: bool, rest: seq<byte>, left: seq<Msg>)
    requires e.CanSend() && rest != [] && e.remoteWindow == 0
    ensures left == [] ==> WriteLoop(e, stderr, rest, left) == (e, [], [], 0)
    ensures left != [] ==> Receive(e, left[0]).remoteMaxpacket == e.remoteMaxpacket
    ensures left != [] ==> WriteLoop(e, stderr, rest, left) == WriteLoop(Receive(e, left[0]), stderr, rest, left[1..])
  {
  }

  lemma WriteSends(e: Endpoint, stderr: bool, rest: seq<byte>, left: seq<Msg>, sent: seq<Msg>, written: nat)
    requires e.CanSend() && rest != [] && e.remoteWindow > 0
    ensures var n := Chunk(e, |rest|);
            && 1 <= n <= |rest| && n <= e.remoteWindow
            && var (e1, msg) := SendChunk(e, stderr, rest[..n]);
               Later(sent, written, WriteLoop(e, stderr, rest, left))
               == Later(sent + [msg], written + n, WriteLoop(e1, stderr, rest[n..], left))
  {
    var n := Chunk(e, |rest|);
    var (e1, msg) := SendChunk(e, stderr, rest[..n]);
    var o := WriteLoop(e1, stderr, rest[n..], left);
    assert sent + ([msg] + o.1) == sent + [msg] + o.1;
  }

  lemma RoomForHead(e: Endpoint, msgs: seq<Msg>)
    requires msgs != [] && RoomFor(e, msgs)
    ensures RoomFor(e, [msgs[0]]) && RoomFor(Receive(e, msgs[0]), msgs[1..])
  {
    OneMessage(msgs[0]);
  }

  lemma WaitsOn(e: Endpoint, stderr: bool, left: seq<Msg>)
    requires left != [] && |e.Buffered(stderr)| < 1 && !e.remoteEof
    ensures ReadWait(e, stderr, left) == ReadWait(Receive(e, left[0]), stderr, left[1..])
  {
  }

  lemma WaitEnds(e: Endpoint, stderr: bool, left: seq<Msg>)
    requires |e.Buffered(stderr)| >= 1 || e.remoteEof || left == []
    ensures ReadWait(e, stderr, left) == (e, left)
  {
  }
}
