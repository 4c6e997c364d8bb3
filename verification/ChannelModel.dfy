/** One end of an SSH channel as a value: flow control as in section 5.2 of RFC 4254, with
    libssh's window policy. */
module ChannelModel {
  import opened Bytes
  import opened SshBuffers
  import opened SshPack

  const WINDOW_BASE := 1280000
  const WINDOW_LIMIT := 640000
  const HEADER_ALLOWANCE := 10
  /** INT_MAX + 1: counts and buffered sizes stay below it. */
  const HALF := 0x8000_0000

  /** Channel messages on their way to the other end. */
  datatype Msg = Data(stderr: bool, payload: seq<byte>) | Adjust(bytes: nat) | Eof

  /** What a packet may carry, in unsigned 32-bit arithmetic: a limit below the allowance wraps. */
  function PayloadLimit(maxpacket: nat): nat {
    (maxpacket - HEADER_ALLOWANCE) % TWO_TO_THE_32
  }

  /** Windows and the remote packet limit are unsigned 32-bit numbers; `out` and `err` are the
      bytes received and not yet read. */
  datatype Endpoint = Endpoint(
    localWindow: nat, remoteWindow: nat, remoteMaxpacket: nat,
    out: seq<byte>, err: seq<byte>, localEof: bool, remoteEof: bool)
  {
    function Buffered(stderr: bool): seq<byte> {
      if stderr then err else out
    }

    /** Whether packets carry anything at all: with a limit of exactly the allowance they do not. */
    predicate CanSend() {
      PayloadLimit(remoteMaxpacket) > 0
    }

    function WithBuffered(stderr: bool, s: seq<byte>): Endpoint {
      if stderr then this.(err := s) else this.(out := s)
    }
  }

  // ----- windows -----

  /** grow_window: what to announce so that the window becomes large enough. */
  function Grow(e: Endpoint, minimumSize: int): (Endpoint, seq<Msg>) {
    var newWindow := if minimumSize > WINDOW_BASE then minimumSize else WINDOW_BASE;
    if newWindow <= e.localWindow then (e, [])
    else (e.(localWindow := newWindow), [Adjust(newWindow - e.localWindow)])
  }

  /** The handlers of incoming messages. */
  function Receive(e: Endpoint, msg: Msg): Endpoint {
    match msg
    case Adjust(bytes) => e.(remoteWindow := (e.remoteWindow + bytes) % TWO_TO_THE_32)
    case Data(stderr, payload) =>
      e.WithBuffered(stderr, e.Buffered(stderr) + payload)
       .(localWindow := if |payload| <= e.localWindow then e.localWindow - |payload| else 0)
    case Eof => e.(remoteEof := true)
  }

  // ----- writing -----

  /** The size of the next packet of a write: never zero unless the limit allows no payload. */
  function Chunk(e: Endpoint, len: nat): nat {
    var effective := if e.remoteWindow < len then e.remoteWindow else len;
    Min(effective, PayloadLimit(e.remoteMaxpacket))
  }

  function SendChunk(e: Endpoint, stderr: bool, payload: seq<byte>): (Endpoint, Msg)
    requires |payload| <= e.remoteWindow
  {
    (e.(remoteWindow := e.remoteWindow - |payload|), Data(stderr, payload))
  }

  /** The loop of a write. While the window is closed, the messages that arrive in the meantime
      are handled one by one; if none reopens it, the write gives up. */
  function WriteLoop(e: Endpoint, stderr: bool, data: seq<byte>, incoming: seq<Msg>)
      : (Endpoint, seq<Msg>, seq<Msg>, nat)
    requires e.CanSend()
    decreases |data|, |incoming|
  {
    if data == [] then (e, [], incoming, 0)
    else if e.remoteWindow == 0 then
      if incoming == [] then (e, [], [], 0)
      else WriteLoop(Receive(e, incoming[0]), stderr, data, incoming[1..])
    else
      var n := Chunk(e, |data|);
      var (e1, msg) := SendChunk(e, stderr, data[..n]);
      var (e2, sent, left, written) := WriteLoop(e1, stderr, data[n..], incoming);
      (e2, [msg] + sent, left, n + written)
  }

  // ----- reading -----

  /** Before waiting for data: make room for as much as is asked for. */
  function ReadBegin(e: Endpoint, count: nat, stderr: bool): (Endpoint, seq<Msg>) {
    var rest := |e.Buffered(stderr)|;
    if count > (rest + e.localWindow) % TWO_TO_THE_32 then Grow(e, ToInt32(count - rest)) else (e, [])
  }

  /** Handles messages until a byte can be read, or the end is known. */
  function ReadWait(e: Endpoint, stderr: bool, incoming: seq<Msg>): (Endpoint, seq<Msg>)
    decreases |incoming|
  {
    if |e.Buffered(stderr)| >= 1 || e.remoteEof || incoming == [] then (e, incoming)
    else ReadWait(Receive(e, incoming[0]), stderr, incoming[1..])
  }

  /** Takes what there is, up to the count, and reopens a window that has become small. */
  function ReadEnd(e: Endpoint, count: nat, stderr: bool): (Endpoint, seq<byte>, seq<Msg>) {
    var buffered := e.Buffered(stderr);
    if e.remoteEof && buffered == [] then (e, [], [])
    else
      var len := if |buffered| > count then count else |buffered|;
      var e1 := e.WithBuffered(stderr, buffered[len..]);
      var (e2, sent) := if e1.localWindow < WINDOW_LIMIT then Grow(e1, 0) else (e1, []);
      (e2, buffered[..len], sent)
  }

  function ReceiveAll(e: Endpoint, msgs: seq<Msg>): Endpoint
    decreases |msgs|
  {
    if msgs == [] then e else ReceiveAll(Receive(e, msgs[0]), msgs[1..])
  }

  /** A read waits for the first moment at which a byte is buffered or the end known. */
  lemma {:induction false} WaitsUntilReady(e: Endpoint, stderr: bool, incoming: seq<Msg>)
    ensures var (e', left) := ReadWait(e, stderr, incoming);
            var n := |incoming| - |left|;
            && 0 <= n && left == incoming[n..] && e' == ReceiveAll(e, incoming[..n])
            && (left == [] || e'.Buffered(stderr) != [] || e'.remoteEof)
            && forall k :: 0 <= k < n ==>
                 ReceiveAll(e, incoming[..k]).Buffered(stderr) == [] && !ReceiveAll(e, incoming[..k]).remoteEof
    decreases |incoming|
  {
    hide Receive;
    if |e.Buffered(stderr)| >= 1 || e.remoteEof || incoming == [] {
      assert incoming[..0] == [];
    } else {
      var e1, rest := Receive(e, incoming[0]), incoming[1..];
      WaitsUntilReady(e1, stderr, rest);
      var (e', left) := ReadWait(e1, stderr, rest);
      var n := |rest| - |left|;
      assert incoming[..0] == [];
      forall k | 0 <= k <= n
        ensures ReceiveAll(e, incoming[..k + 1]) == ReceiveAll(e1, rest[..k])
      {
        assert incoming[..k + 1][0] == incoming[0] && incoming[..k + 1][1..] == rest[..k];
      }
      forall k | 0 <= k < n + 1
        ensures ReceiveAll(e, incoming[..k]).Buffered(stderr) == [] && !ReceiveAll(e, incoming[..k]).remoteEof
      {
        if k == 0 {
          assert incoming[..k] == [] && |e.Buffered(stderr)| == 0;
        } else {
          assert incoming[..k] == incoming[..(k - 1) + 1];
          assert ReceiveAll(e, incoming[..(k - 1) + 1]) == ReceiveAll(e1, rest[..k - 1]);
        }
      }
    }
  }

  // ----- what a read does to the window -----

  /** Whether the window was made large enough for a read of so many bytes: a grant is sent exactly
      if it was not, and makes it the larger of what is missing and 1280000. From 2^31 missing bytes
      on the size wanted is taken for a negative number, and only 1280000 is seen to. */
  predicate GrownFor(e: Endpoint, e': Endpoint, sent: seq<Msg>, count: nat, stderr: bool) {
    var missing := count - |e.Buffered(stderr)|;
    && e' == e.(localWindow := e'.localWindow)
    && (sent == [] <==> e.localWindow >= missing || (missing >= 0x8000_0000 && e.localWindow >= 1280000))
    && (sent == [] ==> e'.localWindow == e.localWindow)
    && (sent != [] ==>
          && e'.localWindow == (if missing < 0x8000_0000 then Max(missing, 1280000) else 1280000)
          && sent == [Adjust(e'.localWindow - e.localWindow)])
    && (|e.Buffered(stderr)| + e'.localWindow >= count <==> e.localWindow >= missing || missing < 0x8000_0000)
  }

  /** Counts are unsigned 32-bit numbers, and windows and buffers stay below 2^31. */
  predicate Usual(e: Endpoint, count: nat, stderr: bool) {
    0 < count < 0x1_0000_0000 && e.localWindow < 0x8000_0000 && |e.Buffered(stderr)| < 0x8000_0000
  }

  lemma ReadBeginGrows(e: Endpoint, count: nat, stderr: bool)
    ensures Usual(e, count, stderr) ==>
      GrownFor(e, ReadBegin(e, count, stderr).0, ReadBegin(e, count, stderr).1, count, stderr)
  {
  }

  /** After a read the window is at least 640000, having been made 1280000 if it was smaller; except
      at the end of the stream with nothing left to read, where nothing happens. */
  predicate TakenAndGrown(e: Endpoint, e': Endpoint, bytes: seq<byte>, sent: seq<Msg>, count: nat, stderr: bool) {
    var buffered := e.Buffered(stderr);
    && bytes == buffered[..Min(count, |buffered|)] && e'.Buffered(stderr) == buffered[Min(count, |buffered|)..]
    && (sent == [] <==> (e.remoteEof && buffered == []) || e.localWindow >= 640000)
    && (sent == [] ==> e'.localWindow == e.localWindow)
    && (sent != [] ==> e'.localWindow == 1280000 && sent == [Adjust(1280000 - e.localWindow)])
  }

  lemma ReadEndGrows(e: Endpoint, count: nat, stderr: bool)
    ensures TakenAndGrown(e, ReadEnd(e, count, stderr).0, ReadEnd(e, count, stderr).1, ReadEnd(e, count, stderr).2,
                          count, stderr)
  {
  }

  // ----- what a write does, whatever arrives meanwhile -----

  function Payloads(stderr: bool, msgs: seq<Msg>): seq<byte> {
    if msgs == [] then []
    else (if msgs[0].Data? && msgs[0].stderr == stderr then msgs[0].payload else []) + Payloads(stderr, msgs[1..])
  }

  function DataBytes(msgs: seq<Msg>): nat {
    if msgs == [] then 0 else (if msgs[0].Data? then |msgs[0].payload| else 0) + DataBytes(msgs[1..])
  }

  function Adjusted(msgs: seq<Msg>): nat {
    if msgs == [] then 0 else (if msgs[0].Adjust? then msgs[0].bytes else 0) + Adjusted(msgs[1..])
  }

  lemma {:induction false} SumsAppend(a: seq<Msg>, b: seq<Msg>)
    ensures DataBytes(a + b) == DataBytes(a) + DataBytes(b)
    ensures Adjusted(a + b) == Adjusted(a) + Adjusted(b)
    ensures forall stderr :: Payloads(stderr, a + b) == Payloads(stderr, a) + Payloads(stderr, b)
    decreases |a|
  {
    if a == [] {
      assert a + b == b;
    } else {
      assert (a + b)[1..] == a[1..] + b;
      SumsAppend(a[1..], b);
    }
  }

  /** Payloads that respect the receiver's packet limit. */
  ghost predicate PacketsFit(msgs: seq<Msg>, maxpacket: nat) {
    forall i :: 0 <= i < |msgs| && msgs[i].Data? ==> 1 <= |msgs[i].payload| <= PayloadLimit(maxpacket)
  }

  /** The same in numbers, for a limit that leaves room: ten bytes are kept free. */
  predicate TenBytesFree(msgs: seq<Msg>, maxpacket: nat) {
    10 < maxpacket < 0x1_0000_0000 ==>
      forall i :: 0 <= i < |msgs| && msgs[i].Data? ==> 1 <= |msgs[i].payload| && |msgs[i].payload| + 10 <= maxpacket
  }

  lemma FitLeavesTen(msgs: seq<Msg>, maxpacket: nat)
    requires PacketsFit(msgs, maxpacket)
    ensures TenBytesFree(msgs, maxpacket)
  {
  }

  lemma PacketsFitAppend(a: seq<Msg>, b: seq<Msg>, maxpacket: nat)
    requires PacketsFit(a, maxpacket) && PacketsFit(b, maxpacket)
    ensures PacketsFit(a + b, maxpacket)
  {
  }

  lemma ChunkBounds(e: Endpoint, len: nat)
    requires e.CanSend() && len > 0 && e.remoteWindow > 0
    ensures 1 <= Chunk(e, len) <= len && Chunk(e, len) <= e.remoteWindow
    ensures Chunk(e, len) <= PayloadLimit(e.remoteMaxpacket)
    ensures Chunk(e, len) < len && Chunk(e, len) < e.remoteWindow ==>
      Chunk(e, len) == PayloadLimit(e.remoteMaxpacket)
    ensures 10 < e.remoteMaxpacket < 0x1_0000_0000 ==>
      && Chunk(e, len) + 10 <= e.remoteMaxpacket
      && (Chunk(e, len) < len && Chunk(e, len) < e.remoteWindow ==> Chunk(e, len) + 10 == e.remoteMaxpacket)
    ensures 0 <= e.remoteMaxpacket < 10 ==>
      Chunk(e, len) == Min(len, Min(e.remoteWindow, e.remoteMaxpacket + 0xFFFF_FFF6))
  {
  }

  /** Messages are handled from the front. */
  predicate LeftOver(incoming: seq<Msg>, left: seq<Msg>) {
    |left| <= |incoming| && left == incoming[|incoming| - |left|..]
  }

  lemma OneHandled(incoming: seq<Msg>, left: seq<Msg>)
    ensures LeftOver(incoming, incoming)
    ensures incoming == [] ==> LeftOver(incoming, [])
    ensures incoming != [] && LeftOver(incoming[1..], left) ==> LeftOver(incoming, left)
  {
  }

  /** A write sends exactly the bytes it reports, in order, on its own stream, in packets the
      other end accepts; it stops short only with the window closed and nothing more arriving. */
  lemma {:induction false} WriteSendsPrefix(e: Endpoint, stderr: bool, data: seq<byte>, incoming: seq<Msg>)
    requires e.CanSend()
    ensures var (e', sent, left, written) := WriteLoop(e, stderr, data, incoming);
            && written <= |data| && Payloads(stderr, sent) == data[..written] && Payloads(!stderr, sent) == []
            && Adjusted(sent) == 0 && DataBytes(sent) == written
            && PacketsFit(sent, e.remoteMaxpacket) && e'.remoteMaxpacket == e.remoteMaxpacket
            && TenBytesFree(sent, e.remoteMaxpacket)
            && LeftOver(incoming, left)
            && (written < |data| ==> left == [] && e'.remoteWindow == 0)
    decreases |data|, |incoming|
  {
    hide Payloads, DataBytes, Adjusted, PacketsFit, Receive, Chunk, LeftOver, PayloadLimit, TenBytesFree;
    OneHandled(incoming, []);
    if data == [] {
      NothingSent(e.remoteMaxpacket);
    } else if e.remoteWindow == 0 {
      NothingSent(e.remoteMaxpacket);
      if incoming != [] {
        ReceiveKeepsLimit(e, incoming[0]);
        WriteSendsPrefix(Receive(e, incoming[0]), stderr, data, incoming[1..]);
        OneHandled(incoming, WriteLoop(Receive(e, incoming[0]), stderr, data, incoming[1..]).2);
      }
    } else {
      var n := Chunk(e, |data|);
      ChunkBounds(e, |data|);
      var e1 := SendChunk(e, stderr, data[..n]).0;
      WriteSendsPrefix(e1, stderr, data[n..], incoming);
      var (e2, sent, left, written) := WriteLoop(e1, stderr, data[n..], incoming);
      OneMoreSent(stderr, data, n, sent, written, e.remoteMaxpacket);
    }
  }

  lemma NothingSent(maxpacket: nat)
    ensures Payloads(true, []) == [] && Payloads(false, []) == [] && DataBytes([]) == 0 && Adjusted([]) == 0
    ensures PacketsFit([], maxpacket) && TenBytesFree([], maxpacket)
  {
  }

  lemma ReceiveKeepsLimit(e: Endpoint, msg: Msg)
    ensures Receive(e, msg).remoteMaxpacket == e.remoteMaxpacket
  {
  }

  lemma OneMoreSent(stderr: bool, data: seq<byte>, n: nat, sent: seq<Msg>, written: nat, maxpacket: nat)
    requires 1 <= n <= |data| && n <= PayloadLimit(maxpacket) && written <= |data| - n
    requires Payloads(stderr, sent) == data[n..][..written] && Payloads(!stderr, sent) == []
    requires PacketsFit(sent, maxpacket)
    ensures var all := [Data(stderr, data[..n])] + sent;
            && Payloads(stderr, all) == data[..n + written] && Payloads(!stderr, all) == []
            && DataBytes(all) == n + DataBytes(sent) && Adjusted(all) == Adjusted(sent) && PacketsFit(all, maxpacket)
            && TenBytesFree(all, maxpacket)
  {
    var msg := Data(stderr, data[..n]);
    var all := [msg] + sent;
    assert all[1..] == sent;
    assert data[..n] + data[n..][..written] == data[..n + written];
    PacketsFitAppend([msg], sent, maxpacket);
    FitLeavesTen(all, maxpacket);
  }

  /** Through an open window a write sends at once, as much as data, window and limit allow. */
  lemma FirstPacket(e: Endpoint, stderr: bool, data: seq<byte>, incoming: seq<Msg>)
    requires 10 < e.remoteMaxpacket < 0x1_0000_0000 && data != [] && e.remoteWindow > 0
    ensures WriteLoop(e, stderr, data, incoming).1 != []
    ensures WriteLoop(e, stderr, data, incoming).1[0]
         == Data(stderr, data[..Min(|data|, Min(e.remoteWindow, e.remoteMaxpacket - 10))])
  {
    hide Chunk;
    ChunkBounds(e, |data|);
    ChunkIs(e, |data|);
  }

  lemma ChunkIs(e: Endpoint, len: nat)
    requires 10 < e.remoteMaxpacket < 0x1_0000_0000
    ensures Chunk(e, len) == Min(len, Min(e.remoteWindow, e.remoteMaxpacket - 10))
  {
  }

  /** Through a closed one it sends nothing before it has handled a message. */
  lemma ClosedWindow(e: Endpoint, stderr: bool, data: seq<byte>, incoming: seq<Msg>)
    requires e.CanSend() && data != [] && e.remoteWindow == 0
    ensures incoming == [] ==> WriteLoop(e, stderr, data, incoming) == (e, [], [], 0)
    ensures incoming != [] ==>
      WriteLoop(e, stderr, data, incoming) == WriteLoop(Receive(e, incoming[0]), stderr, data, incoming[1..])
  {
    hide Receive, Chunk, PayloadLimit;
  }

  /** With a window for all of it, a write waits for nothing, and every packet but the last is as
      large as the limit allows. */
  lemma {:induction false} FullPackets(e: Endpoint, stderr: bool, data: seq<byte>, incoming: seq<Msg>)
    requires 10 < e.remoteMaxpacket < 0x1_0000_0000 && |data| <= e.remoteWindow
    ensures var (e', sent, left, written) := WriteLoop(e, stderr, data, incoming);
            && left == incoming && written == |data| && e' == e.(remoteWindow := e.remoteWindow - |data|)
            && forall i :: 0 <= i < |sent| ==>
                 && sent[i].Data? && sent[i].stderr == stderr
                 && (i < |sent| - 1 ==> |sent[i].payload| + 10 == e.remoteMaxpacket)
    decreases |data|
  {
    hide Chunk;
    if data != [] {
      var n := Chunk(e, |data|);
      ChunkBounds(e, |data|);
      FullPackets(SendChunk(e, stderr, data[..n]).0, stderr, data[n..], incoming);
      NoPackets(SendChunk(e, stderr, data[..n]).0, stderr, data[n..], incoming);
    }
  }

  lemma NoPackets(e: Endpoint, stderr: bool, data: seq<byte>, incoming: seq<Msg>)
    requires e.CanSend() && |data| <= e.remoteWindow
    ensures data == [] ==> WriteLoop(e, stderr, data, incoming).1 == []
  {
  }

  // ----- messages on the wire -----

  const MSG_DATA := 94
  const MSG_EXTENDED_DATA := 95
  const STDERR_CODE := 1

  /** The fields of a data packet in the order channel_write_common packs them. */
  function WireItems(msg: Msg, channel: nat): seq<Item>
    requires msg.Data?
  {
    [Byte(if msg.stderr then MSG_EXTENDED_DATA else MSG_DATA), Dword(channel)]
    + (if msg.stderr then [Dword(STDERR_CODE)] else [])
    + [Dword(|msg.payload|), Raw(msg.payload)]
  }

  /** The letters by which the receiver takes the packet apart: type, channel, the ignored code
      of extended data, and the data as one string. */
  function WireLetters(stderr: bool): seq<Letter> {
    if stderr then [B, D, D, S] else [B, D, S]
  }

  /** The fields as the receiver sees them: the payload is one string. */
  function Received(msg: Msg, channel: nat): seq<Item>
    requires msg.Data?
  {
    [Byte(if msg.stderr then MSG_EXTENDED_DATA else MSG_DATA), Dword(channel)]
    + (if msg.stderr then [Dword(STDERR_CODE)] else [])
    + [SshString(msg.payload)]
  }

  /** The bytes of a data packet: its type, the channel, the code of stderr if it is for that, and the
      data behind its length (sections 5.2 of RFC 4254 and 5 of RFC 4251). */
  lemma WireBytes(msg: Msg, channel: nat)
    requires msg.Data?
    ensures EncodeAll(WireItems(msg, channel))
         == (if msg.stderr then [95] else [94]) + BigEndian(4, channel)
            + (if msg.stderr then BigEndian(4, 1) else []) + BigEndian(4, |msg.payload|) + msg.payload
  {
    hide BigEndian;
    var items := WireItems(msg, channel);
    OneByte(if msg.stderr then 95 else 94);
    if msg.stderr {
      assert items == [Byte(95), Dword(channel), Dword(1), Dword(|msg.payload|), Raw(msg.payload)];
      FiveItems(items[0], items[1], items[2], items[3], items[4]);
    } else {
      assert items == [Byte(94), Dword(channel), Dword(|msg.payload|), Raw(msg.payload)];
      FourItems(items[0], items[1], items[2], items[3]);
    }
  }

  lemma OneByte(n: byte)
    ensures BigEndian(1, n) == [n]
  {
    assert BigEndian(0, n / 256) == [];
  }

  lemma FourItems(a: Item, b: Item, c: Item, d: Item)
    ensures EncodeAll([a, b, c, d]) == Encode(a) + Encode(b) + Encode(c) + Encode(d)
  {
    hide Encode;
    assert [a, b, c, d][1..] == [b, c, d] && [b, c, d][1..] == [c, d] && [c, d][1..] == [d] && [d][1..] == [];
    assert EncodeAll([d]) == Encode(d) + EncodeAll([]) == Encode(d);
    assert EncodeAll([c, d]) == Encode(c) + EncodeAll([d]);
    assert EncodeAll([b, c, d]) == Encode(b) + EncodeAll([c, d]);
  }

  lemma FiveItems(a: Item, b: Item, c: Item, d: Item, e: Item)
    ensures EncodeAll([a, b, c, d, e]) == Encode(a) + Encode(b) + Encode(c) + Encode(d) + Encode(e)
  {
    hide Encode;
    assert [a, b, c, d, e][1..] == [b, c, d, e];
    FourItems(b, c, d, e);
  }

  /** What was packed as a length and raw bytes is received as a string with the same payload. */
  lemma WireRoundTrip(msg: Msg, channel: nat)
    requires msg.Data? && |msg.payload| <= MAX_STRING && channel < TWO_TO_THE_32
    ensures var items := Received(msg, channel);
            DecodeAll(WireLetters(msg.stderr), EncodeAll(WireItems(msg, channel))) == (Some(items), [])
  {
    hide BigEndian, FromBigEndian, DecodeAll, Decode;
    var received := Received(msg, channel);
    UnpackPacked(received, []);
    assert Format(received) == WireLetters(msg.stderr);
    var front := received[..|received| - 1];
    assert WireItems(msg, channel) == front + [Dword(|msg.payload|), Raw(msg.payload)];
    assert received == front + [SshString(msg.payload)];
    EncodeAppend(front, [Dword(|msg.payload|), Raw(msg.payload)]);
    EncodeAppend(front, [SshString(msg.payload)]);
    SameEncoding(msg.payload);
    assert EncodeAll(received) + [] == EncodeAll(received);
  }

  lemma SameEncoding(payload: seq<byte>)
    ensures EncodeAll([Dword(|payload|), Raw(payload)]) == EncodeAll([SshString(payload)])
  {
    hide BigEndian;
    assert [Dword(|payload|), Raw(payload)][1..] == [Raw(payload)];
    assert EncodeAll([Raw(payload)]) == payload + [];
    assert EncodeAll([SshString(payload)]) == BigEndian(4, |payload|) + payload + [];
  }
}
