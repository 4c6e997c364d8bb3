/** Input streams as byte strings with a cursor, and the adaptors built on them.
    `Source` stands for any InputStream: an adaptor is proved against every pattern of short
    reads a source may show, and meets the same contract itself, so adaptors may be stacked. */
module Streams {
  import opened Bytes

  /** The contract of InputStream::read: the bytes at the cursor, at most `size` of them,
      none only at the end or when none are asked for. */
  ghost predicate Delivers(data: seq<byte>, before: nat, size: nat, out: seq<byte>, after: nat) {
    && before <= after <= |data| && after == before + |out|
    && out == data[before..after]
    && |out| <= size
    && (size > 0 && before < |data| ==> out != [])
  }

  /** A read that is short only at the end of the stream. */
  ghost predicate DeliversFully(data: seq<byte>, before: nat, size: nat, out: seq<byte>, after: nat) {
    && before <= |data|
    && after == before + Min(size, |data| - before)
    && out == data[before..after]
  }

  lemma SliceSnoc(data: seq<byte>, a: nat, b: nat, c: nat)
    requires a <= b <= c <= |data|
    ensures data[a..b] + data[b..c] == data[a..c]
  {
  }

  /** What a reader learns from a full read: the bytes so far grow by what was delivered. */
  lemma Delivered(data: seq<byte>, before: nat, size: nat, out: seq<byte>, after: nat)
    requires DeliversFully(data, before, size, out, after) && size > 0
    ensures before <= after <= |data| && data[..after] == data[..before] + out
    ensures out == [] <==> before == |data|
    ensures out != [] ==> after > before
  {
  }

  lemma SliceSlice(data: seq<byte>, a: nat, b: nat, c: nat, d: nat)
    requires a <= b <= |data| && c <= d <= b - a
    ensures data[a..b][c..d] == data[a + c..a + d]
  {
    var x, y := data[a..b][c..d], data[a + c..a + d];
    assert forall k :: 0 <= k < |x| ==> x[k] == data[a..b][c + k] == data[a + c + k] == y[k];
    assert x == y;
  }

  class Source {
    const data: seq<byte>
    /** Whether reads are short only at the end. */
    const eager: bool
    var pos: nat

    ghost predicate Valid()
      reads this
    {
      pos <= |data|
    }

    constructor (data: seq<byte>, eager: bool)
      ensures Valid() && pos == 0 && this.data == data && this.eager == eager
    {
      this.data, this.eager := data, eager;
      pos := 0;
    }

    method Read(size: nat) returns (out: seq<byte>)
      requires Valid()
      modifies this`pos
      ensures Valid() && Delivers(data, old(pos), size, out, pos)
      ensures eager ==> DeliversFully(data, old(pos), size, out, pos)
    {
      var n := Min(size, |data| - pos);
      if !eager && n > 0 {
        n :| 1 <= n <= Min(size, |data| - pos);
      }
      out := data[pos..pos + n];
      pos := pos + n;
    }

    /** InputStream::skip: reads and discards in pieces of at most 8192 bytes. */
    method Skip(n: nat) returns (skipped: nat)
      requires Valid()
      modifies this`pos
      ensures Valid() && pos == Min(old(pos) + n, |data|) && skipped == pos - old(pos)
    {
      skipped := 0;
      while skipped < n
        invariant Valid() && skipped <= n && pos == old(pos) + skipped
        decreases n - skipped
      {
        var out := Read(Min(n - skipped, 8192));
        if out == [] {
          break;
        }
        skipped := skipped + |out|;
      }
    }

    method Rewind()
      modifies this`pos
      ensures Valid() && pos == 0
    {
      pos := 0;
    }
  }

  /** A stream over a caller's buffer. */
  class MemoryInputStream {
    const buffer: seq<byte>
    var next: nat

    ghost predicate Valid()
      reads this
    {
      next <= |buffer|
    }

    constructor (buffer: seq<byte>)
      ensures Valid() && next == 0 && this.buffer == buffer
    {
      this.buffer := buffer;
      next := 0;
    }

    method Read(size: nat) returns (out: seq<byte>)
      requires Valid()
      modifies this`next
      ensures Valid() && DeliversFully(buffer, old(next), size, out, next)
    {
      if next >= |buffer| {
        return [];
      }
      var n := size;
      if n > |buffer| - next {
        n := |buffer| - next;
      }
      out := buffer[next..next + n];
      next := next + n;
    }

    method Skip(n: nat) returns (skipped: nat)
      requires Valid()
      modifies this`next
      ensures Valid() && next == Min(old(next) + n, |buffer|) && skipped == next - old(next)
    {
      var cur := next;
      next := next + n;
      if next >= |buffer| {
        next := |buffer|;
      }
      return next - cur;
    }

    method Rewind()
      modifies this`next
      ensures Valid() && next == 0
    {
      next := 0;
    }
  }

  // ----- several streams as one -----

  function Contents(streams: seq<Source>): seq<seq<byte>> {
    seq(|streams|, k requires 0 <= k < |streams| => streams[k].data)
  }

  /** Where stream k begins in the concatenation. */
  function Start(streams: seq<Source>, k: nat): nat
    requires k <= |streams|
  {
    |Flatten(Contents(streams)[..k])|
  }

  lemma StreamSpan(streams: seq<Source>, k: nat)
    requires k < |streams|
    ensures Start(streams, k + 1) == Start(streams, k) + |streams[k].data| <= |Flatten(Contents(streams))|
    ensures Flatten(Contents(streams))[Start(streams, k)..Start(streams, k + 1)] == streams[k].data
  {
    FlattenSpan(Contents(streams), k);
  }

  lemma StartEnds(streams: seq<Source>)
    ensures Start(streams, 0) == 0
    ensures Start(streams, |streams|) == |Flatten(Contents(streams))|
  {
    assert Contents(streams)[..|streams|] == Contents(streams);
  }

  class MultiInputStream {
    const streams: seq<Source>
    var cur: nat

    ghost predicate Valid()
      reads this, streams
    {
      && (forall j, k :: 0 <= j < k < |streams| ==> streams[j] != streams[k])
      && (forall k :: 0 <= k < |streams| ==> streams[k].Valid())
      && cur <= |streams|
      && (forall k :: 0 <= k < cur ==> streams[k].pos == |streams[k].data|)
      && (forall k :: cur < k < |streams| ==> streams[k].pos == 0)
    }

    ghost function Data(): seq<byte> {
      Flatten(Contents(streams))
    }

    ghost function Position(): nat
      requires Valid()
      reads this, streams
    {
      if cur < |streams| then Start(streams, cur) + streams[cur].pos else |Data()|
    }

    constructor (streams: seq<Source>)
      requires forall j, k :: 0 <= j < k < |streams| ==> streams[j] != streams[k]
      requires forall k :: 0 <= k < |streams| ==> streams[k].pos == 0
      ensures Valid() && this.streams == streams && Position() == 0
    {
      this.streams := streams;
      cur := 0;
    }

    /** One read of the current stream. */
    method ReadCurrent(size: nat) returns (piece: seq<byte>)
      requires Valid() && cur < |streams|
      modifies streams[cur]
      ensures Valid() && Position() == old(Position()) + |piece| <= |Data()| && |piece| <= size
      ensures piece == Data()[old(Position())..Position()]
      ensures piece == [] && size > 0 ==> streams[cur].pos == |streams[cur].data|
      ensures piece != [] ==> streams[cur].pos > old(streams[cur].pos)
    {
      hide Flatten, Contents, Start;
      ghost var before, start := streams[cur].pos, Start(streams, cur);
      StreamSpan(streams, cur);
      piece := streams[cur].Read(size);
      SliceSlice(Data(), start, start + |streams[cur].data|, before, before + |piece|);
    }

    /** Moves on from an exhausted stream; the position does not change. */
    method Advance()
      requires Valid() && cur < |streams| && streams[cur].pos == |streams[cur].data|
      modifies this`cur
      ensures Valid() && cur == old(cur) + 1 && Position() == old(Position()) <= |Data()|
    {
      StreamSpan(streams, cur);
      StartEnds(streams);
      cur := cur + 1;
    }

    method Read(size: nat) returns (out: seq<byte>)
      requires Valid()
      modifies this`cur, streams
      ensures Valid() && DeliversFully(Data(), old(Position()), size, out, Position())
    {
      hide Flatten, Contents, Start;
      out := [];
      if cur == |streams| {
        return;
      }
      ghost var first := Position();
      StreamSpan(streams, cur);
      while |out| < size
        invariant Valid() && cur < |streams| && |out| <= size
        invariant Position() == first + |out| <= |Data()|
        invariant out == Data()[first..first + |out|]
        decreases |streams| - cur, |streams[cur].data| - streams[cur].pos
      {
        var piece := ReadCurrent(size - |out|);
        if piece == [] {
          Advance();
          if cur == |streams| {
            break;
          }
        } else {
          SliceSnoc(Data(), first, first + |out|, first + |out| + |piece|);
          out := out + piece;
        }
      }
    }

    /** The streams together as the input stream another component is handed. */
    method View() returns (s: Source)
      requires Valid()
      ensures fresh(s) && s.Valid() && s.eager && s.data == Data() && s.pos == Position()
    {
      hide Flatten, Contents, Start;
      s := new Source(Flatten(Contents(streams)), true);
      if cur < |streams| {
        StreamSpan(streams, cur);
        s.pos := Start(streams, cur) + streams[cur].pos;
      } else {
        s.pos := |s.data|;
      }
    }

    /** The sum of the sizes. */
    method Size() returns (total: nat)
      ensures total == |Data()|
    {
      hide Flatten, Contents;
      total := 0;
      StartEnds(streams);
      for k := 0 to |streams|
        invariant total == Start(streams, k)
      {
        StreamSpan(streams, k);
        total := total + |streams[k].data|;
      }
      StartEnds(streams);
    }

    method Rewind()
      requires Valid()
      modifies this`cur, streams
      ensures Valid() && Position() == 0
    {
      for k := 0 to |streams|
        invariant forall j :: 0 <= j < k ==> streams[j].pos == 0
        invariant forall j :: 0 <= j < |streams| ==> streams[j].Valid()
      {
        streams[k].Rewind();
      }
      cur := 0;
      StartEnds(streams);
    }
  }

  // ----- a range of a stream -----

  class InputRangeStream {
    const stream: Source
    const offset: nat
    const endOffset: nat
    var position: nat

    ghost predicate Valid()
      reads this, stream
    {
      && offset <= position <= endOffset
      && stream.pos == Max(Min(offset, |stream.data|), Min(position, |stream.data|))
    }

    /** The part of the underlying stream inside the range; a range past the end is cut short. */
    ghost function Data(): seq<byte> {
      if offset > endOffset then []
      else stream.data[Min(offset, |stream.data|)..Min(endOffset, |stream.data|)]
    }

    ghost function Position(): nat
      requires Valid()
      reads this, stream
    {
      stream.pos - Min(offset, |stream.data|)
    }

    constructor (stream: Source, offset: nat, size: nat)
      requires stream.Valid() && stream.pos == 0
      modifies stream`pos
      ensures Valid() && this.stream == stream && this.offset == offset && endOffset == offset + size
      ensures Position() == 0
    {
      this.stream, this.offset, endOffset := stream, offset, offset + size;
      position := offset;
      new;
      var _ := stream.Skip(offset);
    }

    method Read(size: nat) returns (out: seq<byte>)
      requires Valid()
      modifies this`position, stream`pos
      ensures Valid() && Delivers(Data(), old(Position()), size, out, Position())
      ensures stream.eager ==> DeliversFully(Data(), old(Position()), size, out, Position())
    {
      var want := size;
      if position + want >= endOffset {
        want := endOffset - position;
        if want == 0 {
          return [];
        }
      }
      ghost var low, high, before := Min(offset, |stream.data|), Min(endOffset, |stream.data|), stream.pos;
      out := stream.Read(want);
      position := position + |out|;
      SliceSlice(stream.data, low, high, before - low, before - low + |out|);
    }

    method Rewind()
      requires Valid()
      modifies this`position, stream`pos
      ensures Valid() && Position() == 0
    {
      stream.Rewind();
      var _ := stream.Skip(offset);
      position := offset;
    }

    /** The size asked for, whatever the stream holds. */
    method Size() returns (n: nat)
      requires Valid()
      ensures n == endOffset - offset
      ensures offset <= endOffset && (endOffset <= |stream.data| ==> n == |Data()|)
    {
      n := endOffset - offset;
    }
  }

  // ----- either kind of stream -----

  /** A rewindable stream as a decoder is handed one: by itself, or a range of it. */
  datatype AnyStream = Plain(source: Source) | Range(range: InputRangeStream) {
    ghost function Footprint(): set<object> {
      match this
      case Plain(source) => {source}
      case Range(range) => {range, range.stream}
    }

    ghost predicate Valid()
      reads Footprint()
    {
      match this
      case Plain(source) => source.Valid()
      case Range(range) => range.Valid()
    }

    ghost predicate Eager() {
      match this
      case Plain(source) => source.eager
      case Range(range) => range.stream.eager
    }

    ghost function Data(): seq<byte> {
      match this
      case Plain(source) => source.data
      case Range(range) => range.Data()
    }

    ghost function Position(): (n: nat)
      requires Valid()
      reads Footprint()
      ensures n <= |Data()|
    {
      match this
      case Plain(source) => source.pos
      case Range(range) => range.Position()
    }

    method Read(size: nat) returns (out: seq<byte>)
      requires Valid()
      modifies Footprint()
      ensures Valid() && Delivers(Data(), old(Position()), size, out, Position())
      ensures Eager() ==> DeliversFully(Data(), old(Position()), size, out, Position())
    {
      match this {
        case Plain(source) => out := source.Read(size);
        case Range(range) => out := range.Read(size);
      }
    }

    method Rewind()
      requires Valid()
      modifies Footprint()
      ensures Valid() && Position() == 0
    {
      match this {
        case Plain(source) => source.Rewind();
        case Range(range) => range.Rewind();
      }
    }
  }

  // ----- a stream read through a buffer -----

  class BufferedInputStream {
    const stream: Source
    var buffer: seq<byte>
    var next: nat
    var bytesInBuffer: nat

    ghost predicate Valid()
      reads this, stream
    {
      && stream.Valid()
      && next + bytesInBuffer <= |buffer|
      && bytesInBuffer <= stream.pos
      && buffer[next..next + bytesInBuffer] == stream.data[stream.pos - bytesInBuffer..stream.pos]
    }

    /** The cursor a reader of this stream sees: behind the underlying one by what is buffered. */
    ghost function Position(): int
      reads this, stream
    {
      stream.pos - bytesInBuffer
    }

    constructor (stream: Source)
      requires stream.Valid()
      ensures Valid() && this.stream == stream && Position() == stream.pos
    {
      this.stream := stream;
      buffer, next, bytesInBuffer := [], 0, 0;
    }

    method Reload() returns (more: bool)
      requires Valid()
      modifies this, stream`pos
      ensures Valid() && Position() == old(Position())
      ensures more <==> Position() < |stream.data|
      ensures more <==> bytesInBuffer > 0
      ensures old(bytesInBuffer) > 0 ==> stream.pos == old(stream.pos) && bytesInBuffer == old(bytesInBuffer)
      ensures old(bytesInBuffer) == 0 && more ==> stream.pos > old(stream.pos)
    {
      if bytesInBuffer == 0 {
        buffer := stream.Read(8192);
        bytesInBuffer, next := |buffer|, 0;
      }
      return bytesInBuffer != 0;
    }

    /** Short only at the end, even over a stream with short reads. */
    method Read(size: nat) returns (out: seq<byte>)
      requires Valid()
      modifies this, stream`pos
      ensures Valid() && 0 <= old(Position()) <= Position()
      ensures DeliversFully(stream.data, old(Position()), size, out, Position())
    {
      hide Valid;
      CursorInRange();
      out := [];
      var left := size;
      ghost var first := Position();
      while left >= bytesInBuffer
        invariant Valid() && |out| + left == size && 0 <= left
        invariant Position() == first + |out| <= |stream.data|
        invariant out == stream.data[first..Position()]
        decreases |stream.data| - stream.pos
      {
        ghost var before := Position();
        left := left - bytesInBuffer;
        var piece := Take(bytesInBuffer);
        SliceSnoc(stream.data, first, before, Position());
        out := out + piece;
        var more := Reload();
        if !more {
          return;
        }
        CursorInRange();
      }
      ghost var before := Position();
      var piece := Take(left);
      SliceSnoc(stream.data, first, before, Position());
      out := out + piece;
    }

    lemma CursorInRange()
      requires Valid()
      ensures stream.Valid() && 0 <= Position() <= stream.pos <= |stream.data|
    {
    }

    /** Copies the next n buffered bytes out. */
    method Take(n: nat) returns (piece: seq<byte>)
      requires Valid() && n <= bytesInBuffer
      modifies this`next, this`bytesInBuffer
      ensures Valid() && bytesInBuffer == old(bytesInBuffer) - n
      ensures 0 <= old(Position()) && Position() == old(Position()) + n <= |stream.data|
      ensures piece == stream.data[old(Position())..Position()]
    {
      piece := buffer[next..next + bytesInBuffer][..n];
      next, bytesInBuffer := next + n, bytesInBuffer - n;
    }

    /** The next byte; zero at the end of the stream. */
    method ReadByte() returns (b: byte)
      requires Valid()
      modifies this, stream`pos
      ensures Valid() && 0 <= old(Position()) <= |stream.data|
      ensures old(Position()) < |stream.data| ==> b == stream.data[old(Position())] && Position() == old(Position()) + 1
      ensures old(Position()) == |stream.data| ==> b == 0 && Position() == old(Position())
    {
      if bytesInBuffer == 0 {
        var _ := Reload();
      }
      if bytesInBuffer > 0 {
        var piece := Take(1);
        return piece[0];
      }
      return 0;
    }

    method IsEof() returns (eof: bool)
      requires Valid()
      modifies this, stream`pos
      ensures Valid() && Position() == old(Position())
      ensures eof <==> Position() == |stream.data|
    {
      var more := Reload();
      return !more;
    }
  }

  // ----- a stream spilled to a file when it grows -----

  const TEMP_BUFFER_SIZE := 4 * 1024 * 1024

  datatype TempStorage = InMemory(bytes: seq<byte>) | InFile(bytes: seq<byte>, closed: bool)

  class TempFileStream {
    var storage: TempStorage

    ghost predicate Valid()
      reads this
    {
      storage.InMemory? ==> |storage.bytes| <= TEMP_BUFFER_SIZE
    }

    /** Whether it still takes writes. */
    ghost predicate Open()
      reads this
    {
      Valid() && (storage.InFile? ==> !storage.closed)
    }

    /** Everything written so far, in either storage. */
    ghost function Written(): seq<byte>
      reads this
    {
      storage.bytes
    }

    constructor ()
      ensures Open() && Written() == [] && storage.InMemory?
    {
      storage := InMemory([]);
    }

    /** Spills before a write that would overflow the memory buffer; the file, once its
        contents have been handed out, takes no more writes. */
    method Write(data: seq<byte>)
      requires Open()
      modifies this
      ensures Open() && Written() == old(Written()) + data
      ensures storage.InMemory? <==> old(storage).InMemory? && |Written()| <= TEMP_BUFFER_SIZE
    {
      if storage.InMemory? {
        if |storage.bytes| + |data| > TEMP_BUFFER_SIZE {
          storage := InFile(storage.bytes, false);
        } else {
          storage := InMemory(storage.bytes + data);
        }
      }
      if storage.InFile? {
        storage := InFile(storage.bytes + data, false);
      }
    }

    method InputStream() returns (s: Source)
      requires Valid()
      modifies this
      ensures fresh(s) && s.Valid() && s.pos == 0 && s.eager && s.data == Written()
      ensures Valid() && Written() == old(Written())
      ensures storage == if old(storage).InMemory? then old(storage) else InFile(old(storage).bytes, true)
    {
      if storage.InFile? {
        storage := InFile(storage.bytes, true);
      }
      s := new Source(storage.bytes, true);
    }
  }
}
