/** libssh's growable buffer: an array with a read and a write position, used as a byte queue. */
module SshBuffers {
  import opened Bytes

  predicate IsPowerOfTwo(n: nat) {
    n == 1 || (n > 0 && n % 2 == 0 && IsPowerOfTwo(n / 2))
  }

  /** Between a power of two and its double there is no other. */
  lemma {:induction false} PowersDouble(p: nat, q: nat)
    requires IsPowerOfTwo(p) && IsPowerOfTwo(q) && p < q
    ensures 2 * p <= q
  {
    if p > 1 {
      PowersDouble(p / 2, q / 2);
    }
  }

  lemma Doubled(p: nat)
    requires IsPowerOfTwo(p)
    ensures IsPowerOfTwo(2 * p)
  {
  }

  lemma Times256(p: nat)
    requires IsPowerOfTwo(p)
    ensures IsPowerOfTwo(256 * p) && IsPowerOfTwo(128 * p)
  {
    hide IsPowerOfTwo;
    Doubled(p); Doubled(2 * p); Doubled(4 * p); Doubled(8 * p);
    Doubled(16 * p); Doubled(32 * p); Doubled(64 * p); Doubled(128 * p);
  }

  lemma LimitIsPower()
    ensures IsPowerOfTwo(TWO_TO_THE_32) && IsPowerOfTwo(128) && IsPowerOfTwo(1)
  {
    assert IsPowerOfTwo(1);
    hide IsPowerOfTwo;
    Times256(1); Times256(0x100); Times256(0x1_0000); Times256(0x100_0000);
  }

  /** The smallest power of two above what is needed. */
  method PowerAbove(needed: nat) returns (smallest: nat)
    requires needed < TWO_TO_THE_32
    ensures IsPowerOfTwo(smallest) && needed < smallest <= TWO_TO_THE_32 && smallest <= Max(1, 2 * needed)
  {
    hide IsPowerOfTwo;
    LimitIsPower();
    smallest := 1;
    while smallest <= needed
      invariant IsPowerOfTwo(smallest) && smallest <= TWO_TO_THE_32 && smallest <= Max(1, 2 * needed)
      decreases needed + 1 - smallest
    {
      PowersDouble(smallest, TWO_TO_THE_32);
      Doubled(smallest);
      smallest := 2 * smallest;
    }
  }

  lemma OnlyLimitAbove(p: nat)
    requires IsPowerOfTwo(p) && p <= TWO_TO_THE_32
    ensures p > TWO_TO_THE_32 / 2 ==> p == TWO_TO_THE_32
  {
    LimitIsPower();
    if p < TWO_TO_THE_32 {
      PowersDouble(p, TWO_TO_THE_32);
    }
  }

  /** A size as kept in 32 bits: 4 GiB are recorded as nothing. */
  function Truncated(n: nat): nat {
    n % TWO_TO_THE_32
  }

  lemma TruncatedBound(n: nat)
    ensures Truncated(n) <= n && (n < TWO_TO_THE_32 ==> Truncated(n) == n) && Truncated(TWO_TO_THE_32) == 0
  {
  }

  class SshBuffer {
    var data: array<byte>
    var used: nat
    var pos: nat
    var capacity: nat

    ghost predicate Valid()
      reads this
    {
      && pos <= used <= data.Length <= TWO_TO_THE_32 && used < TWO_TO_THE_32
      && capacity == Truncated(data.Length)
      && (data.Length == 0 || IsPowerOfTwo(data.Length))
    }

    /** The recorded size is the true one, and so nothing lies past it. */
    ghost predicate Exact()
      reads this
      ensures Exact() && Valid() ==> used <= capacity && (capacity == 0 || IsPowerOfTwo(capacity))
    {
      data.Length < TWO_TO_THE_32
    }

    /** The bytes yet to be read, the next one first. */
    ghost function Queue(): seq<byte>
      requires Valid()
      reads this, data
    {
      data[pos..used]
    }

    lemma QueueLength()
      requires Valid()
      ensures |Queue()| == used - pos
    {
    }

    /** A buffer whose recorded size is true has room to count on. */
    lemma HalfUsed()
      requires Valid() && Exact()
      ensures used <= TWO_TO_THE_32 / 2
    {
      LimitIsPower();
      if data.Length > TWO_TO_THE_32 / 2 {
        PowersDouble(data.Length, TWO_TO_THE_32);
      }
    }

    constructor ()
      ensures Valid() && Exact() && Queue() == [] && fresh(data) && data.Length == 0
    {
      data := new byte[0];
      used, pos, capacity := 0, 0, 0;
    }

    /** realloc_buffer. */
    method Realloc(needed: nat)
      requires Valid() && used <= needed < TWO_TO_THE_32
      modifies this`data, this`capacity
      ensures Valid() && fresh(data) && data[..used] == old(data[..used]) && Queue() == old(Queue())
      ensures needed < data.Length && data.Length <= Max(1, 2 * needed)
      ensures Exact() <==> needed < TWO_TO_THE_32 / 2
    {
      hide IsPowerOfTwo;
      var smallest := PowerAbove(needed);
      OnlyLimitAbove(smallest);
      var grown := new byte[smallest](_ => 0);
      forall i | 0 <= i < used {
        grown[i] := data[i];
      }
      assert grown[..used] == data[..used];
      assert grown[..used][pos..] == grown[pos..used] && data[..used][pos..] == data[pos..used];
      data, capacity := grown, Truncated(smallest);
    }

    /** buffer_shift: moves what is unread to the front. */
    method Shift()
      requires Valid()
      modifies this`used, this`pos, data
      ensures Valid() && pos == 0 && used == old(used) - old(pos) && Queue() == old(Queue())
    {
      hide IsPowerOfTwo, Truncated;
      ghost var q := Queue();
      forall i | 0 <= i < used - pos {
        data[i] := data[pos + i];
      }
      used := used - pos;
      pos := 0;
      assert data[0..used] == q;
    }

    /** ssh_buffer_add_data. The recorded size is the true one afterwards exactly if it was and
        the array did not grow, or it grew for less than 2^31 unread bytes. */
    method AddData(bytes: seq<byte>) returns (ok: bool)
      requires Valid() && |bytes| < TWO_TO_THE_32
      modifies this, data
      ensures Valid() && (data == old(data) || fresh(data))
      ensures ok <==> old(used) + |bytes| < TWO_TO_THE_32
      ensures Queue() == if ok then old(Queue()) + bytes else old(Queue())
      ensures ok ==> used <= old(used) + |bytes|
      ensures !ok ==> Exact() == old(Exact())
      ensures ok ==> (Exact() <==> if old(used) + |bytes| <= old(capacity) then old(Exact())
                                   else |old(Queue())| + |bytes| < TWO_TO_THE_32 / 2)
    {
      hide IsPowerOfTwo, Truncated, Queue;
      TruncatedBound(data.Length);
      QueueLength();
      if used + |bytes| >= TWO_TO_THE_32 {
        return false;
      }
      if capacity < used + |bytes| {
        if pos > 0 {
          Shift();
        }
        Realloc(used + |bytes|);
      }
      Append(bytes);
      return true;
    }

    /** The copy behind what is used. */
    method Append(bytes: seq<byte>)
      requires Valid() && used + |bytes| <= data.Length && used + |bytes| < TWO_TO_THE_32
      modifies this`used, data
      ensures Valid() && used == old(used) + |bytes| && Queue() == old(Queue()) + bytes
    {
      hide IsPowerOfTwo, Truncated;
      ghost var q := Queue();
      forall i | 0 <= i < |bytes| {
        data[used + i] := bytes[i];
      }
      assert data[pos..used] == q;
      used := used + |bytes|;
      assert data[used - |bytes|..used] == bytes;
      assert data[pos..used] == data[pos..used - |bytes|] + data[used - |bytes|..used];
    }

    /** buffer_prepend_data: into the space already read, or else to the front of the array. */
    method PrependData(bytes: seq<byte>) returns (ok: bool)
      requires Valid() && |bytes| < TWO_TO_THE_32
      modifies this, data
      ensures Valid() && (data == old(data) || fresh(data))
      ensures ok <==> |old(Queue())| + |bytes| < TWO_TO_THE_32
      ensures Queue() == if ok then bytes + old(Queue()) else old(Queue())
      ensures !ok ==> Exact() == old(Exact())
      ensures ok ==> (Exact() <==> if |bytes| <= old(pos) || |old(Queue())| + |bytes| <= old(capacity) then old(Exact())
                                   else |old(Queue())| + |bytes| < TWO_TO_THE_32 / 2)
    {
      hide IsPowerOfTwo, Truncated, Queue;
      TruncatedBound(data.Length);
      QueueLength();
      if |bytes| <= pos {
        CopyBefore(bytes);
        return true;
      }
      if used - pos + |bytes| >= TWO_TO_THE_32 {
        return false;
      }
      if capacity < used - pos + |bytes| {
        Realloc(used - pos + |bytes|);
      }
      MoveBehind(bytes);
      return true;
    }

    method CopyBefore(bytes: seq<byte>)
      requires Valid() && |bytes| <= pos
      modifies this`pos, data
      ensures Valid() && Queue() == bytes + old(Queue())
    {
      hide IsPowerOfTwo, Truncated;
      ghost var q := Queue();
      forall i | 0 <= i < |bytes| {
        data[pos - |bytes| + i] := bytes[i];
      }
      assert data[pos..used] == q;
      pos := pos - |bytes|;
      assert data[pos..pos + |bytes|] == bytes;
      assert data[pos..used] == data[pos..pos + |bytes|] + data[pos + |bytes|..used];
    }

    method MoveBehind(bytes: seq<byte>)
      requires Valid() && |bytes| > pos && used - pos + |bytes| <= data.Length && used - pos + |bytes| < TWO_TO_THE_32
      modifies this`used, this`pos, data
      ensures Valid() && Queue() == bytes + old(Queue())
    {
      hide IsPowerOfTwo, Truncated;
      ghost var q := Queue();
      forall i | 0 <= i < used - pos {
        data[|bytes| + i] := data[pos + i];
      }
      forall i | 0 <= i < |bytes| {
        data[i] := bytes[i];
      }
      used := used + |bytes| - pos;
      pos := 0;
      assert data[0..used] == bytes + q;
    }

    /** buffer_pass_bytes: eats bytes, all or none; an emptied buffer starts afresh. */
    method PassBytes(len: nat) returns (r: nat)
      requires Valid() && len < TWO_TO_THE_32
      modifies this`used, this`pos
      ensures Valid() && Exact() == old(Exact())
      ensures len <= |old(Queue())| ==> r == len && Queue() == old(Queue())[len..]
      ensures len > |old(Queue())| ==> r == 0 && Queue() == old(Queue())
    {
      ghost var q := Queue();
      hide IsPowerOfTwo, Truncated;
      if (pos + len) % TWO_TO_THE_32 < len || used < (pos + len) % TWO_TO_THE_32 {
        return 0;
      }
      pos := pos + len;
      assert data[pos..used] == q[len..];
      if pos == used {
        pos, used := 0, 0;
      }
      return len;
    }

    /** buffer_get_data: the next bytes, all or none. */
    method GetData(len: nat) returns (bytes: Option<seq<byte>>)
      requires Valid() && len < TWO_TO_THE_32
      modifies this`pos
      ensures Valid()
      ensures len <= |old(Queue())| ==> bytes == Some(old(Queue())[..len]) && Queue() == old(Queue())[len..]
      ensures len > |old(Queue())| ==> bytes == None && Queue() == old(Queue())
    {
      ghost var q := Queue();
      hide IsPowerOfTwo, Truncated;
      if (pos + len) % TWO_TO_THE_32 < len || (pos + len) % TWO_TO_THE_32 > used {
        return None;
      }
      bytes := Some(data[pos..pos + len]);
      assert data[pos..pos + len] == q[..len];
      pos := pos + len;
      assert data[pos..used] == q[len..];
    }

    /** buffer_get_rest_len. */
    method RestLen() returns (n: nat)
      requires Valid()
      ensures n == |Queue()|
    {
      n := used - pos;
    }

    /** The next bytes at buffer_get_rest, left where they are. */
    method Rest(len: nat) returns (bytes: seq<byte>)
      requires Valid() && len <= |Queue()|
      ensures bytes == Queue()[..len]
    {
      hide IsPowerOfTwo, Truncated;
      bytes := data[pos..pos + len];
      assert data[pos..used][..len] == data[pos..pos + len];
    }

    /** ssh_buffer_reinit: empties the buffer and shrinks a large one. */
    method Reinit()
      requires Valid()
      modifies this
      ensures Valid() && Queue() == [] && used == 0 && (data == old(data) || fresh(data))
      ensures Exact() == old(Exact()) && (Exact() ==> data.Length <= 128)
    {
      hide IsPowerOfTwo, Truncated;
      TruncatedBound(data.Length);
      used, pos := 0, 0;
      if capacity > 127 {
        Realloc(127);
        LimitIsPower();
        if data.Length > 128 {
          PowersDouble(128, data.Length);
        }
      }
    }

    method GetNumber(width: nat) returns (n: Option<nat>)
      requires Valid() && width < TWO_TO_THE_32
      modifies this`pos
      ensures Valid()
      ensures width <= |old(Queue())| ==>
        n == Some(FromBigEndian(old(Queue())[..width])) && Queue() == old(Queue())[width..]
      ensures width > |old(Queue())| ==> n == None && Queue() == old(Queue())
    {
      var bytes := GetData(width);
      return match bytes case None => None case Some(b) => Some(FromBigEndian(b));
    }
  }

  /** Adding 2^31 bytes to a new buffer: the queue is right, and the recorded size is zero. */
  method ForgetSize(b: byte) returns (buffer: SshBuffer)
    ensures fresh(buffer) && buffer.Valid() && !buffer.Exact()
    ensures buffer.Queue() == seq(TWO_TO_THE_32 / 2, _ => b)
    ensures buffer.capacity == 0 < buffer.used
  {
    hide IsPowerOfTwo;
    buffer := new SshBuffer();
    var bytes := seq(TWO_TO_THE_32 / 2, _ => b);
    var _ := buffer.AddData(bytes);
    assert [] + bytes == bytes;
    buffer.QueueLength();
  }
}
