/** Typed values packed into and unpacked from a buffer: the data types of section 5 of RFC 4251. */
module SshPack {
  import opened Bytes
  import opened SshBuffers

  /** A value with its format letter: b, w, d, q, S, s, P, or t, which can only be packed. */
  datatype Item =
    | Byte(n: nat)
    | Word(n: nat)
    | Dword(n: nat)
    | Qword(n: nat)
    | SshString(bytes: seq<byte>)
    | CString(bytes: seq<byte>)
    | Raw(bytes: seq<byte>)
    | Text(bytes: seq<byte>)

  /** A format letter of unpacking; P comes with the length wanted. */
  datatype Letter = B | W | D | Q | S | CS | P(length: nat)

  const MAX_STRING := 0xFFFF_FFFF - 5
  const MAX_CSTRING := 0xFFFF_FFFF - 1

  function Encode(item: Item): seq<byte> {
    match item
    case Byte(n) => BigEndian(1, n)
    case Word(n) => BigEndian(2, n)
    case Dword(n) => BigEndian(4, n)
    case Qword(n) => BigEndian(8, n)
    case SshString(bytes) => BigEndian(4, |bytes|) + bytes
    case CString(bytes) => BigEndian(4, |bytes|) + bytes
    case Raw(bytes) => bytes
    case Text(bytes) => bytes
  }

  function EncodeAll(items: seq<Item>): seq<byte> {
    if items == [] then [] else Encode(items[0]) + EncodeAll(items[1..])
  }

  /** Values of the C types behind the letters; strings short enough to be read back. */
  predicate InRange(item: Item) {
    match item
    case Byte(n) => n < 0x100
    case Word(n) => n < 0x1_0000
    case Dword(n) => n < 0x1_0000_0000
    case Qword(n) => n < 0x1_0000_0000_0000_0000
    case SshString(bytes) => |bytes| <= MAX_STRING
    case CString(bytes) => |bytes| <= MAX_CSTRING
    case Raw(bytes) => |bytes| < TWO_TO_THE_32
    case Text(bytes) => |bytes| < TWO_TO_THE_32
  }

  function LetterOf(item: Item): Letter
    requires !item.Text?
  {
    match item
    case Byte(_) => B
    case Word(_) => W
    case Dword(_) => D
    case Qword(_) => Q
    case SshString(_) => S
    case CString(_) => CS
    case Raw(bytes) => P(|bytes|)
  }

  predicate Unpackable(items: seq<Item>) {
    forall i :: 0 <= i < |items| ==> !items[i].Text? && InRange(items[i])
  }

  function Format(items: seq<Item>): (fmt: seq<Letter>)
    requires Unpackable(items)
    ensures |fmt| == |items|
  {
    seq(|items|, k requires 0 <= k < |items| => LetterOf(items[k]))
  }

  // ----- unpacking -----

  /** What one letter takes from the queue: its value, if it gets one, and what is left. A string
      whose length is there but whose bytes are not loses the length. */
  function Decode(letter: Letter, q: seq<byte>): (Option<Item>, seq<byte>) {
    match letter
    case B => if |q| < 1 then (None, q) else (Some(Byte(FromBigEndian(q[..1]))), q[1..])
    case W => if |q| < 2 then (None, q) else (Some(Word(FromBigEndian(q[..2]))), q[2..])
    case D => if |q| < 4 then (None, q) else (Some(Dword(FromBigEndian(q[..4]))), q[4..])
    case Q => if |q| < 8 then (None, q) else (Some(Qword(FromBigEndian(q[..8]))), q[8..])
    case S =>
      if |q| < 4 then (None, q)
      else
        var n, rest := FromBigEndian(q[..4]), q[4..];
        if n > |rest| || n > MAX_STRING then (None, rest) else (Some(SshString(rest[..n])), rest[n..])
    case CS =>
      if |q| < 4 then (None, q)
      else
        var n, rest := FromBigEndian(q[..4]), q[4..];
        if n > |rest| || n > MAX_CSTRING then (None, rest) else (Some(CString(rest[..n])), rest[n..])
    case P(n) => if n > |q| then (None, q) else (Some(Raw(q[..n])), q[n..])
  }

  /** Exactly when a letter gets no value: the queue is too short for it, or a length is out of range,
      and then the length stays read. */
  lemma NothingDecoded(letter: Letter, q: seq<byte>)
    ensures var n := if letter.B? then 1 else if letter.W? then 2 else if letter.Q? then 8
                     else if letter.P? then letter.length else 4;
            && (|q| < n ==> Decode(letter, q) == (None, q))
            && (|q| >= n && !letter.S? && !letter.CS? ==> Decode(letter, q).0.Some?)
    ensures (letter.S? || letter.CS?) && |q| >= 4 ==>
      var n, most := FromBigEndian(q[..4]), if letter.S? then 4294967290 else 4294967294;
      && (Decode(letter, q).0.Some? <==> n <= |q| - 4 && n <= most)
      && (Decode(letter, q).0.None? ==> Decode(letter, q).1 == q[4..])
  {
    hide FromBigEndian;
  }

  /** All letters in turn, until one gets no value. */
  function DecodeAll(fmt: seq<Letter>, q: seq<byte>): (Option<seq<Item>>, seq<byte>) {
    if fmt == [] then (Some([]), q)
    else
      match Decode(fmt[0], q)
      case (None, rest) => (None, rest)
      case (Some(item), rest) =>
        match DecodeAll(fmt[1..], rest)
        case (None, end) => (None, end)
        case (Some(items), end) => (Some([item] + items), end)
  }

  /** How many numbers a field of 1, 2, 4 or 8 bytes can hold. */
  function Numbers(width: nat): nat {
    if width == 1 then 0x100
    else if width == 2 then 0x1_0000
    else if width == 4 then 0x1_0000_0000
    else 0x1_0000_0000_0000_0000
  }

  lemma NumberBack(width: nat, n: nat, rest: seq<byte>)
    requires width == 1 || width == 2 || width == 4 || width == 8
    requires n < Numbers(width)
    ensures var q := BigEndian(width, n) + rest;
            |q| == width + |rest| && FromBigEndian(q[..width]) == n && q[width..] == rest
  {
    hide BigEndian, FromBigEndian, Pow;
    PowersOf256();
    BigEndianRoundTrip(width, n);
    assert (BigEndian(width, n) + rest)[..width] == BigEndian(width, n);
  }

  lemma StringBack(bytes: seq<byte>, rest: seq<byte>)
    requires |bytes| < TWO_TO_THE_32
    ensures var q := BigEndian(4, |bytes|) + bytes + rest;
            && |q| >= 4 && FromBigEndian(q[..4]) == |bytes| <= |q| - 4
            && q[4..][..|bytes|] == bytes && q[4..][|bytes|..] == rest
  {
    hide BigEndian, FromBigEndian;
    NumberBack(4, |bytes|, bytes + rest);
    assert BigEndian(4, |bytes|) + bytes + rest == BigEndian(4, |bytes|) + (bytes + rest);
    assert (bytes + rest)[..|bytes|] == bytes && (bytes + rest)[|bytes|..] == rest;
  }

  lemma DecodeEncodedString(item: Item, rest: seq<byte>)
    requires InRange(item) && (item.SshString? || item.CString?)
    ensures Decode(LetterOf(item), Encode(item) + rest) == (Some(item), rest)
  {
    hide BigEndian, FromBigEndian;
    StringBack(item.bytes, rest);
  }

  lemma DecodeEncoded(item: Item, rest: seq<byte>)
    requires InRange(item) && !item.Text?
    ensures Decode(LetterOf(item), Encode(item) + rest) == (Some(item), rest)
  {
    hide BigEndian, FromBigEndian;
    if item.SshString? || item.CString? {
      DecodeEncodedString(item, rest);
    } else if item.Raw? {
      assert (item.bytes + rest)[..|item.bytes|] == item.bytes && (item.bytes + rest)[|item.bytes|..] == rest;
    } else {
      NumberBack(if item.Byte? then 1 else if item.Word? then 2 else if item.Dword? then 4 else 8, item.n, rest);
    }
  }

  /** Unpacking a queue that begins with packed values returns them and leaves the rest. */
  lemma {:induction false} UnpackPacked(items: seq<Item>, rest: seq<byte>)
    requires Unpackable(items)
    ensures DecodeAll(Format(items), EncodeAll(items) + rest) == (Some(items), rest)
    decreases |items|
  {
    hide Encode, Decode, LetterOf, InRange;
    if items == [] {
      assert [] + rest == rest;
    } else {
      var tail := items[1..];
      assert forall i :: 0 <= i < |tail| ==> tail[i] == items[i + 1];
      DecodeEncoded(items[0], EncodeAll(tail) + rest);
      assert EncodeAll(items) + rest == Encode(items[0]) + (EncodeAll(tail) + rest);
      assert Format(items)[1..] == Format(tail);
      UnpackPacked(tail, rest);
      assert items == [items[0]] + tail;
    }
  }

  lemma ByteOfNumber(q: seq<byte>, width: nat)
    requires |q| >= width && (width == 1 || width == 2 || width == 4 || width == 8)
    ensures BigEndian(width, FromBigEndian(q[..width])) + q[width..] == q
    ensures FromBigEndian(q[..width]) < Numbers(width)
  {
    hide BigEndian, FromBigEndian, Pow;
    PowersOf256();
    BigEndianOfValue(q[..width]);
    assert q[..width] + q[width..] == q;
  }

  lemma EncodeDecoded(letter: Letter, q: seq<byte>)
    requires Decode(letter, q).0.Some? && (letter.P? ==> letter.length < TWO_TO_THE_32)
    ensures var (item, rest) := Decode(letter, q);
            InRange(item.value) && !item.value.Text? && LetterOf(item.value) == letter && Encode(item.value) + rest == q
  {
    hide BigEndian, FromBigEndian;
    match letter {
      case B => ByteOfNumber(q, 1);
      case W => ByteOfNumber(q, 2);
      case D => ByteOfNumber(q, 4);
      case Q => ByteOfNumber(q, 8);
      case S => LengthAndBytes(q);
      case CS => LengthAndBytes(q);
      case P(n) => assert q[..n] + q[n..] == q;
    }
  }

  lemma LengthAndBytes(q: seq<byte>)
    requires |q| >= 4 && FromBigEndian(q[..4]) <= |q| - 4
    ensures var n, rest := FromBigEndian(q[..4]), q[4..];
            BigEndian(4, n) + rest[..n] + rest[n..] == q
  {
    hide BigEndian, FromBigEndian;
    ByteOfNumber(q, 4);
    var n, rest := FromBigEndian(q[..4]), q[4..];
    assert BigEndian(4, n) + rest[..n] + rest[n..] == BigEndian(4, n) + rest;
  }

  ghost predicate LettersInRange(fmt: seq<Letter>) {
    forall i :: 0 <= i < |fmt| && fmt[i].P? ==> fmt[i].length < TWO_TO_THE_32
  }

  lemma OneMoreUnpacked(item: Item, tail: seq<Item>, end: seq<byte>, fmt: seq<Letter>, q: seq<byte>)
    requires fmt != [] && !item.Text? && InRange(item) && LetterOf(item) == fmt[0]
    requires Unpackable(tail) && Format(tail) == fmt[1..] && Encode(item) + (EncodeAll(tail) + end) == q
    ensures var items := [item] + tail;
            Unpackable(items) && Format(items) == fmt && EncodeAll(items) + end == q
  {
    hide Encode, LetterOf, InRange;
    var items := [item] + tail;
    assert items[1..] == tail;
    assert EncodeAll(items) + end == Encode(item) + (EncodeAll(tail) + end);
    assert Format(items) == [fmt[0]] + fmt[1..];
  }

  /** Whatever can be unpacked is what packing the values would have written: there is one
      encoding of every list of values. */
  lemma {:induction false} PackUnpacked(fmt: seq<Letter>, q: seq<byte>)
    requires DecodeAll(fmt, q).0.Some? && LettersInRange(fmt)
    ensures var (items, rest) := DecodeAll(fmt, q);
            Unpackable(items.value) && Format(items.value) == fmt && EncodeAll(items.value) + rest == q
    decreases |fmt|
  {
    hide Encode, Decode, LetterOf, InRange;
    if fmt == [] {
      assert [] + q == q;
    } else {
      var (item, rest) := Decode(fmt[0], q);
      EncodeDecoded(fmt[0], q);
      assert LettersInRange(fmt[1..]);
      PackUnpacked(fmt[1..], rest);
      var (tail, end) := DecodeAll(fmt[1..], rest);
      OneMoreUnpacked(item.value, tail.value, end, fmt, q);
    }
  }

  // ----- the loops over a format -----

  /** Adds one value; a C string's length may go in without its bytes. */
  method PackOne(buffer: SshBuffer, item: Item) returns (ok: bool)
    requires buffer.Valid() && InRange(item)
    modifies buffer, buffer.data
    ensures buffer.Valid() && (buffer.data == old(buffer.data) || fresh(buffer.data))
    ensures ok ==>
      buffer.Queue() == old(buffer.Queue()) + Encode(item) && buffer.used <= old(buffer.used) + |Encode(item)|
    ensures !ok ==> exists n: nat :: n <= |Encode(item)| && buffer.Queue() == old(buffer.Queue()) + Encode(item)[..n]
    ensures old(buffer.used) + |Encode(item)| < TWO_TO_THE_32 ==> ok
  {
    hide BigEndian, SshBuffer.Valid, SshBuffer.Queue;
    ghost var q, e := buffer.Queue(), Encode(item);
    if item.CString? {
      ok := buffer.AddData(BigEndian(4, |item.bytes|));
      if ok {
        assert e[..4] == BigEndian(4, |item.bytes|);
        ok := buffer.AddData(item.bytes);
        assert q + e[..4] + item.bytes == q + e;
      } else {
        assert q + e[..0] == q;
      }
    } else {
      var bytes;
      match item {
        case Byte(n) => bytes := BigEndian(1, n);
        case Word(n) => bytes := BigEndian(2, n);
        case Dword(n) => bytes := BigEndian(4, n);
        case Qword(n) => bytes := BigEndian(8, n);
        case SshString(s) => bytes := BigEndian(4, |s|) + s;
        case Raw(s) => bytes := s;
        case Text(s) => bytes := s;
        case CString(_) =>
      }
      ok := buffer.AddData(bytes);
      assert q + e[..0] == q;
    }
  }

  /** ssh_buffer_pack_va: an empty format is an error; after a failure part of the encoding may
      be in the buffer. */
  method Pack(buffer: SshBuffer, items: seq<Item>) returns (ok: bool)
    requires buffer.Valid() && forall i :: 0 <= i < |items| ==> InRange(items[i])
    modifies buffer, buffer.data
    ensures buffer.Valid() && (buffer.data == old(buffer.data) || fresh(buffer.data))
    ensures ok ==> buffer.Queue() == old(buffer.Queue()) + EncodeAll(items)
    ensures !ok ==>
      exists n: nat :: n <= |EncodeAll(items)| && buffer.Queue() == old(buffer.Queue()) + EncodeAll(items)[..n]
    ensures items == [] ==> !ok
    ensures items != [] && old(buffer.used) + |EncodeAll(items)| < TWO_TO_THE_32 ==> ok
  {
    hide Encode, EncodeAll, InRange, SshBuffer.Valid, SshBuffer.Queue;
    ok := false;
    ghost var q := buffer.Queue();
    NothingEncoded(items, q);
    for i := 0 to |items|
      invariant buffer.Valid() && (buffer.data == old(buffer.data) || fresh(buffer.data))
      invariant buffer.Queue() == q + EncodeAll(items[..i]) && buffer.used <= old(buffer.used) + |EncodeAll(items[..i])|
      invariant ok <==> i > 0
    {
      ghost var before := buffer.Queue();
      NextEncoded(items, i);
      ok := PackOne(buffer, items[i]);
      if !ok {
        ghost var n: nat :| n <= |Encode(items[i])| && buffer.Queue() == before + Encode(items[i])[..n];
        PartEncoded(items, i, n, q);
        return;
      }
      assert q + EncodeAll(items[..i]) + Encode(items[i]) == q + EncodeAll(items[..i + 1]);
    }
    assert items[..|items|] == items;
  }

  lemma {:induction false} EncodeAppend(a: seq<Item>, b: seq<Item>)
    ensures EncodeAll(a + b) == EncodeAll(a) + EncodeAll(b)
    decreases |a|
  {
    hide Encode;
    if a == [] {
      assert a + b == b && [] + EncodeAll(b) == EncodeAll(b);
    } else {
      assert (a + b)[1..] == a[1..] + b;
      EncodeAppend(a[1..], b);
    }
  }

  /** Text is packed without a length, and unpacked as so many raw bytes. */
  lemma TextBack(bytes: seq<byte>, front: seq<Item>, rest: seq<byte>)
    ensures EncodeAll(front + [Text(bytes)]) == EncodeAll(front) + bytes
    ensures DecodeAll([P(|bytes|)], EncodeAll([Text(bytes)]) + rest) == (Some([Raw(bytes)]), rest)
  {
    EncodeAppend(front, [Text(bytes)]);
    assert EncodeAll([Text(bytes)]) == bytes + [] == bytes;
    assert (bytes + rest)[..|bytes|] == bytes && (bytes + rest)[|bytes|..] == rest;
    assert [P(|bytes|)][1..] == [];
    assert DecodeAll([], rest) == (Some([]), rest);
    assert [Raw(bytes)] + [] == [Raw(bytes)];
  }

  lemma NextEncoded(items: seq<Item>, i: nat)
    requires i < |items|
    ensures EncodeAll(items[..i + 1]) == EncodeAll(items[..i]) + Encode(items[i])
    ensures |EncodeAll(items[..i + 1])| <= |EncodeAll(items)|
  {
    hide Encode;
    assert items[..i + 1] == items[..i] + [items[i]];
    EncodeAppend(items[..i], [items[i]]);
    assert EncodeAll([items[i]]) == Encode(items[i]) + [];
    EncodeAppend(items[..i + 1], items[i + 1..]);
    assert items[..i + 1] + items[i + 1..] == items;
  }

  lemma NothingEncoded(items: seq<Item>, q: seq<byte>)
    ensures q + EncodeAll(items[..0]) == q && |EncodeAll(items[..0])| == 0
    ensures q + EncodeAll(items)[..0] == q
  {
    assert items[..0] == [] && q + [] == q;
  }

  lemma PartEncoded(items: seq<Item>, i: nat, n: nat, q: seq<byte>)
    requires i < |items| && n <= |Encode(items[i])|
    ensures var m := |EncodeAll(items[..i])| + n;
            && m <= |EncodeAll(items)|
            && q + EncodeAll(items[..i]) + Encode(items[i])[..n] == q + EncodeAll(items)[..m]
  {
    hide Encode, EncodeAll;
    var m := |EncodeAll(items[..i])| + n;
    NextEncoded(items, i);
    EncodeAppend(items[..i + 1], items[i + 1..]);
    assert items[..i + 1] + items[i + 1..] == items;
    assert EncodeAll(items)[..m] == EncodeAll(items[..i]) + Encode(items[i])[..n];
  }

  method GetOne(buffer: SshBuffer, letter: Letter) returns (item: Option<Item>)
    requires buffer.Valid() && (letter.P? ==> letter.length < TWO_TO_THE_32)
    modifies buffer`pos
    ensures buffer.Valid() && (item, buffer.Queue()) == Decode(letter, old(buffer.Queue()))
  {
    hide FromBigEndian, SshBuffer.Valid, SshBuffer.Queue;
    match letter {
      case B => var n := buffer.GetNumber(1); return match n case None => None case Some(v) => Some(Byte(v));
      case W => var n := buffer.GetNumber(2); return match n case None => None case Some(v) => Some(Word(v));
      case D => var n := buffer.GetNumber(4); return match n case None => None case Some(v) => Some(Dword(v));
      case Q => var n := buffer.GetNumber(8); return match n case None => None case Some(v) => Some(Qword(v));
      case S =>
        var s := GetString(buffer, MAX_STRING);
        return match s case None => None case Some(v) => Some(SshString(v));
      case CS =>
        var s := GetString(buffer, MAX_CSTRING);
        return match s case None => None case Some(v) => Some(CString(v));
      case P(length) => var s := buffer.GetData(length); return match s case None => None case Some(v) => Some(Raw(v));
    }
  }

  /** buffer_get_ssh_string, and the same steps for a C string. */
  method GetString(buffer: SshBuffer, limit: nat) returns (s: Option<seq<byte>>)
    requires buffer.Valid() && limit < TWO_TO_THE_32
    modifies buffer`pos
    ensures buffer.Valid()
    ensures var q := old(buffer.Queue());
            if |q| < 4 then s == None && buffer.Queue() == q
            else
              var n, rest := FromBigEndian(q[..4]), q[4..];
              if n > |rest| || n > limit then s == None && buffer.Queue() == rest
              else s == Some(rest[..n]) && buffer.Queue() == rest[n..]
  {
    hide FromBigEndian, SshBuffer.Valid, SshBuffer.Queue;
    var n := buffer.GetNumber(4);
    if n.None? || n.value > limit {
      return None;
    }
    s := buffer.GetData(n.value);
  }

  /** ssh_buffer_unpack_va: an empty format is an error; after a failure what was read stays read. */
  method Unpack(buffer: SshBuffer, fmt: seq<Letter>) returns (items: Option<seq<Item>>)
    requires buffer.Valid() && LettersInRange(fmt)
    modifies buffer`pos
    ensures buffer.Valid() && buffer.Queue() == DecodeAll(fmt, old(buffer.Queue())).1
    ensures items == if fmt == [] then None else DecodeAll(fmt, old(buffer.Queue())).0
  {
    hide Decode, SshBuffer.Valid, SshBuffer.Queue;
    var got: seq<Item> := [];
    ghost var q := buffer.Queue();
    NothingGot(fmt, q);
    for i := 0 to |fmt|
      invariant buffer.Valid() && DecodeAll(fmt, q) == Continued(got, DecodeAll(fmt[i..], buffer.Queue()))
    {
      DecodeNext(fmt, i, buffer.Queue(), got);
      var item := GetOne(buffer, fmt[i]);
      if item.None? {
        return None;
      }
      got := got + [item.value];
    }
    assert got + [] == got;
    return if fmt == [] then None else Some(got);
  }

  /** The outcome when these values have been read before. */
  function Continued(got: seq<Item>, outcome: (Option<seq<Item>>, seq<byte>)): (Option<seq<Item>>, seq<byte>) {
    match outcome
    case (None, rest) => (None, rest)
    case (Some(items), rest) => (Some(got + items), rest)
  }

  lemma NothingGot(fmt: seq<Letter>, q: seq<byte>)
    ensures Continued([], DecodeAll(fmt[0..], q)) == DecodeAll(fmt, q)
  {
    assert fmt[0..] == fmt;
    assert forall items: seq<Item> :: [] + items == items;
  }

  lemma DecodeNext(fmt: seq<Letter>, i: nat, q: seq<byte>, got: seq<Item>)
    requires i < |fmt|
    ensures var (item, rest) := Decode(fmt[i], q);
            Continued(got, DecodeAll(fmt[i..], q))
            == if item.None? then (None, rest) else Continued(got + [item.value], DecodeAll(fmt[i + 1..], rest))
  {
    hide Decode;
    var (item, rest) := Decode(fmt[i], q);
    assert fmt[i..][1..] == fmt[i + 1..];
    if item.Some? && DecodeAll(fmt[i + 1..], rest).0.Some? {
      var items := DecodeAll(fmt[i + 1..], rest).0.value;
      assert got + ([item.value] + items) == got + [item.value] + items;
    }
  }
}
