/** Encryption and decryption streams over an abstract block cipher in a chaining mode.
    The cipher's internals are not part of this model: it is given by what each of its
    incremental calls has output once a prefix of the input has been fed to it. */
module CipherStreams {
  import opened Bytes
  import opened Streams

  datatype Error = ShortRead | EncryptionFailed | VerificationFailed | DecompressionFailed

  const IV_LENGTH := 16
  const SLICE := 4096

  /** What a cipher under one fixed key outputs, by initialisation vector and input so far.
      decFinal is None when the padding of the whole ciphertext is wrong. */
  datatype Cipher = Cipher(
    encUpdate: (seq<byte>, seq<byte>) -> seq<byte>,
    encFinal: (seq<byte>, seq<byte>) -> seq<byte>,
    decUpdate: (seq<byte>, seq<byte>) -> seq<byte>,
    decFinal: (seq<byte>, seq<byte>) -> Option<seq<byte>>
  ) {
    /** Output already given is never taken back, however the input is cut into calls. */
    ghost predicate Streaming() {
      && (forall iv, p, q :: p <= q ==> encUpdate(iv, p) <= encUpdate(iv, q))
      && (forall iv, p, q :: p <= q ==> decUpdate(iv, p) <= decUpdate(iv, q))
      && (forall iv :: encUpdate(iv, []) == [] && decUpdate(iv, []) == [])
    }

    function Encrypt(iv: seq<byte>, plain: seq<byte>): seq<byte> {
      encUpdate(iv, plain) + encFinal(iv, plain)
    }

    function Decrypt(iv: seq<byte>, c: seq<byte>): Option<seq<byte>> {
      match decFinal(iv, c)
      case None => None
      case Some(last) => Some(decUpdate(iv, c) + last)
    }

    /** Decryption undoes encryption. */
    ghost predicate Inverse() {
      forall iv, p :: Decrypt(iv, Encrypt(iv, p)) == Some(p)
    }

    ghost predicate Lawful() {
      Streaming() && Inverse()
    }
  }

  /** One incremental encryption call: the new output when `more` follows `before`. */
  function EncryptCall(cipher: Cipher, iv: seq<byte>, before: seq<byte>, more: seq<byte>): seq<byte> {
    var was, now := cipher.encUpdate(iv, before), cipher.encUpdate(iv, before + more);
    if |was| <= |now| then now[|was|..] else []
  }

  function DecryptCall(cipher: Cipher, iv: seq<byte>, before: seq<byte>, more: seq<byte>): seq<byte> {
    var was, now := cipher.decUpdate(iv, before), cipher.decUpdate(iv, before + more);
    if |was| <= |now| then now[|was|..] else []
  }

  lemma EncryptCallAppends(cipher: Cipher, iv: seq<byte>, before: seq<byte>, more: seq<byte>)
    requires cipher.Streaming()
    ensures cipher.encUpdate(iv, before) + EncryptCall(cipher, iv, before, more) == cipher.encUpdate(iv, before + more)
  {
    assert before <= before + more;
  }

  lemma DecryptCallAppends(cipher: Cipher, iv: seq<byte>, before: seq<byte>, more: seq<byte>)
    requires cipher.Streaming()
    ensures cipher.decUpdate(iv, before) + DecryptCall(cipher, iv, before, more) == cipher.decUpdate(iv, before + more)
  {
    assert before <= before + more;
  }

  /** Writes iv and ciphertext to an underlying stream. The cipher context is its input so far. */
  class EncryptedOutputStream {
    const cipher: Cipher
    const iv: seq<byte>
    const stream: TempFileStream
    ghost const start: seq<byte>
    var context: seq<byte>

    ghost predicate Valid()
      reads this, stream
    {
      && cipher.Streaming() && stream.Open()
      && stream.Written() == start + iv + cipher.encUpdate(iv, context)
    }

    constructor (stream: TempFileStream, cipher: Cipher, iv: seq<byte>)
      requires cipher.Streaming() && stream.Open()
      modifies stream
      ensures Valid() && context == [] && start == old(stream.Written())
      ensures this.stream == stream && this.iv == iv && this.cipher == cipher
    {
      this.cipher, this.iv, this.stream, context := cipher, iv, stream, [];
      start := stream.Written();
      new;
      stream.Write(iv);
    }

    /** Encrypts in slices of 4096 bytes; the output depends only on all the bytes written. */
    method Write(data: seq<byte>)
      requires Valid()
      modifies this, stream
      ensures Valid() && context == old(context) + data
    {
      var rest := data;
      while rest != []
        invariant Valid() && context + rest == old(context) + data
        decreases |rest|
      {
        var size := if |rest| > SLICE then SLICE else |rest|;
        var slice := rest[..size];
        EncryptCallAppends(cipher, iv, context, slice);
        stream.Write(EncryptCall(cipher, iv, context, slice));
        context, rest := context + slice, rest[size..];
      }
    }

    /** Writes the padding: the stream then holds the whole encryption of all that was written. */
    method Close()
      requires Valid()
      modifies stream
      ensures stream.Open() && stream.Written() == start + iv + cipher.Encrypt(iv, context)
    {
      stream.Write(cipher.encFinal(iv, context));
    }
  }

  /** Reads plaintext from a stream holding iv and ciphertext. */
  class DecryptedInputStream {
    const stream: AnyStream
    const cipher: Cipher
    const iv: seq<byte>
    ghost const origin: nat
    var context: seq<byte>
    var buffer: seq<byte>
    var done: bool
    ghost var position: nat

    ghost function Ciphertext(): seq<byte>
      requires origin <= |stream.Data()|
    {
      stream.Data()[origin..]
    }

    /** All the plaintext there is to read; without the last block when its padding is wrong. */
    ghost function Data(): seq<byte>
      requires origin <= |stream.Data()|
    {
      var c := Ciphertext();
      cipher.decUpdate(iv, c) + if cipher.decFinal(iv, c).Some? then cipher.decFinal(iv, c).value else []
    }

    /** What the cipher has put out so far. */
    ghost function Produced(): seq<byte>
      requires origin <= |stream.Data()|
      reads this
    {
      if done then Data() else cipher.decUpdate(iv, context)
    }

    ghost predicate Valid()
      reads this, stream.Footprint()
    {
      && cipher.Streaming() && stream.Valid()
      && origin <= stream.Position() && context == stream.Data()[origin..stream.Position()]
      && (done ==> stream.Position() == |stream.Data()| && cipher.decFinal(iv, Ciphertext()).Some?)
      && position <= |Produced()| && buffer == Produced()[position..]
    }

    constructor (stream: AnyStream, cipher: Cipher, iv: seq<byte>)
      requires cipher.Streaming() && stream.Valid()
      ensures Valid() && position == 0 && this.stream == stream && this.cipher == cipher
      ensures this.iv == iv && origin == stream.Position()
    {
      this.stream, this.cipher, this.iv, origin := stream, cipher, iv, stream.Position();
      context, buffer, done, position := [], [], false, 0;
    }

    lemma ProducedIsPrefix()
      requires Valid()
      ensures Produced() <= Data()
      ensures stream.Position() == |stream.Data()| ==> context == Ciphertext()
      ensures position + |buffer| <= |Data()| && buffer == Data()[position..position + |buffer|]
    {
      assert context <= Ciphertext();
    }

    lemma PositionInData()
      requires Valid()
      ensures stream.Valid() && origin <= stream.Position() <= |stream.Data()| && position <= |Data()|
      ensures cipher.decFinal(iv, Ciphertext()).None? ==> |Data()| == |cipher.decUpdate(iv, Ciphertext())|
    {
      ProducedIsPrefix();
    }

    lemma PlaintextIsData()
      requires origin <= |stream.Data()|
      ensures cipher.Decrypt(iv, Ciphertext())
           == if cipher.decFinal(iv, Ciphertext()).None? then None else Some(Data())
    {
    }

    /** Hands out the first n buffered bytes. */
    method Take(n: nat) returns (piece: seq<byte>)
      requires Valid() && n <= |buffer|
      modifies this`buffer, this`position
      ensures Valid() && piece == old(buffer)[..n] && buffer == old(buffer)[n..] && position == old(position) + n
      ensures position <= |Data()| && piece == Data()[old(position)..position]
    {
      ProducedIsPrefix();
      piece := buffer[..n];
      position, buffer := position + n, buffer[n..];
    }

    /** Refills an empty buffer: 4096 more bytes of ciphertext or, once, the last block.
        false at the end of the plaintext. */
    method Refill() returns (r: Result<bool, Error>)
      requires Valid() && buffer == []
      modifies this`context, this`buffer, this`done, stream.Footprint()
      ensures r.Err? <==> !old(done) && old(stream.Position()) == |stream.Data()|
                          && cipher.decFinal(iv, Ciphertext()).None?
      ensures r.Err? ==> r.error == EncryptionFailed && position == |cipher.decUpdate(iv, Ciphertext())|
      ensures r.Ok? ==> Valid()
      ensures r == Ok(true) ==>
        || stream.Position() > old(stream.Position())
        || (stream.Position() == old(stream.Position()) && done && !old(done))
      ensures r == Ok(false) ==> position == |Data()| && buffer == [] && cipher.decFinal(iv, Ciphertext()).Some?
    {
      hide AnyStream.Data, AnyStream.Valid, AnyStream.Position, Cipher.Streaming;
      ProducedIsPrefix();
      var chunk := stream.Read(SLICE);
      if chunk == [] {
        ProducedIsPrefix();
        if done {
          return Ok(false);
        }
        var last := cipher.decFinal(iv, context);
        if last.None? {
          return Err(EncryptionFailed);
        }
        buffer, done := last.value, true;
        return Ok(true);
      }
      DecryptCallAppends(cipher, iv, context, chunk);
      buffer := DecryptCall(cipher, iv, context, chunk);
      context := context + chunk;
      return Ok(true);
    }

    /** Drains the buffer and refills it until the request is met. It fails exactly when the
        read reaches past the last call's output and the padding is wrong. */
    method Read(size: nat) returns (r: Result<seq<byte>, Error>)
      requires Valid()
      modifies this, stream.Footprint()
      ensures r.Err? <==> cipher.decFinal(iv, Ciphertext()).None?
                          && old(position) + size > |cipher.decUpdate(iv, Ciphertext())|
      ensures r.Err? ==> r.error == EncryptionFailed
      ensures r.Ok? ==> Valid() && DeliversFully(Data(), old(position), size, r.value, position)
    {
      hide Valid, Data, Produced, Ciphertext;
      var left, out: seq<byte> := size, [];
      PositionInData();
      ghost var first, text := position, Data();
      while left > |buffer|
        invariant Valid() && stream.Valid() && 0 <= left && |out| + left == size && position == first + |out|
        invariant position <= |text| && out == text[first..position]
        decreases |stream.Data()| - stream.Position(), if done then 0 else 1
      {
        ghost var before := position;
        left := left - |buffer|;
        var piece := Take(|buffer|);
        SliceSnoc(text, first, before, position);
        out := out + piece;
        var more := Refill();
        if more.Err? {
          return Err(more.error);
        }
        if !more.value {
          return Ok(out);
        }
        PositionInData();
      }
      ghost var before := position;
      var piece := Take(left);
      SliceSnoc(text, first, before, position);
      PositionInData();
      return Ok(out + piece);
    }

    /** InputStream::copyTo: everything that is left, in pieces of 16384 bytes. */
    method CopyTo(sink: seq<byte>) returns (r: Result<seq<byte>, Error>)
      requires Valid() && position == 0
      modifies this, stream.Footprint()
      ensures cipher.Decrypt(iv, Ciphertext()).None? ==> r == Err(EncryptionFailed)
      ensures cipher.Decrypt(iv, Ciphertext()).Some? ==> r == Ok(sink + cipher.Decrypt(iv, Ciphertext()).value)
    {
      PositionInData();
      PlaintextIsData();
      r := CopyData(sink);
    }

    method CopyData(sink: seq<byte>) returns (r: Result<seq<byte>, Error>)
      requires Valid() && position == 0
      modifies this, stream.Footprint()
      ensures r == if cipher.decFinal(iv, Ciphertext()).None? then Err(EncryptionFailed) else Ok(sink + Data())
    {
      hide Valid, Data, Produced, Ciphertext, Cipher.Streaming, DeliversFully;
      PositionInData();
      var out := sink;
      ghost var text := Data();
      assert text[..0] == [];
      while true
        invariant Valid() && position <= |text| && out == sink + text[..position]
        decreases |text| - position
      {
        ghost var before := position;
        PositionInData();
        var piece := Read(16384);
        if piece.Err? {
          return Err(piece.error);
        }
        Delivered(text, before, 16384, piece.value, position);
        if piece.value == [] {
          assert text[..position] == text;
          return Ok(out);
        }
        out := out + piece.value;
      }
    }
  }

  /** A stream over what a closed encryption has written delivers the bytes that went in. */
  lemma DecryptsWhatWasEncrypted(cipher: Cipher, iv: seq<byte>, plain: seq<byte>, d: DecryptedInputStream)
    requires cipher.Lawful() && d.iv == iv && d.cipher == cipher && d.origin == |iv|
    requires d.stream.Data() == iv + cipher.Encrypt(iv, plain)
    ensures d.Data() == plain && cipher.decFinal(iv, d.Ciphertext()).Some?
  {
    assert d.Ciphertext() == cipher.Encrypt(iv, plain);
    assert cipher.Decrypt(iv, cipher.Encrypt(iv, plain)) == Some(plain);
  }

  function Total(sizes: seq<nat>): nat {
    if sizes == [] then 0 else Total(sizes[..|sizes| - 1]) + sizes[|sizes| - 1]
  }

  /** Pieces written through an encryption into a temporary stream, for reading back. */
  method WritePieces(cipher: Cipher, iv: seq<byte>, pieces: seq<seq<byte>>) returns (s: Source)
    requires cipher.Streaming()
    ensures fresh(s) && s.Valid() && s.pos == 0 && s.eager && s.data == iv + cipher.Encrypt(iv, Flatten(pieces))
  {
    hide Cipher.Streaming, Cipher.Encrypt, Flatten;
    var tmpStream := new TempFileStream();
    var encStream := new EncryptedOutputStream(tmpStream, cipher, iv);
    NothingFlattened();
    for i := 0 to |pieces|
      invariant encStream.Valid() && encStream.context == Flatten(pieces[..i]) && encStream.start == []
      invariant encStream.cipher == cipher && encStream.iv == iv && encStream.stream == tmpStream
      invariant fresh(encStream) && fresh(tmpStream)
    {
      FlattenNext(pieces, i);
      encStream.Write(pieces[i]);
    }
    assert pieces[..|pieces|] == pieces && [] + iv == iv;
    encStream.Close();
    s := tmpStream.InputStream();
  }

  lemma NothingRead()
    ensures Flatten([]) == [] && Total([]) == 0
  {
  }

  /** Decryption undoes encryption for every partition of the writes and of the reads: reads of
      these sizes give, in order, the bytes written, as far as they go. */
  method WriteAndRead(cipher: Cipher, iv: seq<byte>, pieces: seq<seq<byte>>, sizes: seq<nat>)
      returns (outs: seq<seq<byte>>)
    requires cipher.Lawful() && |iv| == IV_LENGTH
    ensures |outs| == |sizes|
    ensures var plain := Flatten(pieces);
            Flatten(outs) == plain[..Min(Total(sizes), |plain|)]
  {
    hide Cipher.Streaming, Cipher.Inverse, Cipher.Encrypt, Flatten, Total, DeliversFully;
    ghost var plain := Flatten(pieces);
    var s := WritePieces(cipher, iv, pieces);
    var head := s.Read(IV_LENGTH);
    HeadRead(s.data, iv, head, s.pos);
    var decStream := new DecryptedInputStream(Plain(s), cipher, head);
    DecryptsWhatWasEncrypted(cipher, iv, plain, decStream);
    outs := [];
    NothingRead();
    for i := 0 to |sizes|
      invariant decStream.Valid() && decStream.Data() == plain && decStream.cipher == cipher && decStream.iv == iv
      invariant cipher.decFinal(iv, decStream.Ciphertext()).Some?
      invariant |outs| == i && decStream.position == Min(Total(sizes[..i]), |plain|)
      invariant Flatten(outs) == plain[..decStream.position]
      invariant fresh(decStream) && decStream.stream == Plain(s) && fresh(s)
    {
      ghost var before := decStream.position;
      var r := decStream.Read(sizes[i]);
      MorePlain(plain, before, sizes[i], r.value, decStream.position);
      FlattenSnoc(outs, r.value);
      outs := outs + [r.value];
      TotalTake(sizes, i);
    }
    assert sizes[..|sizes|] == sizes;
  }

  lemma TotalTake(sizes: seq<nat>, i: nat)
    requires i < |sizes|
    ensures Total(sizes[..i + 1]) == Total(sizes[..i]) + sizes[i]
  {
    assert sizes[..i + 1][..i] == sizes[..i];
  }

  lemma HeadRead(data: seq<byte>, iv: seq<byte>, head: seq<byte>, after: nat)
    requires iv <= data && |iv| == IV_LENGTH && DeliversFully(data, 0, IV_LENGTH, head, after)
    ensures head == iv && after == |iv|
  {
  }

  lemma MorePlain(plain: seq<byte>, before: nat, size: nat, out: seq<byte>, after: nat)
    requires DeliversFully(plain, before, size, out, after)
    ensures after == Min(before + size, |plain|) && plain[..after] == plain[..before] + out
  {
  }
}
