/** The sealed form in which every object is stored: a MAC, then the initialisation vector and
    the encryption of the optionally compressed data. The MAC and the compressor are abstract. */
module Envelope {
  import opened Bytes
  import opened Streams
  import opened CipherStreams

  const MAC_LENGTH := 32
  /** Compression types as stored in a file entry. */
  const NO_COMPRESSION: byte := 0
  const LZMA2: byte := 1

  datatype Failure = InvalidArgument | Stream(error: Error)

  /** The primitives under one repository's keys. */
  datatype Codec = Codec(
    cipher: Cipher,
    mac: seq<byte> -> seq<byte>,
    compress: seq<byte> -> seq<byte>,
    decompress: seq<byte> -> Option<seq<byte>>
  ) {
    ghost predicate Lawful() {
      && cipher.Lawful()
      && (forall s :: |mac(s)| == MAC_LENGTH)
      && (forall s :: decompress(compress(s)) == Some(s))
    }
  }

  function Compressed(codec: Codec, ct: byte, data: seq<byte>): seq<byte> {
    if ct == NO_COMPRESSION then data else codec.compress(data)
  }

  /** What is stored for data. */
  function Seal(codec: Codec, ct: byte, iv: seq<byte>, data: seq<byte>): seq<byte> {
    var body := iv + codec.cipher.Encrypt(iv, Compressed(codec, ct, data));
    codec.mac(body) + body
  }

  /** What is read back from stored bytes, or why they are rejected, in the order of the checks. */
  function Open(codec: Codec, ct: byte, s: seq<byte>): Result<seq<byte>, Failure> {
    if |s| < MAC_LENGTH then Err(Stream(ShortRead))
    else if s[..MAC_LENGTH] != codec.mac(s[MAC_LENGTH..]) then Err(Stream(VerificationFailed))
    else Decode(codec, ct, s[MAC_LENGTH..])
  }

  /** What comes after the MAC has been found right. */
  function Decode(codec: Codec, ct: byte, body: seq<byte>): Result<seq<byte>, Failure> {
    if ct != NO_COMPRESSION && ct != LZMA2 then Err(InvalidArgument)
    else if |body| < IV_LENGTH then Err(Stream(EncryptionFailed))
    else
      match codec.cipher.Decrypt(body[..IV_LENGTH], body[IV_LENGTH..])
      case None => Err(Stream(EncryptionFailed))
      case Some(plain) =>
        if ct == NO_COMPRESSION then Ok(plain)
        else match codec.decompress(plain)
             case None => Err(Stream(DecompressionFailed))
             case Some(data) => Ok(data)
  }

  lemma LawfulCipher(codec: Codec)
    requires codec.Lawful()
    ensures codec.cipher.Streaming()
  {
  }

  /** Opening what was sealed returns the data. */
  lemma OpenSeal(codec: Codec, ct: byte, iv: seq<byte>, data: seq<byte>)
    requires codec.Lawful() && |iv| == IV_LENGTH && ct <= LZMA2
    ensures Open(codec, ct, Seal(codec, ct, iv, data)) == Ok(data)
    ensures |Seal(codec, ct, iv, data)| >= MAC_LENGTH + IV_LENGTH
  {
    var enc := codec.cipher.Encrypt(iv, Compressed(codec, ct, data));
    var s := Seal(codec, ct, iv, data);
    assert s[MAC_LENGTH..] == iv + enc;
    assert (iv + enc)[..IV_LENGTH] == iv && (iv + enc)[IV_LENGTH..] == enc;
    assert codec.cipher.Decrypt(iv, enc) == Some(Compressed(codec, ct, data));
  }

  /** The sealed form: 32 bytes of MAC over everything after it, 16 of initialisation vector, and the
      encryption of the data, compressed or as it is. */
  lemma SealLayout(codec: Codec, ct: byte, iv: seq<byte>, data: seq<byte>)
    requires codec.Lawful() && |iv| == 16
    ensures var s := Seal(codec, ct, iv, data);
            && |s| >= 48 && s[..32] == codec.mac(s[32..]) && s[32..48] == iv
            && s[48..] == codec.cipher.Encrypt(iv, if ct == 0 then data else codec.compress(data))
  {
    hide Cipher.Encrypt, Cipher.Lawful;
    var enc := codec.cipher.Encrypt(iv, Compressed(codec, ct, data));
    var s := Seal(codec, ct, iv, data);
    assert s[32..] == iv + enc && s[..32] == codec.mac(iv + enc);
    assert s[32..48] == (iv + enc)[..16] && s[48..] == (iv + enc)[16..];
  }

  /** What stored bytes open to, and which error the first thing wrong with them gives. */
  lemma OpenAnswers(codec: Codec, ct: byte, s: seq<byte>)
    ensures |s| < 32 ==> Open(codec, ct, s) == Err(Stream(ShortRead))
    ensures |s| >= 32 && s[..32] != codec.mac(s[32..]) ==> Open(codec, ct, s) == Err(Stream(VerificationFailed))
    ensures |s| >= 32 && s[..32] == codec.mac(s[32..]) ==>
      && (ct > 1 ==> Open(codec, ct, s) == Err(InvalidArgument))
      && (ct <= 1 && |s| < 48 ==> Open(codec, ct, s) == Err(Stream(EncryptionFailed)))
      && (ct <= 1 && |s| >= 48 ==>
            match codec.cipher.Decrypt(s[32..48], s[48..])
            case None => Open(codec, ct, s) == Err(Stream(EncryptionFailed))
            case Some(plain) =>
              && (ct == 0 ==> Open(codec, ct, s) == Ok(plain))
              && (ct == 1 && codec.decompress(plain).None? ==> Open(codec, ct, s) == Err(Stream(DecompressionFailed)))
              && (ct == 1 && codec.decompress(plain).Some? ==>
                    Open(codec, ct, s) == Ok(codec.decompress(plain).value)))
  {
    hide Cipher.Decrypt;
    if |s| >= 48 {
      assert s[32..][..16] == s[32..48] && s[32..][16..] == s[48..];
    }
  }

  /** Only bytes that carry the MAC of all the rest are ever decrypted. */
  lemma OpenIsAuthenticated(codec: Codec, ct: byte, s: seq<byte>)
    requires Open(codec, ct, s).Ok?
    ensures |s| >= MAC_LENGTH + IV_LENGTH && s == codec.mac(s[MAC_LENGTH..]) + s[MAC_LENGTH..]
  {
    assert s == s[..MAC_LENGTH] + s[MAC_LENGTH..];
  }

  /** StreamUtils::compressEncryptHMAC: the sealed form as a rewindable stream of two parts. */
  method CompressEncryptHMAC(codec: Codec, ct: byte, iv: seq<byte>, inStream: Source)
      returns (r: Result<MultiInputStream, Failure>)
    requires codec.Lawful() && inStream.Valid() && inStream.pos == 0
    modifies inStream
    ensures r.Ok? <==> ct == NO_COMPRESSION || ct == LZMA2
    ensures r.Err? ==> r.error == InvalidArgument
    ensures r.Ok? ==> fresh(r.value) && fresh(r.value.streams) && r.value.Valid() && r.value.Position() == 0
    ensures r.Ok? ==> r.value.Data() == Seal(codec, ct, iv, inStream.data)
  {
    hide Codec.Lawful, Flatten, Contents, Compressed;
    LawfulCipher(codec);
    var encrypted := CompressEncrypt(codec, ct, iv, inStream);
    if encrypted.Err? {
      return Err(encrypted.error);
    }
    var encryptedStream := encrypted.value;
    var hashed := Drain(Plain(encryptedStream));
    assert hashed == encryptedStream.data;
    var hmac := codec.mac(hashed);
    encryptedStream.Rewind();
    var hmacStream := new Source(hmac, true);
    var both := new MultiInputStream([hmacStream, encryptedStream]);
    TwoParts(both.streams);
    return Ok(both);
  }

  /** Its first half: compresses and encrypts into a temporary stream and hands that out. */
  method CompressEncrypt(codec: Codec, ct: byte, iv: seq<byte>, inStream: Source)
      returns (r: Result<Source, Failure>)
    requires codec.cipher.Streaming() && inStream.Valid() && inStream.pos == 0
    modifies inStream
    ensures r.Ok? <==> ct == NO_COMPRESSION || ct == LZMA2
    ensures r.Err? ==> r.error == InvalidArgument
    ensures r.Ok? ==> fresh(r.value) && r.value.Valid() && r.value.pos == 0 && r.value.eager
    ensures r.Ok? ==> r.value.data == iv + codec.cipher.Encrypt(iv, Compressed(codec, ct, inStream.data))
  {
    hide Cipher.Streaming, Cipher.Encrypt;
    var tmpStream := new TempFileStream();
    var encStream := new EncryptedOutputStream(tmpStream, codec.cipher, iv);
    if ct == NO_COMPRESSION {
      CopyTo(inStream, encStream);
    } else if ct == LZMA2 {
      var all := Drain(Plain(inStream));
      encStream.Write(codec.compress(all));
    } else {
      return Err(InvalidArgument);
    }
    assert encStream.context == Compressed(codec, ct, inStream.data);
    encStream.Close();
    var encryptedStream := tmpStream.InputStream();
    assert [] + iv == iv;
    return Ok(encryptedStream);
  }

  lemma TwoParts(streams: seq<Source>)
    requires |streams| == 2
    ensures Flatten(Contents(streams)) == streams[0].data + streams[1].data
  {
    var a, b := streams[0].data, streams[1].data;
    assert Contents(streams) == [a] + [b];
    FlattenSnoc([a], b);
    FlattenSnoc([], a);
    assert [] + [a] == [a];
  }

  /** Reads a stream to its end in pieces of 8192 bytes. */
  method Drain(s: AnyStream) returns (all: seq<byte>)
    requires s.Valid()
    modifies s.Footprint()
    ensures s.Valid() && s.Position() == |s.Data()| && all == s.Data()[old(s.Position())..]
  {
    hide AnyStream.Valid, AnyStream.Data, AnyStream.Position, AnyStream.Footprint;
    all := [];
    ghost var first := s.Position();
    while true
      invariant s.Valid() && first <= s.Position() && all == s.Data()[first..s.Position()]
      decreases |s.Data()| - s.Position()
    {
      ghost var before := s.Position();
      var piece := s.Read(8192);
      if piece == [] {
        return;
      }
      SliceSnoc(s.Data(), first, before, s.Position());
      all := all + piece;
    }
  }

  /** InputStream::copyTo an encrypting stream, in pieces of 16384 bytes. */
  method CopyTo(s: Source, out: EncryptedOutputStream)
    requires s.Valid() && out.Valid() && s.pos == 0
    modifies s`pos, out, out.stream
    ensures out.Valid() && out.context == old(out.context) + s.data
  {
    assert s.data[..0] == [];
    while true
      invariant s.Valid() && out.Valid() && out.context == old(out.context) + s.data[..s.pos]
      decreases |s.data| - s.pos
    {
      ghost var before := s.pos;
      var piece := s.Read(16384);
      if piece == [] {
        assert s.data[..s.pos] == s.data;
        return;
      }
      SliceSnoc(s.data, 0, before, s.pos);
      out.Write(piece);
    }
  }

  /** StreamUtils::decompressDecryptHMAC: checks the MAC over one pass, rewinds, then decodes. */
  method DecompressDecryptHMAC(codec: Codec, ct: byte, inStream: AnyStream, sink: seq<byte>)
      returns (r: Result<seq<byte>, Failure>)
    requires codec.Lawful() && inStream.Valid() && inStream.Eager() && inStream.Position() == 0
    modifies inStream.Footprint()
    ensures r == match Open(codec, ct, inStream.Data())
                 case Ok(data) => Ok(sink + data)
                 case Err(e) => Err(e)
  {
    hide Codec.Lawful, Decode, AnyStream.Valid, AnyStream.Data, AnyStream.Position, AnyStream.Footprint;
    hide AnyStream.Eager;
    LawfulCipher(codec);
    var hmac1 := inStream.Read(MAC_LENGTH);
    if |hmac1| != MAC_LENGTH {
      return Err(Stream(ShortRead));
    }
    var rest := Drain(inStream);
    var hmac2 := codec.mac(rest);
    if hmac1 != hmac2 {
      return Err(Stream(VerificationFailed));
    }
    inStream.Rewind();
    hmac1 := inStream.Read(MAC_LENGTH);
    r := DecodeStream(codec, ct, inStream, sink);
  }

  /** Its second half: decrypts and decompresses what follows the MAC. */
  method DecodeStream(codec: Codec, ct: byte, inStream: AnyStream, sink: seq<byte>)
      returns (r: Result<seq<byte>, Failure>)
    requires codec.cipher.Streaming() && inStream.Valid() && inStream.Eager()
    modifies inStream.Footprint()
    ensures r == match Decode(codec, ct, inStream.Data()[old(inStream.Position())..])
                 case Ok(data) => Ok(sink + data)
                 case Err(e) => Err(e)
  {
    hide Cipher.Streaming, Cipher.Decrypt, AnyStream.Valid, AnyStream.Data, AnyStream.Position, AnyStream.Eager;
    ghost var first := inStream.Position();
    ghost var body := inStream.Data()[first..];
    if ct != NO_COMPRESSION && ct != LZMA2 {
      return Err(InvalidArgument);
    }
    var iv := inStream.Read(IV_LENGTH);
    if |iv| != IV_LENGTH {
      return Err(Stream(EncryptionFailed));
    }
    var decStream := new DecryptedInputStream(inStream, codec.cipher, iv);
    assert decStream.origin == first + IV_LENGTH;
    assert body[..IV_LENGTH] == iv && body[IV_LENGTH..] == decStream.Ciphertext();
    if ct == NO_COMPRESSION {
      var copied := decStream.CopyTo(sink);
      return match copied case Ok(out) => Ok(out) case Err(e) => Err(Stream(e));
    }
    var plain := decStream.CopyTo([]);
    if plain.Err? {
      return Err(Stream(plain.error));
    }
    assert forall t: seq<byte> :: [] + t == t;
    var data := codec.decompress(plain.value);
    return match data case None => Err(Stream(DecompressionFailed)) case Some(d) => Ok(sink + d);
  }
}
