/** The backup engine: blocks, files and snapshots put into a data store and fetched again.
    Every method is proved against the model of the store and the snapshot. */
module BackupEngine {
  import opened Bytes
  import opened Rolling
  import opened Streams
  import opened CipherStreams
  import opened Envelope
  import opened Base32
  import opened OrderedMap
  import opened StringTable
  import opened Paths
  import opened SnapshotModel
  import opened SnapshotFormat
  import opened SnapshotProperties
  import opened SnapshotStore
  import opened RepositoryModel
  import opened BackupRuns
  import Chunker

  const WINDOW_SIZE: nat := 8192

  /** The back end: named byte strings. */
  class DataStore {
    var objects: Objects

    constructor ()
      ensures objects == map[]
    {
      objects := map[];
    }

    method Exist(path: string) returns (r: bool)
      ensures r <==> path in objects
    {
      r := path in objects;
    }

    /** Writes what is stored at a path to a stream. */
    method Get(path: string, out: TempFileStream) returns (r: Result<(), RepositoryModel.Failure>)
      requires out.Open()
      modifies out
      ensures out.Open()
      ensures r == if path in objects then Ok(()) else Err(NotFound)
      ensures out.Written() == old(out.Written()) + if path in objects then objects[path] else []
    {
      if path !in objects {
        assert out.Written() + [] == out.Written();
        return Err(NotFound);
      }
      out.Write(objects[path]);
      return Ok(());
    }

    /** Stores everything a stream delivers, replacing what was there. */
    method Put(path: string, stream: MultiInputStream)
      requires stream.Valid() && stream.Position() == 0
      modifies this, stream, stream.streams
      ensures objects == old(objects)[path := stream.Data()]
    {
      hide MultiInputStream.Data, MultiInputStream.Position, MultiInputStream.Valid, DeliversFully;
      var all := DrainAll(stream);
      objects := objects[path := all];
    }
  }

  /** Reads several streams as one to the end. */
  method DrainAll(stream: MultiInputStream) returns (all: seq<byte>)
    requires stream.Valid() && stream.Position() == 0
    modifies stream`cur, stream.streams
    ensures all == stream.Data()
  {
    hide MultiInputStream.Data, MultiInputStream.Position, MultiInputStream.Valid;
    all := [];
    while true
      invariant stream.Valid() && stream.Position() == |all| <= |stream.Data()| && all == stream.Data()[..|all|]
      decreases |stream.Data()| - |all|
    {
      var piece := stream.Read(8192);
      SliceSnoc(stream.Data(), 0, |all|, |all| + |piece|);
      all := all + piece;
      if piece == [] {
        return;
      }
    }
  }

  datatype Options = Options(smallFileSize: nat, maxBlockSize: nat, minRollingHashBits: nat, maxRollingHashBits: nat)

  /** The mask's width: the estimate from the file's length, clamped. */
  function HashBits(options: Options, estimate: int): (bits: nat)
    ensures bits == Min(Max(estimate, options.minRollingHashBits), options.maxRollingHashBits)
  {
    var bits := if estimate < options.minRollingHashBits then options.minRollingHashBits else estimate;
    if bits > options.maxRollingHashBits then options.maxRollingHashBits else bits
  }

  function CutRule(options: Options, table: SubTable, estimate: int, fileLength: nat): Chunker.Rule {
    Chunker.Rule(table, HashBits(options, estimate), Chunker.MinBlockSize(fileLength), options.maxBlockSize)
  }

  function CutBlocks(rule: Chunker.Rule, file: seq<byte>): seq<seq<byte>> {
    Chunker.Blocks(rule, WINDOW_SIZE, file)
  }

  /** What is kept of a file said to be this long: a small one is read to that length. */
  function FileBytes(options: Options, data: seq<byte>, fileLength: nat): seq<byte> {
    if fileLength < options.smallFileSize then data[..Min(fileLength, |data|)] else data
  }

  /** The blocks of a file: a small one is one block, even when empty. */
  function FileBlocks(options: Options, table: SubTable, estimate: int, data: seq<byte>,
                      fileLength: nat): seq<seq<byte>> {
    if fileLength < options.smallFileSize then [FileBytes(options, data, fileLength)]
    else CutBlocks(CutRule(options, table, estimate, fileLength), data)
  }

  lemma FileBlocksSpellFile(options: Options, table: SubTable, estimate: int, file: seq<byte>)
    requires (|file| + 65534) / 65535 < 0x8000_0000
    ensures var blocks := FileBlocks(options, table, estimate, file, |file|);
            Flatten(blocks) == file && |blocks| <= MAX_OBJECTS && (blocks == [] ==> file == [])
  {
    hide Chunker.Blocks;
    NothingFlattened();
    if |file| < options.smallFileSize {
      FlattenSnoc([], file);
      assert [] + [file] == [file] && [] + file == file;
    } else {
      Chunker.BlockBounds(CutRule(options, table, estimate, |file|), WINDOW_SIZE, file, |file|);
    }
  }

  /** The least block size from 4096 on of which 65535 cover so many bytes. */
  ghost predicate IsLeastSize(size: nat, fileLength: nat) {
    && size >= 4096 && 65535 * size >= fileLength
    && forall m: nat :: m >= 4096 && 65535 * m >= fileLength ==> m >= size
  }

  /** A small file is one block. A large one is cut, in the only way there is, where the hash of the
      last 8192 bytes rolled is divisible by 2^hashBits or the block has its maximum size, but in no
      block before the least size of which 65535 cover the file. */
  lemma FileBlocksByContent(options: Options, table: SubTable, estimate: int, file: seq<byte>, rule: Chunker.Rule,
                            blocks: seq<seq<byte>>)
    requires (|file| + 65534) / 65535 < 0x8000_0000
    requires rule.table == table && rule.maxBlockSize == options.maxBlockSize && IsLeastSize(rule.minBlockSize, |file|)
    requires rule.hashBits == Min(Max(estimate, options.minRollingHashBits), options.maxRollingHashBits)
    ensures |file| < options.smallFileSize ==> FileBlocks(options, table, estimate, file, |file|) == [file]
    ensures |file| >= options.smallFileSize ==>
      (blocks == FileBlocks(options, table, estimate, file, |file|)
       <==> Chunker.CutRightly(rule, seq(8192, _ => 0), blocks) && Flatten(blocks) == file)
  {
    hide Chunker.Blocks, Chunker.CutRightly, Flatten;
    assert file[..|file|] == file;
    Chunker.MinBlockLeast(|file|);
    assert rule == CutRule(options, table, estimate, |file|);
    assert Zeros(8192) == seq(8192, _ => 0);
    Chunker.BlocksByContent(rule, 8192, file);
    if Chunker.CutRightly(rule, Zeros(8192), blocks) && Flatten(blocks) == file {
      Chunker.OneWayToCut(rule, Zeros(8192), blocks, Chunker.Blocks(rule, 8192, file));
    }
  }

  /** No block is larger than the maximum, or than a size of which 65535 cover the file. */
  lemma FileBlocksBounded(options: Options, table: SubTable, estimate: int, file: seq<byte>, m: nat)
    requires |file| >= options.smallFileSize && (|file| + 65534) / 65535 < 0x8000_0000
    requires m >= 4096 && 65535 * m >= |file|
    ensures var blocks := FileBlocks(options, table, estimate, file, |file|);
            && (forall i :: 0 <= i < |blocks| ==> |blocks[i]| <= Max(m, options.maxBlockSize))
            && (forall i :: 0 <= i < |blocks| - 1 ==> |blocks[i]| >= 4096)
    ensures |file| <= 65535 * 4096 && options.maxBlockSize >= 4096 ==>
      var blocks := FileBlocks(options, table, estimate, file, |file|);
      forall i :: 0 <= i < |blocks| ==> |blocks[i]| <= options.maxBlockSize
  {
    hide Chunker.Blocks;
    Chunker.BlockBounds(CutRule(options, table, estimate, |file|), WINDOW_SIZE, file, |file|);
    Chunker.MinBlockLeast(|file|);
  }

  /** A file has no blocks exactly if it is empty and no file counts as small. */
  lemma NoBlocksExactly(options: Options, table: SubTable, estimate: int, file: seq<byte>)
    requires (|file| + 65534) / 65535 < 0x8000_0000
    ensures FileBlocks(options, table, estimate, file, |file|) == [] <==> file == [] && options.smallFileSize == 0
  {
    FileBlocksSpellFile(options, table, estimate, file);
    if file == [] && options.smallFileSize == 0 {
      var rule := CutRule(options, table, estimate, 0);
      assert Chunker.Steps(rule, Chunker.Start(WINDOW_SIZE), []) == Chunker.Start(WINDOW_SIZE);
    }
  }

  /** What a file's entry says beside what the caller gave; small files have no hash bits. */
  function FileMeta(options: Options, digest: seq<byte> -> seq<byte>, estimate: int, meta: Meta, ct: byte,
                    data: seq<byte>, fileLength: nat): Meta
    requires options.maxRollingHashBits < 31
  {
    meta.(compression := ct, size := fileLength,
          rollingHashBits := if fileLength < options.smallFileSize then 0 else HashBits(options, estimate),
          md5 := digest(FileBytes(options, data, fileLength)), offset := 0, packLength := 0)
  }

  /** Every file that is uploaded, committed with its snapshot and looked up after anything was
      done to the store but a commit to the same name comes back byte for byte; the exception is
      exactly an empty file where no file counts as small. */
  lemma FileComesBack(keys: Keys, u: iset<seq<byte>>, st: Store, snapshot: State, strs: seq<Str>,
                      options: Options, table: SubTable, estimate: int, file: seq<byte>, path: Str, meta: Meta,
                      name: string, later: seq<StoreOp>)
    requires keys.Lawful() && CollisionFree(keys, u) && Sound(keys, u, st.objects)
    requires Inv(snapshot, strs) && NewPath(snapshot.files, path) && |snapshot.objectIds| < 0x8000_0000
    requires Rejoins(path) && NoNul(path) && NoNul(meta.user) && NoNul(meta.group)
    requires meta.packLength == 0 && meta.compression <= LZMA2
    requires (|file| + 65534) / 65535 < 0x8000_0000 && NotCommitted(later, name)
    requires AllIn(u, meta.compression, FileBlocks(options, table, estimate, file, |file|))
    requires FitsAfter(keys, snapshot, path, meta, FileBlocks(options, table, estimate, file, |file|))
    ensures var blocks := FileBlocks(options, table, estimate, file, |file|);
            var added := AddFileEntry(snapshot, path, meta, BlockIds(keys, meta.compression, blocks));
            && added.Ok?
            && var st1 := UploadBlocks(keys, st, meta.compression, blocks);
               var end := StoreRun(keys, Commit(keys, st1, name, added.value), later).objects;
               var loaded := RepositoryModel.LoadSnapshot(keys, end, name);
               && loaded.Ok? && Find(loaded.value.files, LoadedKey(path)).Some?
               && IdsInRange(loaded.value, Find(loaded.value.files, LoadedKey(path)).value)
               && Download(keys, end, loaded.value, LoadedKey(path))
                  == if file == [] && options.smallFileSize == 0 then Err(Index(IndexOutOfBound)) else Ok(Some(file))
  {
    hide *;
    var blocks := FileBlocks(options, table, estimate, file, |file|);
    FileBlocksSpellFile(options, table, estimate, file);
    NoBlocksExactly(options, table, estimate, file);
    AddSucceeds(snapshot, path, meta, BlockIds(keys, meta.compression, blocks));
    FitsThen(keys, snapshot, path, meta, blocks);
    EndToEnd(keys, u, st, snapshot, strs, path, meta, blocks, name, later);
  }

  /** The snapshot still fits the format with the file's entry, if it is added at all. */
  ghost predicate FitsAfter(keys: Keys, snapshot: State, path: Str, meta: Meta, blocks: seq<seq<byte>>) {
    |blocks| <= MAX_OBJECTS ==> Fits(AddFileEntry(snapshot, path, meta, BlockIds(keys, meta.compression, blocks)).value)
  }

  lemma FitsThen(keys: Keys, snapshot: State, path: Str, meta: Meta, blocks: seq<seq<byte>>)
    requires FitsAfter(keys, snapshot, path, meta, blocks) && |blocks| <= MAX_OBJECTS
    ensures AddFileEntry(snapshot, path, meta, BlockIds(keys, meta.compression, blocks)).Ok?
    ensures Fits(AddFileEntry(snapshot, path, meta, BlockIds(keys, meta.compression, blocks)).value)
  {
    hide Fits;
  }

  lemma AddSucceeds(snapshot: State, path: Str, meta: Meta, ids: seq<ObjectId>)
    ensures AddFileEntry(snapshot, path, meta, ids).Ok? <==> |ids| <= MAX_OBJECTS
  {
  }

  // ----- the class -----

  class Repository {
    const keys: Keys
    const rollTable: SubTable
    const digest: seq<byte> -> seq<byte>
    const options: Options
    const dataStore: DataStore
    var drawn: nat

    ghost predicate Valid() {
      keys.Lawful() && options.maxRollingHashBits < 31
    }

    ghost function Store(): Store
      reads this, dataStore
    {
      RepositoryModel.Store(dataStore.objects, drawn)
    }

    constructor (dataStore: DataStore, keys: Keys, rollTable: SubTable, digest: seq<byte> -> seq<byte>,
                 options: Options)
      requires keys.Lawful() && options.maxRollingHashBits < 31
      ensures Valid() && Store() == RepositoryModel.Store(dataStore.objects, 0)
      ensures this.dataStore == dataStore && this.keys == keys && this.rollTable == rollTable
      ensures this.digest == digest && this.options == options
    {
      this.dataStore, this.keys, this.rollTable := dataStore, keys, rollTable;
      this.digest, this.options := digest, options;
      drawn := 0;
    }

    /** Repository::computeBlockHMAC. */
    method ComputeBlockHMAC(ct: byte, block: seq<byte>) returns (id: ObjectId)
      ensures id == BlockId(keys, ct, block) == keys.hash([ct] + block)
    {
      var message := [ct];
      message := message + block;
      id := keys.hash(message);
    }

    /** Seals data under a fresh initialisation vector and stores it. */
    method PutSealed(path: string, ct: byte, data: Source)
      requires Valid() && ct <= LZMA2 && data.Valid() && data.pos == 0
      modifies this`drawn, dataStore, data
      ensures Store() == RepositoryModel.Put(keys, old(Store()), path, ct, data.data)
      ensures drawn == old(drawn) + 1
      ensures dataStore.objects == old(dataStore.objects)[path := Seal(keys.codec, ct, keys.ivs(old(drawn)), data.data)]
    {
      hide Codec.Lawful, Seal;
      var encrypted := CompressEncryptHMAC(keys.codec, ct, keys.ivs(drawn), data);
      drawn := drawn + 1;
      var stream := encrypted.value;
      dataStore.Put(path, stream);
    }

    method CompressEncryptAndUploadBlock(ct: byte, objectId: ObjectId, block: seq<byte>)
      requires Valid() && ct <= LZMA2 && objectId == BlockId(keys, ct, block)
      modifies this`drawn, dataStore
      ensures Store() == UploadBlock(keys, old(Store()), ct, block)
      ensures var path := "/data/" + ObjectName(objectId);
              if path in old(dataStore.objects) then dataStore.objects == old(dataStore.objects) && drawn == old(drawn)
              else
                && dataStore.objects
                   == old(dataStore.objects)[path := Seal(keys.codec, ct, keys.ivs(old(drawn)), block)]
                && drawn == old(drawn) + 1
    {
      hide Seal, ObjectName, Keys.Lawful;
      var name := ObjectIdToString(objectId);
      var uploadPath := "/data/" + name;
      var found := dataStore.Exist(uploadPath);
      if found {
        return;
      }
      var blockStream := new Source(block, true);
      PutSealed(uploadPath, ct, blockStream);
    }

    /** The loop over a large file. */
    method UploadInBlocks(fileStream: Source, ct: byte, rule: Chunker.Rule)
        returns (ids: seq<ObjectId>, digested: seq<byte>)
      requires Valid() && ct <= LZMA2 && fileStream.Valid() && fileStream.pos == 0 && rule.table == rollTable
      requires rule.minBlockSize > 0
      modifies this`drawn, dataStore, fileStream`pos
      ensures var blocks := CutBlocks(rule, fileStream.data);
              && Store() == UploadBlocks(keys, old(Store()), ct, blocks)
              && ids == BlockIds(keys, ct, blocks)
      ensures digested == fileStream.data
    {
      hide *;
      ids, digested := [], [];
      var blockBuffer: seq<byte> := [];
      var rh := NewRollingHash(rule);
      var bufferedFile := new BufferedInputStream(fileStream);
      ghost var run := Chunker.Start(WINDOW_SIZE);
      StartOfRun(keys, Store(), ct, rule, fileStream.data);
      var done := bufferedFile.IsEof();
      while !done
        invariant bufferedFile.Valid() && At(rule, fileStream.data, bufferedFile.Position(), run)
        invariant done <==> bufferedFile.Position() == |fileStream.data|
        invariant InStep(rh, rule, run) && blockBuffer == run.buffer
        invariant Uploaded(keys, old(Store()), Store(), ct, run.blocks, ids, digested)
        invariant fresh(rh) && fresh(rh.window) && fresh(bufferedFile)
        decreases |fileStream.data| - bufferedFile.Position()
      {
        PositionInRange(rule, fileStream.data, bufferedFile.Position(), run);
        var b := bufferedFile.ReadByte();
        NextStep(rule, fileStream.data, bufferedFile.Position() - 1, run);
        ghost var before := run.blocks;
        var cut;
        run, blockBuffer, cut := Feed(rh, rule, run, blockBuffer, b);
        if cut {
          ids, digested := FinishBlock(old(Store()), before, ct, blockBuffer, ids, digested);
          blockBuffer := [];
        }
        done := bufferedFile.IsEof();
      }
      EndOfRun(rule, fileStream.data, run);
      if blockBuffer != [] {
        ids, digested := FinishBlock(old(Store()), run.blocks, ct, blockBuffer, ids, digested);
      }
      WhatWasUploaded(keys, old(Store()), Store(), ct, CutBlocks(rule, fileStream.data), ids, digested);
    }

    /** Hashes, digests and uploads one block. */
    method FinishBlock(ghost start: Store, ghost blocks: seq<seq<byte>>, ct: byte, block: seq<byte>,
                       ids: seq<ObjectId>, digested: seq<byte>)
        returns (ids': seq<ObjectId>, digested': seq<byte>)
      requires Valid() && ct <= LZMA2 && Uploaded(keys, start, Store(), ct, blocks, ids, digested)
      modifies this`drawn, dataStore
      ensures Uploaded(keys, start, Store(), ct, blocks + [block], ids', digested')
    {
      hide UploadBlock, BlockId, Keys.Lawful;
      digested' := digested + block;
      var objectId := ComputeBlockHMAC(ct, block);
      CompressEncryptAndUploadBlock(ct, objectId, block);
      ids' := ids + [objectId];
      UploadSnoc(keys, start, ct, blocks, block);
      FlattenSnoc(blocks, block);
    }

    /** Repository::uploadFile without a pack. The entry is added last; a file of too many blocks
        leaves its blocks in the store all the same. */
    method UploadFile(snapshot: Snapshot, path: Str, fileStream: Source, fileLength: nat, ct: byte, estimate: int,
                      meta: Meta)
        returns (r: Result<(), RepositoryModel.Failure>)
      requires Valid() && ct <= LZMA2 && fileStream.Valid() && fileStream.eager && fileStream.pos == 0
      modifies this`drawn, dataStore, fileStream`pos, snapshot
      ensures fileLength < options.smallFileSize && |fileStream.data| < fileLength ==>
                && r == Err(Index(SnapshotModel.Error.ShortRead))
                && Store() == old(Store()) && snapshot.Value() == old(snapshot.Value())
      ensures fileLength >= options.smallFileSize || |fileStream.data| >= fileLength ==>
                FileUploaded(path, fileStream.data, fileLength, ct, estimate, meta,
                             old(Store()), Store(), old(snapshot.Value()), snapshot.Value(), r)
    {
      hide Keys.Lawful, CutRule, CutBlocks, UploadBlocks, BlockIds, SnapshotModel.AddFileEntry;
      var objectIds: seq<ObjectId>, digested;
      var rollingHashBits: byte := 0;
      if fileLength < options.smallFileSize {
        var buffer := fileStream.Read(fileLength);
        if |buffer| != fileLength {
          return Err(Index(SnapshotModel.Error.ShortRead));
        }
        digested := buffer;
        assert buffer == FileBytes(options, fileStream.data, fileLength);
        NothingUploaded(keys, Store(), ct);
        objectIds, digested := FinishBlock(Store(), [], ct, buffer, [], []);
        WhatWasUploaded(keys, old(Store()), Store(), ct, [] + [buffer], objectIds, digested);
        OnePart(buffer);
      } else {
        rollingHashBits := HashBits(options, estimate);
        CutRuleTable(options, rollTable, estimate, fileLength);
        objectIds, digested := UploadInBlocks(fileStream, ct, CutRule(options, rollTable, estimate, fileLength));
      }
      var added := snapshot.AddFileEntry(path,
        meta.(compression := ct, size := fileLength, rollingHashBits := rollingHashBits, md5 := digest(digested),
              offset := 0, packLength := 0),
        objectIds);
      return match added case Ok(_) => Ok(()) case Err(e) => Err(Index(e));
    }

    /** The effect of an upload on the store and on the snapshot. */
    ghost predicate FileUploaded(path: Str, data: seq<byte>, fileLength: nat, ct: byte, estimate: int, meta: Meta,
                                 st: Store, st': Store, before: State, after: State,
                                 r: Result<(), RepositoryModel.Failure>)
      requires Valid()
    {
      var blocks := FileBlocks(options, rollTable, estimate, data, fileLength);
      && st' == UploadBlocks(keys, st, ct, blocks)
      && match SnapshotModel.AddFileEntry(before, path, FileMeta(options, digest, estimate, meta, ct, data, fileLength),
                                          BlockIds(keys, ct, blocks))
         case Ok(added) => r == Ok(()) && after == added
         case Err(e) => r == Err(Index(e)) && after == before
    }

    /** Repository::downloadFile; None when the snapshot has no such path. */
    method DownloadFile(snapshot: Snapshot, path: Str) returns (r: Result<Option<seq<byte>>, RepositoryModel.Failure>)
      requires Valid()
      requires Find(snapshot.files, path).Some? ==> IdsInRange(snapshot.Value(), Find(snapshot.files, path).value)
      ensures r == Download(keys, dataStore.objects, snapshot.Value(), path)
      ensures RightAnswer(keys, dataStore.objects, snapshot.Value(), path, r)
      ensures r == Ok(None) <==> Find(snapshot.files, path).None?
    {
      hide Find, Fetch, Keys.Lawful, DataPath, ToInt32, Open, Stops, Joins, AllOpen;
      DownloadAnswers(keys, dataStore.objects, snapshot.Value(), path);
      var entry := snapshot.GetFileEntry(path);
      if entry.None? {
        return Ok(None);
      }
      var fe := entry.value;
      var n := ToInt32(fe.objectIdIndex);
      if n < 0 || n >= |snapshot.objectIds| {
        return Err(Index(IndexOutOfBound));
      }
      var out: seq<byte> := [];
      ghost var ids := EntryIds(snapshot.Value(), fe);
      ghost var objects := dataStore.objects;
      for i := 0 to fe.objectCount
        invariant FetchAll(keys, objects, fe, ids[..i]) == Ok(out)
      {
        FetchNext(keys, objects, fe, ids, i);
        assert ids[i] == snapshot.objectIds[fe.objectIdIndex + i];
        var piece := FetchObject(fe, snapshot.objectIds[fe.objectIdIndex + i]);
        if piece.Err? {
          FetchFails(keys, objects, fe, ids, i + 1);
          return Err(piece.error);
        }
        out := out + piece.value;
      }
      assert ids[..fe.objectCount] == ids;
      return Ok(Some(out));
    }

    /** Fetches one object to a temporary stream and decodes it, or the range of it that the
        entry names. */
    method FetchObject(fe: FileEntry, id: ObjectId) returns (r: Result<seq<byte>, RepositoryModel.Failure>)
      requires Valid()
      ensures r == Fetch(keys, dataStore.objects, fe, id)
    {
      hide ObjectName, Open, Codec.Lawful, Fetch;
      FetchCases(keys, dataStore.objects, fe, id);
      var name := ObjectIdToString(id);
      var tmpStream := new TempFileStream();
      var got := dataStore.Get("/data/" + name, tmpStream);
      if got.Err? {
        return Err(NotFound);
      }
      var stored := dataStore.objects[DataPath(id)];
      assert [] + stored == stored;
      var downloadedStream := tmpStream.InputStream();
      var decoded;
      if fe.packLength > 0 {
        var rangeStream := new InputRangeStream(downloadedStream, fe.offset, fe.packLength);
        decoded := DecompressDecryptHMAC(keys.codec, fe.compression, Range(rangeStream), []);
      } else {
        decoded := DecompressDecryptHMAC(keys.codec, fe.compression, Plain(downloadedStream), []);
      }
      return match decoded case Ok(data) => Ok(data) case Err(e) => Err(Content(e));
    }

    /** Repository::commitSnapshot. */
    method CommitSnapshot(snapshot: Snapshot, name: string)
      requires Valid() && |snapshot.buffer| % 4 == 0
      modifies this`drawn, dataStore
      ensures Store() == Commit(keys, old(Store()), name, snapshot.Value())
      ensures drawn == old(drawn) + 1
      ensures dataStore.objects
           == old(dataStore.objects)["/snapshot/" + name :=
                Seal(keys.codec, 1, keys.ivs(old(drawn)), Saved(snapshot.Value()))]
    {
      hide Keys.Lawful, Saved, Seal;
      var tmpStream := new TempFileStream();
      snapshot.Save(tmpStream);
      assert [] + Saved(snapshot.Value()) == Saved(snapshot.Value());
      var stream := tmpStream.InputStream();
      PutSealed("/snapshot/" + name, LZMA2, stream);
    }

    /** Repository::loadSnapshot. */
    method LoadSnapshot(name: string) returns (r: Result<Snapshot, RepositoryModel.Failure>)
      requires Valid()
      ensures r.Ok? ==> fresh(r.value)
      ensures match RepositoryModel.LoadSnapshot(keys, dataStore.objects, name)
              case Ok(st) => r.Ok? && r.value.Value() == st
              case Err(e) => r == Err(e)
    {
      hide Codec.Lawful, Open, Loaded;
      var snapshot := new Snapshot();
      var tmpStream := new TempFileStream();
      var got := dataStore.Get("/snapshot/" + name, tmpStream);
      if got.Err? {
        return Err(NotFound);
      }
      var stored := dataStore.objects[SnapshotPath(name)];
      assert [] + stored == stored;
      var sealed := tmpStream.InputStream();
      var decoded := DecompressDecryptHMAC(keys.codec, LZMA2, Plain(sealed), []);
      assert forall s: seq<byte> :: [] + s == s;
      if decoded.Err? {
        return Err(Content(decoded.error));
      }
      var snapshotStream := new Source(decoded.value, true);
      assert snapshotStream.data[0..] == decoded.value;
      var loaded := snapshot.Load(snapshotStream);
      return match loaded case Ok(_) => Ok(snapshot) case Err(e) => Err(Index(e));
    }
  }

  /** After these blocks: the store, the ids collected and the bytes digested. */
  ghost predicate Uploaded(keys: Keys, start: Store, st: Store, ct: byte, blocks: seq<seq<byte>>, ids: seq<ObjectId>,
                           digested: seq<byte>) {
    st == UploadBlocks(keys, start, ct, blocks) && ids == BlockIds(keys, ct, blocks) && digested == Flatten(blocks)
  }

  lemma NothingUploaded(keys: Keys, st: Store, ct: byte)
    ensures Uploaded(keys, st, st, ct, [], [], [])
  {
    assert BlockIds(keys, ct, []) == [];
  }

  lemma CutRuleTable(options: Options, table: SubTable, estimate: int, fileLength: nat)
    ensures CutRule(options, table, estimate, fileLength).table == table
    ensures CutRule(options, table, estimate, fileLength).minBlockSize >= 4096
  {
  }

  lemma FetchNext(keys: Keys, objects: Objects, fe: FileEntry, ids: seq<ObjectId>, i: nat)
    requires i < |ids| && FetchAll(keys, objects, fe, ids[..i]).Ok?
    ensures FetchAll(keys, objects, fe, ids[..i + 1])
         == match Fetch(keys, objects, fe, ids[i])
            case Ok(data) => Ok(FetchAll(keys, objects, fe, ids[..i]).value + data)
            case Err(e) => Err(e)
  {
    hide Fetch;
    assert ids[..i + 1][..i] == ids[..i];
  }

  lemma {:induction false} FetchFails(keys: Keys, objects: Objects, fe: FileEntry, ids: seq<ObjectId>, i: nat)
    requires i <= |ids| && FetchAll(keys, objects, fe, ids[..i]).Err?
    ensures FetchAll(keys, objects, fe, ids) == FetchAll(keys, objects, fe, ids[..i])
    decreases |ids|
  {
    hide Fetch;
    if i == |ids| {
      assert ids[..i] == ids;
    } else {
      assert ids[..|ids| - 1][..i] == ids[..i];
      FetchFails(keys, objects, fe, ids[..|ids| - 1], i);
    }
  }

  lemma WhatWasUploaded(keys: Keys, start: Store, st: Store, ct: byte, blocks: seq<seq<byte>>, ids: seq<ObjectId>,
                        digested: seq<byte>)
    requires Uploaded(keys, start, st, ct, blocks, ids, digested)
    ensures st == UploadBlocks(keys, start, ct, blocks) && ids == BlockIds(keys, ct, blocks)
    ensures digested == Flatten(blocks)
  {
  }

  lemma StartOfRun(keys: Keys, st: Store, ct: byte, rule: Chunker.Rule, data: seq<byte>)
    ensures var run := Chunker.Start(WINDOW_SIZE);
            && run.window == Zeros(WINDOW_SIZE) && run.window != [] && run.buffer == [] && run.blocks == []
            && At(rule, data, 0, run) && Uploaded(keys, st, st, ct, [], [], [])
  {
    assert BlockIds(keys, ct, []) == [];
  }

  /** The run after the first n bytes of a file. */
  ghost predicate At(rule: Chunker.Rule, data: seq<byte>, n: int, run: Chunker.Run) {
    0 <= n <= |data| && run == Chunker.Steps(rule, Chunker.Start(WINDOW_SIZE), data[..n])
  }

  lemma PositionInRange(rule: Chunker.Rule, data: seq<byte>, n: int, run: Chunker.Run)
    requires At(rule, data, n, run)
    ensures 0 <= n <= |data| && run.window != []
  {
  }

  lemma NextStep(rule: Chunker.Rule, data: seq<byte>, n: int, run: Chunker.Run)
    requires At(rule, data, n, run) && n < |data|
    ensures run.window != [] && At(rule, data, n + 1, Chunker.Step(rule, run, data[n]))
  {
    hide Chunker.Step;
    assert data[..n + 1][..n] == data[..n];
  }

  /** The rolling hash holds the window of the run. */
  ghost predicate InStep(rh: RollingHash, rule: Chunker.Rule, run: Chunker.Run)
    reads rh, rh.window
  {
    rh.Valid() && rh.table == rule.table && rh.Window() == run.window && run.window != []
  }

  method NewRollingHash(rule: Chunker.Rule) returns (rh: RollingHash)
    ensures fresh(rh) && fresh(rh.window) && InStep(rh, rule, Chunker.Start(WINDOW_SIZE))
  {
    hide Wrap, WindowSum, Pow;
    rh := new RollingHash(rule.table, WINDOW_SIZE);
  }

  /** One byte into the block buffer, and into the hash once the block has its minimum size. */
  method Feed(rh: RollingHash, rule: Chunker.Rule, ghost run: Chunker.Run, blockBuffer: seq<byte>, b: byte)
      returns (ghost run': Chunker.Run, blockBuffer': seq<byte>, cut: bool)
    requires InStep(rh, rule, run) && blockBuffer == run.buffer
    modifies rh, rh.window
    ensures run' == Chunker.Step(rule, run, b) && InStep(rh, rule, run')
    ensures cut ==> run'.blocks == run.blocks + [blockBuffer'] && run'.buffer == []
    ensures !cut ==> run'.blocks == run.blocks && run'.buffer == blockBuffer'
  {
    hide Wrap, WindowSum, LowBits, Pow, Slide, Chunker.Step;
    blockBuffer' := blockBuffer + [b];
    run' := Chunker.Step(rule, run, b);
    cut := false;
    if |blockBuffer'| >= rule.minBlockSize {
      var h := rh.Roll(b);
      StepRolls(rule, run, b, h);
      cut := LowBits(h, rule.hashBits) == 0 || |blockBuffer'| >= rule.maxBlockSize;
    } else {
      StepFills(rule, run, b);
    }
  }

  lemma StepFills(rule: Chunker.Rule, r: Chunker.Run, b: byte)
    requires r.window != [] && |r.buffer| + 1 < rule.minBlockSize
    ensures Chunker.Step(rule, r, b) == Chunker.Run(r.blocks, r.window, r.buffer + [b])
  {
  }

  lemma StepRolls(rule: Chunker.Rule, r: Chunker.Run, b: byte, h: int)
    requires r.window != [] && |r.buffer| + 1 >= rule.minBlockSize
    requires h == Wrap(WindowSum(rule.table, Slide(r.window, b)))
    ensures Slide(r.window, b) != []
    ensures Chunker.Step(rule, r, b)
         == if LowBits(h, rule.hashBits) == 0 || |r.buffer| + 1 >= rule.maxBlockSize
            then Chunker.Run(r.blocks + [r.buffer + [b]], Slide(r.window, b), [])
            else Chunker.Run(r.blocks, Slide(r.window, b), r.buffer + [b])
  {
  }

  lemma EndOfRun(rule: Chunker.Rule, data: seq<byte>, run: Chunker.Run)
    requires rule.minBlockSize > 0 && At(rule, data, |data|, run)
    ensures var blocks := CutBlocks(rule, data);
            && blocks == (if run.buffer == [] then run.blocks else run.blocks + [run.buffer])
            && Flatten(blocks) == data
  {
    assert data[..|data|] == data;
    hide Chunker.Steps, Flatten;
    Chunker.StepsSound(rule, WINDOW_SIZE, data);
    FlattenSnoc(run.blocks, run.buffer);
    assert Flatten(run.blocks) + [] == Flatten(run.blocks);
  }

  /** An upload of a whole file that is accepted is one step of a backup. */
  lemma UploadIsStep(repo: Repository, path: Str, data: seq<byte>, ct: byte, estimate: int, meta: Meta,
                     st: Store, st': Store, before: State, after: State)
    requires repo.Valid()
    requires repo.FileUploaded(path, data, |data|, ct, estimate, meta, st, st', before, after, Ok(()))
    ensures var op := Blocks(path, FileMeta(repo.options, repo.digest, estimate, meta, ct, data, |data|),
                             FileBlocks(repo.options, repo.rollTable, estimate, data, |data|));
            Backup(st', after) == BackupStep(repo.keys, Backup(st, before), op)
  {
    hide Keys.Lawful, CutRule, CutBlocks, UploadBlocks, BlockIds, SnapshotModel.AddFileEntry;
  }

  /** After an accepted upload under a new path the entry found there says what the caller said, the
      length given, the digest of what was read, the hash width, and where its own ids are. Of a small
      file as much is read as was given for its length, and that is its only block. */
  lemma UploadedEntry(repo: Repository, path: Str, data: seq<byte>, length: nat, ct: byte, estimate: int, meta: Meta,
                      st: Store, st': Store, before: State, strs: seq<Str>, after: State)
    requires repo.Valid() && Inv(before, strs) && Find(before.files, path).None?
    requires NoNul(path) && NoNul(meta.user) && NoNul(meta.group)
    requires repo.FileUploaded(path, data, length, ct, estimate, meta, st, st', before, after, Ok(()))
    ensures Find(after.files, path).Some?
    ensures var fe, options := Find(after.files, path).value, repo.options;
            && fe.size == length && fe.compression == ct
            && fe.md5 == repo.digest(if length < options.smallFileSize && length < |data| then data[..length] else data)
            && fe.mode == meta.mode && fe.mtime == meta.mtime && fe.fileType == meta.fileType
            && Spells(after, fe.userIndex, meta.user) && Spells(after, fe.groupIndex, meta.group)
            && Spells(after, fe.nameIndex, FileName(path)) && Spells(after, fe.pathIndex, ParentPath(path))
            && fe.rollingHashBits
               == (if length < options.smallFileSize then 0
                   else Min(Max(estimate, options.minRollingHashBits), options.maxRollingHashBits))
            && fe.offset == 0 && fe.packLength == 0 && fe.objectIdIndex + fe.objectCount <= |after.objectIds|
            && EntryIds(after, fe)
               == BlockIds(repo.keys, ct, FileBlocks(repo.options, repo.rollTable, estimate, data, length))
            && (length < options.smallFileSize && length <= |data| ==>
                  EntryIds(after, fe) == BlockIds(repo.keys, ct, [data[..length]]))
  {
    hide Inv, Keys.Lawful, CutRule, CutBlocks, UploadBlocks, BlockIds, SnapshotModel.AddFileEntry, Spells, Find;
    hide NoNul, FileName, ParentPath;
    var file := FileMeta(repo.options, repo.digest, estimate, meta, ct, data, length);
    var ids := BlockIds(repo.keys, ct, FileBlocks(repo.options, repo.rollTable, estimate, data, length));
    AddSucceeds(before, path, file, ids);
    AddedEntrySays(before, strs, path, file, ids);
    assert data[..|data|] == data;
  }

  /** A file uploaded, its snapshot committed and loaded again, and the file downloaded: its bytes. */
  method BackUpAndRestore(repo: Repository, snapshot: Snapshot, path: Str, fileStream: Source, ct: byte, estimate: int,
                          meta: Meta, name: string, ghost u: iset<seq<byte>>, ghost strs: seq<Str>)
      returns (r: Result<Option<seq<byte>>, RepositoryModel.Failure>)
    requires repo.Valid() && ct <= LZMA2 && fileStream.Valid() && fileStream.eager && fileStream.pos == 0
    requires CollisionFree(repo.keys, u) && Sound(repo.keys, u, repo.dataStore.objects)
    requires Inv(snapshot.Value(), strs) && NewPath(snapshot.files, path) && |snapshot.objectIds| < 0x8000_0000
    requires Rejoins(path) && NoNul(path) && NoNul(meta.user) && NoNul(meta.group)
    requires (|fileStream.data| + 65534) / 65535 < 0x8000_0000
    requires var data := fileStream.data;
             var blocks := FileBlocks(repo.options, repo.rollTable, estimate, data, |data|);
             && AllIn(u, ct, blocks)
             && FitsAfter(repo.keys, snapshot.Value(), path,
                          FileMeta(repo.options, repo.digest, estimate, meta, ct, data, |data|), blocks)
    modifies repo`drawn, repo.dataStore, fileStream`pos, snapshot
    ensures r == if fileStream.data == [] && repo.options.smallFileSize == 0 then Err(Index(IndexOutOfBound))
                 else Ok(Some(fileStream.data))
  {
    hide Keys.Lawful, CollisionFree, Sound, Inv, NewPath, NoNul, FileBlocks, AllIn, FitsAfter, UploadBlocks, BlockIds;
    hide SnapshotModel.AddFileEntry, Commit, RepositoryModel.LoadSnapshot, Download, Find, LoadedKey;
    ghost var data := fileStream.data;
    ghost var file := FileMeta(repo.options, repo.digest, estimate, meta, ct, data, |data|);
    ghost var before, st := snapshot.Value(), repo.Store();
    FileComesBack(repo.keys, u, st, before, strs, repo.options, repo.rollTable, estimate, data, path, file, name, []);
    ghost var blocks := FileBlocks(repo.options, repo.rollTable, estimate, data, |data|);
    ghost var added := SnapshotModel.AddFileEntry(before, path, file, BlockIds(repo.keys, ct, blocks));
    AddedAligned(before, strs, path, file, BlockIds(repo.keys, ct, blocks));
    var uploaded := repo.UploadFile(snapshot, path, fileStream, |fileStream.data|, ct, estimate, meta);
    assert snapshot.Value() == added.value;
    repo.CommitSnapshot(snapshot, name);
    var loaded := repo.LoadSnapshot(name);
    r := repo.DownloadFile(loaded.value, LoadedKey(path));
  }

  lemma AddedAligned(st: State, strs: seq<Str>, path: Str, meta: Meta, ids: seq<ObjectId>)
    requires Inv(st, strs) && SnapshotModel.AddFileEntry(st, path, meta, ids).Ok?
    requires Rejoins(path) && NoNul(path) && NoNul(meta.user) && NoNul(meta.group)
    ensures |SnapshotModel.AddFileEntry(st, path, meta, ids).value.buffer| % 4 == 0
  {
    hide InsertString, StrsAfterAdd, Interned, EntryOk, NoNul;
    AddSucceeds(st, path, meta, ids);
    AddKeepsInv(st, strs, path, meta, ids);
    LayoutAligned(StrsAfterAdd(st, strs, path, meta));
  }
}
