/** Collecting small files into packs, writing the packs out, and the loop of a whole backup. */
module Packs {
  import opened Arithmetic
  import opened Bytes
  import opened Rolling
  import opened Streams
  import opened CipherStreams
  import opened Envelope
  import opened Base32
  import opened OrderedMap
  import opened StringTable
  import opened Paths
  import opened SnapshotModel
  import opened SnapshotFormat
  import opened SnapshotStore
  import opened RepositoryModel
  import opened BackupEngine
  import opened PackModel
  import opened BackupRuns

  const MARK_BITS := 20

  /** A file's entry in the making: its offset is not yet final and its pack length not set. */
  datatype PackInfo = PackInfo(path: seq<byte>, meta: Meta)

  function Zip(infos: seq<PackInfo>, data: seq<seq<byte>>): (files: seq<PackFile>)
    requires |infos| == |data|
    ensures |files| == |infos|
  {
    seq(|infos|, k requires 0 <= k < |infos| => PackFile(infos[k].path, infos[k].meta, data[k]))
  }

  /** Whether some byte of the data, rolled after the window, leaves the hash's low bits zero. */
  predicate Marks(table: SubTable, window: seq<byte>, data: seq<byte>)
    requires window != []
  {
    data != []
    && (Marks(table, window, data[..|data| - 1])
        || LowBits(Wrap(WindowSum(table, SlideAll(window, data))), MARK_BITS) == 0)
  }

  class PackUploadState {
    var hmac: seq<byte>
    var fileInfos: seq<PackInfo>
    var packData: seq<seq<byte>>
    var rollingHash: RollingHash?

    ghost predicate Valid()
      reads this, rollingHash, if rollingHash == null then {} else {rollingHash.window}
    {
      && |fileInfos| == |packData|
      && (rollingHash == null <==> fileInfos == [])
      && (rollingHash != null ==>
            rollingHash.Valid() && rollingHash.windowSize == WINDOW_SIZE && hmac == PackMessage(Files()))
    }

    ghost function Files(): seq<PackFile>
      requires |fileInfos| == |packData|
      reads this
    {
      Zip(fileInfos, packData)
    }

    /** The last bytes rolled: none are remembered across packs. */
    ghost function Window(): (w: seq<byte>)
      requires Valid()
      reads this, rollingHash, if rollingHash == null then {} else {rollingHash.window}
      ensures |w| == 8192
    {
      if rollingHash == null then Zeros(WINDOW_SIZE) else rollingHash.Window()
    }

    constructor ()
      ensures Valid() && rollingHash == null
    {
      hmac, fileInfos, packData, rollingHash := [], [], [], null;
    }

    /** PackUploadState::addFile. `garbage` is what memory held where the pack length will be. */
    method AddFile(data: seq<byte>, path: seq<byte>, meta: Meta, garbage: nat)
      requires |fileInfos| == |packData|
      modifies this`hmac, this`fileInfos, this`packData
      ensures hmac == old(hmac) + data && |fileInfos| == |packData|
      ensures Files() == old(Files()) + [PackFile(path, meta.(offset := |old(packData)|, packLength := garbage), data)]
    {
      hmac := hmac + data;
      fileInfos := fileInfos + [PackInfo(path, meta.(offset := |packData|, packLength := garbage))];
      packData := packData + [data];
    }

    /** Takes a file in; the data goes into the hash before the file is added, and again then. */
    method Take(table: SubTable, digest: seq<byte> -> seq<byte>, f: SmallFile) returns (writePack: bool)
      requires Valid() && (rollingHash != null ==> rollingHash.table == table)
      modifies this, rollingHash, if rollingHash == null then {} else {rollingHash.window}
      ensures Valid() && rollingHash != null && rollingHash.table == table
      ensures rollingHash == old(rollingHash) || (fresh(rollingHash) && fresh(rollingHash.window))
      ensures Files() == old(Files()) + [PackedFile(digest, f, |old(Files())|)]
      ensures Window() == SlideAll(old(Window()), f.data)
      ensures writePack <==> Marks(table, old(Window()), f.data)
    {
      hide PackMessage, Marks, SlideAll, Wrap, WindowSum, Pow;
      if rollingHash == null {
        rollingHash := new RollingHash(table, WINDOW_SIZE);
        hmac := [];
        NoFilesYet();
      }
      ghost var before := Files();
      hmac := hmac + f.data;
      writePack := RollFile(rollingHash, f.data);
      AddFile(f.data, f.path,
              f.meta.(compression := f.ct, size := |f.data|, rollingHashBits := 0, md5 := digest(f.data),
                      offset := 0, packLength := 0),
              f.garbage);
      OneMoreFile(before, Files()[|before|]);
    }
  }

  lemma AddOffsets(parts: seq<seq<byte>>, k: nat)
    requires k < |parts|
    ensures (|Flatten(parts[..k])| % TWO_TO_THE_32 + |parts[k]| % TWO_TO_THE_32) % TWO_TO_THE_32
         == |Flatten(parts[..k + 1])| % TWO_TO_THE_32
  {
    hide Flatten;
    FlattenSpan(parts, k);
    AddWrapped(|Flatten(parts[..k])|, |parts[k]|);
  }

  lemma AddWrapped(a: nat, b: nat)
    ensures (a % TWO_TO_THE_32 + b % TWO_TO_THE_32) % TWO_TO_THE_32 == (a + b) % TWO_TO_THE_32
  {
  }

  lemma NextPlaced(sealed: seq<seq<byte>>, files: seq<PackFile>, placed: seq<PackFile>, k: nat)
    requires |sealed| == |files| && k < |files| && placed == PlacedFiles(sealed, files)[..k]
    ensures placed + [Placed(sealed, files[k], k)] == PlacedFiles(sealed, files)[..k + 1]
  {
  }

  lemma NextContents(streams: seq<Source>, s: Source, sealed: seq<seq<byte>>, k: nat)
    requires k < |sealed| && Contents(streams) == sealed[..k] && s.data == sealed[k]
    ensures Contents(streams + [s]) == sealed[..k + 1]
  {
    assert Contents(streams + [s]) == Contents(streams) + [s.data];
  }

  /** The streams of a new pack, and its files with their places. */
  method SealFiles(repo: Repository, files: seq<PackFile>) returns (streams: seq<Source>, placed: seq<PackFile>)
    requires repo.Valid() && LawfulFiles(files)
    modifies repo`drawn
    ensures repo.drawn == old(repo.drawn) + |files|
    ensures Contents(streams) == SealedFiles(repo.keys, old(repo.drawn), files)
    ensures placed == PlacedFiles(SealedFiles(repo.keys, old(repo.drawn), files), files)
    ensures forall k :: 0 <= k < |streams| ==> fresh(streams[k]) && streams[k].Valid() && streams[k].pos == 0
    ensures forall j, k :: 0 <= j < k < |streams| ==> streams[j] != streams[k]
  {
    hide Seal, Flatten, Contents, PlacedFiles, Codec.Lawful;
    ghost var sealed := SealedFiles(repo.keys, repo.drawn, files);
    streams, placed := [], [];
    var offset := 0;
    StartPlacing(sealed, files);
    for i := 0 to |files|
      invariant repo.drawn == old(repo.drawn) + i && offset == |Flatten(sealed[..i])| % TWO_TO_THE_32
      invariant |streams| == i && Contents(streams) == sealed[..i] && placed == PlacedFiles(sealed, files)[..i]
      invariant forall k :: 0 <= k < |streams| ==> fresh(streams[k]) && streams[k].Valid() && streams[k].pos == 0
      invariant forall j, k :: 0 <= j < k < |streams| ==> streams[j] != streams[k]
    {
      var stream := SealOne(repo, files[i]);
      assert stream.data == sealed[i];
      NextContents(streams, stream, sealed, i);
      streams := streams + [stream];
      var fi := files[i];
      var packLength := |stream.data| % TWO_TO_THE_32;
      NextPlaced(sealed, files, placed, i);
      placed := placed + [fi.(meta := fi.meta.(offset := offset, packLength := packLength))];
      AddOffsets(sealed, i);
      offset := (offset + packLength) % TWO_TO_THE_32;
    }
    assert sealed[..|files|] == sealed && PlacedFiles(sealed, files)[..|files|] == PlacedFiles(sealed, files);
  }

  lemma StartPlacing(sealed: seq<seq<byte>>, files: seq<PackFile>)
    requires |sealed| == |files|
    ensures |Flatten(sealed[..0])| == 0 && Contents([]) == sealed[..0] && PlacedFiles(sealed, files)[..0] == []
  {
  }

  method SealOne(repo: Repository, f: PackFile) returns (s: Source)
    requires repo.Valid() && f.meta.compression <= LZMA2
    modifies repo`drawn
    ensures repo.drawn == old(repo.drawn) + 1 && fresh(s) && s.Valid() && s.pos == 0
    ensures s.data == Seal(repo.keys.codec, f.meta.compression, repo.keys.ivs(old(repo.drawn)), f.data)
  {
    hide Seal, Codec.Lawful;
    var stream := new Source(f.data, true);
    var encryptedStream := CompressEncryptHMAC(repo.keys.codec, f.meta.compression, repo.keys.ivs(repo.drawn), stream);
    repo.drawn := repo.drawn + 1;
    s := encryptedStream.value.View();
  }

  /** Repository::finalizePack. */
  method FinalizePack(repo: Repository, snapshot: Snapshot, pack: PackUploadState)
    requires repo.Valid() && pack.Valid() && LawfulFiles(pack.Files())
    modifies repo`drawn, repo.dataStore, snapshot, pack
    ensures pack.Valid() && pack.rollingHash == null
    ensures old(pack.rollingHash) == null ==>
      repo.Store() == old(repo.Store()) && snapshot.Value() == old(snapshot.Value())
    ensures old(pack.rollingHash) != null ==>
      Backup(repo.Store(), snapshot.Value())
      == BackupStep(repo.keys, Backup(old(repo.Store()), old(snapshot.Value())), BackupOp.Pack(old(pack.Files())))
  {
    hide Keys.Lawful, PackMessage, PlacedFiles, SealedFiles, WithEntries, ObjectName, Flatten, Contents, BackupStep;
    PackStep(repo.keys, Backup(repo.Store(), snapshot.Value()), pack.Files());
    if pack.rollingHash == null {
      return;
    }
    var files := Zip(pack.fileInfos, pack.packData);
    var objectId := repo.keys.hash(pack.hmac);
    var name := ObjectIdToString(objectId);
    var objPath := "/data/" + name;
    var found := repo.dataStore.Exist(objPath);
    var entered := files;
    if !found {
      var streams;
      streams, entered := SealFiles(repo, files);
      var multiStream := new MultiInputStream(streams);
      repo.dataStore.Put(objPath, multiStream);
    }
    EnterFiles(snapshot, entered, objectId);
    pack.fileInfos, pack.packData, pack.rollingHash := [], [], null;
  }

  lemma PackStep(keys: Keys, b: Backup, files: seq<PackFile>)
    ensures BackupStep(keys, b, BackupOp.Pack(files))
         == Backup(PackStore(keys, b.store, files),
                   WithEntries(b.snapshot, Entered(keys, b.store, files), keys.hash(PackMessage(files))))
  {
    hide PackStore, WithEntries, Entered, PackMessage;
  }

  method EnterFiles(snapshot: Snapshot, files: seq<PackFile>, id: ObjectId)
    modifies snapshot
    ensures snapshot.Value() == WithEntries(old(snapshot.Value()), files, id)
  {
    hide SnapshotModel.AddFileEntry;
    for i := 0 to |files|
      invariant snapshot.Value() == WithEntries(old(snapshot.Value()), files[..i], id)
    {
      assert files[..i + 1][..i] == files[..i];
      var _ := snapshot.AddFileEntry(files[i].path, files[i].meta, [id]);
    }
    assert files[..|files|] == files;
  }

  /** Rolls a file's bytes; whether any of them marks the end of a pack. */
  method RollFile(rh: RollingHash, data: seq<byte>) returns (writePack: bool)
    requires rh.Valid()
    modifies rh`index, rh`hash, rh.window
    ensures rh.Valid() && rh.Window() == SlideAll(old(rh.Window()), data)
    ensures writePack <==> Marks(rh.table, old(rh.Window()), data)
  {
    hide WindowSum, Wrap, Pow, LowBits, Slide;
    writePack := false;
    for i := 0 to |data|
      invariant rh.Valid() && rh.Window() == SlideAll(old(rh.Window()), data[..i])
      invariant writePack <==> Marks(rh.table, old(rh.Window()), data[..i])
    {
      assert data[..i + 1][..i] == data[..i];
      var h := rh.Roll(data[i]);
      if LowBits(h, MARK_BITS) == 0 {
        writePack := true;
      }
    }
    assert data[..|data|] == data;
  }

  /** A file marks the end of a pack exactly if, after some byte of it, the hash of the last bytes
      rolled is divisible by 2^20. */
  lemma {:induction false} MarksExactly(table: SubTable, window: seq<byte>, data: seq<byte>)
    requires window != []
    ensures Marks(table, window, data)
       <==> exists k :: 0 < k <= |data| && WindowSum(table, (window + data[..k])[k..]) % 0x10_0000 == 0
    decreases |data|
  {
    hide WindowSum, SlideAll, LowBits, Wrap, Pow;
    if data != [] {
      var front := data[..|data| - 1];
      MarksExactly(table, window, front);
      assert forall k :: 0 < k <= |front| ==> front[..k] == data[..k];
      assert data[..|data|] == data;
      SlideAllIsSuffix(window, data);
      ByteMarks(WindowSum(table, SlideAll(window, data)));
    }
  }

  lemma ByteMarks(sum: int)
    ensures LowBits(Wrap(sum), MARK_BITS) == 0 <==> sum % 0x10_0000 == 0
  {
    hide LowBits, Wrap, Pow;
    LowBitsIsRemainder(Wrap(sum), 20);
    WrapIsRemainder(sum);
    TwoToThe20();
    SameRemainder(sum);
  }

  lemma TwoToThe20()
    ensures Pow(2, 20) == 0x10_0000
  {
    assert Pow(2, 5) == 32;
    assert Pow(2, 10) == 1024;
    assert Pow(2, 15) == 32768;
  }

  lemma SameRemainder(sum: int)
    ensures sum % 0x1_0000_0000_0000_0000 % 0x10_0000 == sum % 0x10_0000
  {
    var q, r := sum / 0x1_0000_0000_0000_0000, sum % 0x1_0000_0000_0000_0000;
    DivideShifted(q * 0x1000_0000_0000 + r / 0x10_0000, 0x10_0000, r % 0x10_0000);
  }

  lemma OneMoreFile(files: seq<PackFile>, f: PackFile)
    ensures PackMessage(files + [f]) == PackMessage(files) + f.data + f.data
  {
    assert (files + [f])[..|files|] == files;
  }

  /** A small file on its way into a pack, and what memory will hold where its pack length goes. */
  datatype SmallFile = SmallFile(path: seq<byte>, data: seq<byte>, ct: byte, meta: Meta, garbage: nat)

  /** The file as a pack takes it in. */
  function PackedFile(digest: seq<byte> -> seq<byte>, f: SmallFile, offset: nat): PackFile {
    PackFile(f.path,
             f.meta.(compression := f.ct, size := |f.data|, rollingHashBits := 0, md5 := digest(f.data),
                     offset := offset, packLength := f.garbage),
             f.data)
  }

  /** Repository::uploadFile of a small file into a pack. */
  method UploadSmallFile(repo: Repository, snapshot: Snapshot, pack: PackUploadState, path: seq<byte>,
                         fileStream: Source, fileLength: nat, ct: byte, meta: Meta, garbage: nat)
      returns (r: Result<(), RepositoryModel.Failure>)
    requires repo.Valid() && pack.Valid() && LawfulFiles(pack.Files()) && ct <= LZMA2
    requires fileLength < repo.options.smallFileSize && fileStream.Valid() && fileStream.eager && fileStream.pos == 0
    requires pack.rollingHash != null ==> pack.rollingHash.table == repo.rollTable
    modifies repo`drawn, repo.dataStore, snapshot, pack, fileStream`pos
    modifies pack.rollingHash, if pack.rollingHash == null then {} else {pack.rollingHash.window}
    ensures pack.Valid() && LawfulFiles(pack.Files())
    ensures pack.rollingHash != null ==> pack.rollingHash.table == repo.rollTable
    ensures pack.rollingHash != null ==>
      pack.rollingHash == old(pack.rollingHash) || (fresh(pack.rollingHash) && fresh(pack.rollingHash.window))
    ensures |fileStream.data| < fileLength ==>
      && r == Err(Index(SnapshotModel.Error.ShortRead))
      && repo.Store() == old(repo.Store()) && snapshot.Value() == old(snapshot.Value())
      && pack.Files() == old(pack.Files()) && pack.Window() == old(pack.Window())
    ensures |fileStream.data| >= fileLength ==>
      var file := SmallFile(path, fileStream.data[..fileLength], ct, meta, garbage);
      && r == Ok(())
      && Took(repo, snapshot, pack, file,
              old(repo.Store()), old(snapshot.Value()), old(pack.Files()), old(pack.Window()))
  {
    hide Keys.Lawful, PackMessage, Marks, SlideAll, Wrap, WindowSum, Pow, BackupStep;
    var buffer := fileStream.Read(fileLength);
    if |buffer| != fileLength {
      return Err(Index(SnapshotModel.Error.ShortRead));
    }
    var writePack := pack.Take(repo.rollTable, repo.digest, SmallFile(path, buffer, ct, meta, garbage));
    if writePack {
      FinalizePack(repo, snapshot, pack);
    }
    return Ok(());
  }

  /** What taking in a file makes of store, snapshot and pack: the pack is finalised if the file
      marks its end, and grows otherwise. */
  ghost predicate Took(repo: Repository, snapshot: Snapshot, pack: PackUploadState, f: SmallFile,
                       st: Store, before: State, files: seq<PackFile>, window: seq<byte>)
    requires pack.Valid() && window != []
    reads repo, repo.dataStore, snapshot, pack, pack.rollingHash
    reads if pack.rollingHash == null then {} else {pack.rollingHash.window}
  {
    var now, all := Backup(repo.Store(), snapshot.Value()), files + [PackedFile(repo.digest, f, |files|)];
    if Marks(repo.rollTable, window, f.data) then
      pack.rollingHash == null && now == BackupStep(repo.keys, Backup(st, before), BackupOp.Pack(all))
    else
      && pack.rollingHash != null && now == Backup(st, before)
      && pack.Files() == all && pack.Window() == SlideAll(window, f.data)
  }

  lemma NoFilesYet()
    ensures PackMessage([]) == []
  {
  }

  // ----- the backup loop -----

  /** A file on disk: where it goes, its bytes, and what the program makes up for it. */
  datatype LocalFile = LocalFile(path: seq<byte>, data: seq<byte>, ct: byte, estimate: int, meta: Meta, garbage: nat)

  function Small(f: LocalFile): SmallFile {
    SmallFile(f.path, f.data, f.ct, f.meta, f.garbage)
  }

  function BlocksOf(options: Options, digest: seq<byte> -> seq<byte>, table: SubTable, f: LocalFile): BackupOp
    requires options.maxRollingHashBits < 31
  {
    Blocks(f.path, FileMeta(options, digest, f.estimate, f.meta, f.ct, f.data, |f.data|),
           FileBlocks(options, table, f.estimate, f.data, |f.data|))
  }

  /** The steps that uploading a list of files comes to, and finalising the pack at its end: a
      large file is one step of its own, small files go on filling one pack meanwhile. */
  function UploadOps(options: Options, digest: seq<byte> -> seq<byte>, table: SubTable, window: seq<byte>,
                     pending: seq<PackFile>, files: seq<LocalFile>): seq<BackupOp>
    requires window != [] && options.maxRollingHashBits < 31
    decreases |files|
  {
    if files == [] then if pending == [] then [] else [BackupOp.Pack(pending)]
    else
      var f, rest := files[0], files[1..];
      if |f.data| >= options.smallFileSize then
        [BlocksOf(options, digest, table, f)] + UploadOps(options, digest, table, window, pending, rest)
      else
        var p := pending + [PackedFile(digest, Small(f), |pending|)];
        if Marks(table, window, f.data) then
          [BackupOp.Pack(p)] + UploadOps(options, digest, table, Zeros(WINDOW_SIZE), [], rest)
        else UploadOps(options, digest, table, SlideAll(window, f.data), p, rest)
  }

  lemma {:induction false} RunAppend(keys: Keys, b: Backup, a: seq<BackupOp>, c: seq<BackupOp>)
    ensures BackupRun(keys, b, a + c) == BackupRun(keys, BackupRun(keys, b, a), c)
    decreases |c|
  {
    hide BackupStep;
    if c == [] {
      assert a + c == a;
    } else {
      assert (a + c)[..|a + c| - 1] == a + c[..|c| - 1];
      RunAppend(keys, b, a, c[..|c| - 1]);
    }
  }

  lemma RunOne(keys: Keys, b: Backup, op: BackupOp, rest: seq<BackupOp>)
    ensures BackupRun(keys, b, [op]) == BackupStep(keys, b, op)
    ensures BackupRun(keys, b, [op] + rest) == BackupRun(keys, BackupStep(keys, b, op), rest)
  {
    hide BackupStep;
    RunAppend(keys, b, [op], rest);
    assert [op][..0] == [];
    assert BackupRun(keys, b, [op][..0]) == b;
  }

  lemma NothingRun(keys: Keys, b: Backup)
    ensures BackupRun(keys, b, []) == b
  {
  }

  /** What is left of the run once the first file has been taken in. */
  lemma TakeOne(repo: Repository, b: Backup, window: seq<byte>, pending: seq<PackFile>, files: seq<LocalFile>)
    requires window != [] && files != [] && repo.Valid()
    ensures var f, digest, table, options := files[0], repo.digest, repo.rollTable, repo.options;
            var p := pending + [PackedFile(digest, Small(f), |pending|)];
            BackupRun(repo.keys, b, UploadOps(options, digest, table, window, pending, files))
            == if |f.data| >= options.smallFileSize
               then BackupRun(repo.keys, BackupStep(repo.keys, b, BlocksOf(options, digest, table, f)),
                              UploadOps(options, digest, table, window, pending, files[1..]))
               else if Marks(table, window, f.data)
               then BackupRun(repo.keys, BackupStep(repo.keys, b, BackupOp.Pack(p)),
                              UploadOps(options, digest, table, Zeros(WINDOW_SIZE), [], files[1..]))
               else BackupRun(repo.keys, b,
                              UploadOps(options, digest, table, SlideAll(window, f.data), p, files[1..]))
  {
    hide Marks, SlideAll, BackupStep, BackupRun, Keys.Lawful, BlocksOf, PackedFile;
    var f, digest, table, options := files[0], repo.digest, repo.rollTable, repo.options;
    var p := pending + [PackedFile(digest, Small(f), |pending|)];
    RunOne(repo.keys, b, BlocksOf(options, digest, table, f),
           UploadOps(options, digest, table, window, pending, files[1..]));
    RunOne(repo.keys, b, BackupOp.Pack(p), UploadOps(options, digest, table, Zeros(WINDOW_SIZE), [], files[1..]));
  }

  lemma TakeNone(repo: Repository, b: Backup, window: seq<byte>, pending: seq<PackFile>)
    requires window != [] && repo.Valid()
    ensures BackupRun(repo.keys, b, UploadOps(repo.options, repo.digest, repo.rollTable, window, pending, []))
         == if pending == [] then b else BackupStep(repo.keys, b, BackupOp.Pack(pending))
  {
    hide BackupStep, BackupRun, Keys.Lawful;
    NothingRun(repo.keys, b);
    RunOne(repo.keys, b, BackupOp.Pack(pending), []);
  }

  /** A compression type that exists, and a size whose block count does not overflow. */
  predicate Manageable(f: LocalFile) {
    f.ct <= LZMA2 && (|f.data| + 65534) / 65535 < 0x8000_0000
  }

  predicate AllManageable(files: seq<LocalFile>) {
    forall k :: 0 <= k < |files| ==> Manageable(files[k])
  }

  /** Repository::uploadFile of a large file: one step of the backup. */
  method UploadLargeFile(repo: Repository, snapshot: Snapshot, f: LocalFile)
    requires repo.Valid() && Manageable(f) && |f.data| >= repo.options.smallFileSize
    modifies repo`drawn, repo.dataStore, snapshot
    ensures Backup(repo.Store(), snapshot.Value())
         == BackupStep(repo.keys, Backup(old(repo.Store()), old(snapshot.Value())),
                       BlocksOf(repo.options, repo.digest, repo.rollTable, f))
  {
    hide Keys.Lawful, FileBlocks, FileMeta, BackupStep, UploadBlocks, BlockIds, SnapshotModel.AddFileEntry;
    var stream := new Source(f.data, true);
    ghost var st, before := repo.Store(), snapshot.Value();
    var r := repo.UploadFile(snapshot, f.path, stream, |f.data|, f.ct, f.estimate, f.meta);
    FileBlocksSpellFile(repo.options, repo.rollTable, f.estimate, f.data);
    AddSucceeds(before, f.path, FileMeta(repo.options, repo.digest, f.estimate, f.meta, f.ct, f.data, |f.data|),
                BlockIds(repo.keys, f.ct, FileBlocks(repo.options, repo.rollTable, f.estimate, f.data, |f.data|)));
    UploadIsStep(repo, f.path, f.data, f.ct, f.estimate, f.meta, st, repo.Store(), before, snapshot.Value());
  }

  /** Repository::uploadFile with a pack: a large file becomes a step of its own and a small one
      goes into the pack, and what is left of the run is that of the files after it. */
  method UploadOne(repo: Repository, snapshot: Snapshot, pack: PackUploadState, f: LocalFile,
                   ghost files: seq<LocalFile>)
    requires repo.Valid() && pack.Valid() && LawfulFiles(pack.Files()) && Manageable(f)
    requires pack.rollingHash != null ==> pack.rollingHash.table == repo.rollTable
    requires files != [] && files[0] == f
    modifies repo`drawn, repo.dataStore, snapshot, pack
    modifies pack.rollingHash, if pack.rollingHash == null then {} else {pack.rollingHash.window}
    ensures pack.Valid() && LawfulFiles(pack.Files())
    ensures pack.rollingHash != null ==> pack.rollingHash.table == repo.rollTable
    ensures pack.rollingHash != null ==>
      pack.rollingHash == old(pack.rollingHash) || (fresh(pack.rollingHash) && fresh(pack.rollingHash.window))
    ensures pack.rollingHash != null && pack.rollingHash == old(pack.rollingHash) ==>
      pack.rollingHash.window == old(pack.rollingHash.window)
    ensures BackupRun(repo.keys, Backup(repo.Store(), snapshot.Value()),
                      UploadOps(repo.options, repo.digest, repo.rollTable, pack.Window(), pack.Files(), files[1..]))
         == old(BackupRun(repo.keys, Backup(repo.Store(), snapshot.Value()),
                          UploadOps(repo.options, repo.digest, repo.rollTable, pack.Window(), pack.Files(), files)))
  {
    hide Keys.Lawful, Marks, SlideAll, UploadOps, BackupStep, PackMessage, PackedFile, BackupRun, BlocksOf;
    TakeOne(repo, Backup(repo.Store(), snapshot.Value()), pack.Window(), pack.Files(), files);
    if |f.data| >= repo.options.smallFileSize {
      UploadLargeFile(repo, snapshot, f);
    } else {
      var stream := new Source(f.data, true);
      assert f.data[..|f.data|] == f.data;
      var _ := UploadSmallFile(repo, snapshot, pack, f.path, stream, |f.data|, f.ct, f.meta, f.garbage);
    }
  }

  /** One argument of the program: its files uploaded one after the other, large ones as blocks and
      small ones into one pack, which is finalised at the end. */
  method UploadFiles(repo: Repository, snapshot: Snapshot, pack: PackUploadState, files: seq<LocalFile>)
    requires repo.Valid() && pack.Valid() && pack.rollingHash == null && AllManageable(files)
    modifies repo`drawn, repo.dataStore, snapshot, pack
    ensures pack.Valid() && pack.rollingHash == null
    ensures var ops := UploadOps(repo.options, repo.digest, repo.rollTable, Zeros(WINDOW_SIZE), [], files);
            Backup(repo.Store(), snapshot.Value())
            == BackupRun(repo.keys, Backup(old(repo.Store()), old(snapshot.Value())), ops)
  {
    hide Keys.Lawful, Marks, SlideAll, UploadOps, BackupStep, PackMessage, PackedFile, BackupRun, BlocksOf;
    ghost var start := Backup(repo.Store(), snapshot.Value());
    ghost var ops := UploadOps(repo.options, repo.digest, repo.rollTable, Zeros(WINDOW_SIZE), [], files);
    assert files[0..] == files;
    for i := 0 to |files|
      invariant pack.Valid() && LawfulFiles(pack.Files())
      invariant pack.rollingHash != null ==> pack.rollingHash.table == repo.rollTable
      invariant pack.rollingHash != null ==> fresh(pack.rollingHash) && fresh(pack.rollingHash.window)
      invariant BackupRun(repo.keys, start, ops)
             == BackupRun(repo.keys, Backup(repo.Store(), snapshot.Value()),
                          UploadOps(repo.options, repo.digest, repo.rollTable, pack.Window(), pack.Files(), files[i..]))
    {
      assert files[i..][0] == files[i] && files[i..][1..] == files[i + 1..];
      UploadOne(repo, snapshot, pack, files[i], files[i..]);
    }
    assert files[|files|..] == [];
    TakeNone(repo, Backup(repo.Store(), snapshot.Value()), pack.Window(), pack.Files());
    FinalizePack(repo, snapshot, pack);
  }

  /** The steps of a whole call: one argument after the other. */
  function ProgramOps(options: Options, digest: seq<byte> -> seq<byte>, table: SubTable,
                      arguments: seq<seq<LocalFile>>): seq<BackupOp>
    requires options.maxRollingHashBits < 31
  {
    if arguments == [] then []
    else
      ProgramOps(options, digest, table, arguments[..|arguments| - 1])
      + UploadOps(options, digest, table, Zeros(WINDOW_SIZE), [], arguments[|arguments| - 1])
  }

  /** The program's backup loop over its arguments. */
  method UploadArguments(repo: Repository, snapshot: Snapshot, arguments: seq<seq<LocalFile>>)
    requires repo.Valid() && forall k :: 0 <= k < |arguments| ==> AllManageable(arguments[k])
    modifies repo`drawn, repo.dataStore, snapshot
    ensures Backup(repo.Store(), snapshot.Value())
         == BackupRun(repo.keys, Backup(old(repo.Store()), old(snapshot.Value())),
                      ProgramOps(repo.options, repo.digest, repo.rollTable, arguments))
  {
    hide Keys.Lawful, UploadOps, BackupRun, PackUploadState.Valid;
    ghost var start := Backup(repo.Store(), snapshot.Value());
    var packState := new PackUploadState();
    NothingRun(repo.keys, start);
    for i := 0 to |arguments|
      invariant packState.Valid() && packState.rollingHash == null
      invariant Backup(repo.Store(), snapshot.Value())
             == BackupRun(repo.keys, start, ProgramOps(repo.options, repo.digest, repo.rollTable, arguments[..i]))
    {
      assert arguments[..i + 1][..i] == arguments[..i];
      UploadFiles(repo, snapshot, packState, arguments[i]);
      RunAppend(repo.keys, start, ProgramOps(repo.options, repo.digest, repo.rollTable, arguments[..i]),
                UploadOps(repo.options, repo.digest, repo.rollTable, Zeros(WINDOW_SIZE), [], arguments[i]));
    }
    assert arguments[..|arguments|] == arguments;
  }

  // ----- every file is taken in once -----

  /** What a snapshot says of a file: the caller's user, group, type, mode and time, the length and
      digest of its bytes, and the hash width, which is zero for a small file. */
  function Attributes(options: Options, digest: seq<byte> -> seq<byte>, f: LocalFile): Meta
    requires options.maxRollingHashBits < 31
  {
    Meta(f.meta.user, f.meta.group, f.meta.fileType, f.meta.mode, f.ct, |f.data|, f.meta.mtime,
         if |f.data| < options.smallFileSize then 0
         else Min(Max(f.estimate, options.minRollingHashBits), options.maxRollingHashBits),
         digest(f.data), 0, 0)
  }

  function Named(options: Options, digest: seq<byte> -> seq<byte>, files: seq<LocalFile>): seq<Taken>
    requires options.maxRollingHashBits < 31
  {
    seq(|files|, k requires 0 <= k < |files| =>
      (files[k].path, files[k].data, Attributes(options, digest, files[k])))
  }

  lemma NamedHead(options: Options, digest: seq<byte> -> seq<byte>, files: seq<LocalFile>)
    requires files != [] && options.maxRollingHashBits < 31
    ensures var first := (files[0].path, files[0].data, Attributes(options, digest, files[0]));
            multiset(Named(options, digest, files)) == multiset{first} + multiset(Named(options, digest, files[1..]))
  {
    hide Attributes;
    var first := (files[0].path, files[0].data, Attributes(options, digest, files[0]));
    assert Named(options, digest, files) == [first] + Named(options, digest, files[1..]);
  }

  lemma NamedAppend(options: Options, digest: seq<byte> -> seq<byte>, a: seq<LocalFile>, b: seq<LocalFile>)
    requires options.maxRollingHashBits < 31
    ensures Named(options, digest, a + b) == Named(options, digest, a) + Named(options, digest, b)
  {
    hide Attributes;
  }

  lemma TakenFirst(op: BackupOp, rest: seq<BackupOp>)
    ensures AllTaken([op]) == TakenBy(op)
    ensures multiset(AllTaken([op] + rest)) == multiset(TakenBy(op)) + multiset(AllTaken(rest))
  {
    hide TakenBy;
    TakenAppend([op], rest);
    assert [op][..0] == [];
    assert AllTaken([op][..0]) == [];
    assert [] + TakenBy(op) == TakenBy(op);
  }

  lemma OneMorePending(pending: seq<PackFile>, p: PackFile)
    ensures multiset(TakenBy(BackupOp.Pack(pending + [p])))
         == multiset(TakenBy(BackupOp.Pack(pending))) + multiset{(p.path, p.data, Said(p.meta))}
  {
    var last := (p.path, p.data, Said(p.meta));
    assert TakenBy(BackupOp.Pack(pending + [p])) == TakenBy(BackupOp.Pack(pending)) + [last];
  }

  lemma NothingTaken(options: Options, digest: seq<byte> -> seq<byte>)
    requires options.maxRollingHashBits < 31
    ensures AllTaken([]) == [] && TakenBy(BackupOp.Pack([])) == [] && Named(options, digest, []) == []
  {
  }

  lemma BlocksTake(options: Options, digest: seq<byte> -> seq<byte>, table: SubTable, f: LocalFile)
    requires options.maxRollingHashBits < 31 && Manageable(f)
    ensures TakenBy(BlocksOf(options, digest, table, f)) == [(f.path, f.data, Attributes(options, digest, f))]
  {
    hide FileBlocks, Flatten;
    FileBlocksSpellFile(options, table, f.estimate, f.data);
    assert f.data[..|f.data|] == f.data;
  }

  lemma PackedTakes(options: Options, digest: seq<byte> -> seq<byte>, f: LocalFile, offset: nat)
    requires |f.data| < options.smallFileSize && options.maxRollingHashBits < 31
    ensures var p := PackedFile(digest, Small(f), offset);
            p.path == f.path && p.data == f.data && Said(p.meta) == Attributes(options, digest, f)
  {
  }

  /** The steps of one argument take in what was pending and every file of the list, each once. */
  lemma {:induction false} UploadTakes(options: Options, digest: seq<byte> -> seq<byte>, table: SubTable,
                                       window: seq<byte>, pending: seq<PackFile>, files: seq<LocalFile>)
    requires window != [] && options.maxRollingHashBits < 31 && AllManageable(files)
    ensures multiset(AllTaken(UploadOps(options, digest, table, window, pending, files)))
         == multiset(TakenBy(BackupOp.Pack(pending))) + multiset(Named(options, digest, files))
    decreases |files|
  {
    hide Marks, SlideAll, AllTaken, TakenBy, BlocksOf, Named, Attributes, PackedFile, Said;
    NothingTaken(options, digest);
    if files == [] {
      TakenFirst(BackupOp.Pack(pending), []);
    } else {
      var f, rest := files[0], files[1..];
      NamedHead(options, digest, files);
      if |f.data| >= options.smallFileSize {
        UploadTakes(options, digest, table, window, pending, rest);
        BlocksTake(options, digest, table, f);
        TakenFirst(BlocksOf(options, digest, table, f), UploadOps(options, digest, table, window, pending, rest));
      } else {
        var p := PackedFile(digest, Small(f), |pending|);
        PackedTakes(options, digest, f, |pending|);
        OneMorePending(pending, p);
        if Marks(table, window, f.data) {
          UploadTakes(options, digest, table, Zeros(WINDOW_SIZE), [], rest);
          TakenFirst(BackupOp.Pack(pending + [p]), UploadOps(options, digest, table, Zeros(WINDOW_SIZE), [], rest));
        } else {
          UploadTakes(options, digest, table, SlideAll(window, f.data), pending + [p], rest);
        }
      }
    }
  }

  function AllFiles(arguments: seq<seq<LocalFile>>): seq<LocalFile> {
    if arguments == [] then [] else AllFiles(arguments[..|arguments| - 1]) + arguments[|arguments| - 1]
  }

  /** Whatever the sizes of the files, the program takes in every one of them, once. */
  lemma {:induction false} ProgramTakes(options: Options, digest: seq<byte> -> seq<byte>, table: SubTable,
                                        arguments: seq<seq<LocalFile>>)
    requires options.maxRollingHashBits < 31
    requires forall k :: 0 <= k < |arguments| ==> AllManageable(arguments[k])
    ensures multiset(AllTaken(ProgramOps(options, digest, table, arguments)))
         == multiset(Named(options, digest, AllFiles(arguments)))
    decreases |arguments|
  {
    hide UploadOps, AllTaken, TakenBy, Named, AllManageable;
    NothingTaken(options, digest);
    if arguments != [] {
      var front, last := arguments[..|arguments| - 1], arguments[|arguments| - 1];
      ProgramTakes(options, digest, table, front);
      UploadTakes(options, digest, table, Zeros(WINDOW_SIZE), [], last);
      TakenAppend(ProgramOps(options, digest, table, front),
                  UploadOps(options, digest, table, Zeros(WINDOW_SIZE), [], last));
      NamedAppend(options, digest, AllFiles(front), last);
    }
  }

  // ----- which files have object ids -----

  lemma BlocksAdd(options: Options, digest: seq<byte> -> seq<byte>, table: SubTable, f: LocalFile)
    requires options.maxRollingHashBits < 31 && Manageable(f)
    ensures Adds(BlocksOf(options, digest, table, f)) == 0 <==> f.data == [] && options.smallFileSize == 0
  {
    hide FileBlocks, FileMeta;
    NoBlocksExactly(options, table, f.estimate, f.data);
  }

  /** Where some file counts as small, every step adds object ids. */
  lemma {:induction false} UploadAdds(options: Options, digest: seq<byte> -> seq<byte>, table: SubTable,
                                      window: seq<byte>, pending: seq<PackFile>, files: seq<LocalFile>)
    requires window != [] && options.maxRollingHashBits < 31 && options.smallFileSize > 0 && AllManageable(files)
    ensures EachAdds(UploadOps(options, digest, table, window, pending, files))
    decreases |files|
  {
    hide Marks, SlideAll, BlocksOf, PackedFile, Manageable, EachAdds;
    if files == [] {
      PackAdds(pending);
    } else {
      var f, rest := files[0], files[1..];
      var p := pending + [PackedFile(digest, Small(f), |pending|)];
      if |f.data| >= options.smallFileSize {
        BlocksAdd(options, digest, table, f);
        OneAdds(BlocksOf(options, digest, table, f));
        UploadAdds(options, digest, table, window, pending, rest);
        EachAddsJoined([BlocksOf(options, digest, table, f)],
                       UploadOps(options, digest, table, window, pending, rest));
      } else if Marks(table, window, f.data) {
        PackAdds(p);
        UploadAdds(options, digest, table, Zeros(WINDOW_SIZE), [], rest);
        EachAddsJoined([BackupOp.Pack(p)], UploadOps(options, digest, table, Zeros(WINDOW_SIZE), [], rest));
      } else {
        UploadAdds(options, digest, table, SlideAll(window, f.data), p, rest);
      }
    }
  }

  lemma PackAdds(files: seq<PackFile>)
    ensures EachAdds([]) && (files != [] ==> EachAdds([BackupOp.Pack(files)]))
  {
  }

  lemma OneAdds(op: BackupOp)
    requires Adds(op) > 0
    ensures EachAdds([op])
  {
  }

  lemma {:induction false} ProgramAdds(options: Options, digest: seq<byte> -> seq<byte>, table: SubTable,
                                       arguments: seq<seq<LocalFile>>)
    requires options.maxRollingHashBits < 31 && options.smallFileSize > 0
    requires forall k :: 0 <= k < |arguments| ==> AllManageable(arguments[k])
    ensures EachAdds(ProgramOps(options, digest, table, arguments))
    decreases |arguments|
  {
    hide UploadOps, Adds, AllManageable, EachAdds;
    PackAdds([]);
    if arguments != [] {
      var front, last := arguments[..|arguments| - 1], arguments[|arguments| - 1];
      ProgramAdds(options, digest, table, front);
      UploadAdds(options, digest, table, Zeros(WINDOW_SIZE), [], last);
      EachAddsJoined(ProgramOps(options, digest, table, front),
                     UploadOps(options, digest, table, Zeros(WINDOW_SIZE), [], last));
    }
  }

  /** The steps where every file counts as large. */
  function LargeOps(options: Options, digest: seq<byte> -> seq<byte>, table: SubTable,
                    files: seq<LocalFile>): (ops: seq<BackupOp>)
    requires options.maxRollingHashBits < 31
    ensures |ops| == |files|
  {
    seq(|files|, k requires 0 <= k < |files| => BlocksOf(options, digest, table, files[k]))
  }

  lemma {:induction false} UploadIsLarge(options: Options, digest: seq<byte> -> seq<byte>, table: SubTable,
                                         window: seq<byte>, files: seq<LocalFile>)
    requires window != [] && options.maxRollingHashBits < 31 && options.smallFileSize == 0
    ensures UploadOps(options, digest, table, window, [], files) == LargeOps(options, digest, table, files)
    decreases |files|
  {
    hide BlocksOf;
    if files != [] {
      UploadIsLarge(options, digest, table, window, files[1..]);
      assert LargeOps(options, digest, table, files)
          == [BlocksOf(options, digest, table, files[0])] + LargeOps(options, digest, table, files[1..]);
    }
  }

  lemma {:induction false} ProgramIsLarge(options: Options, digest: seq<byte> -> seq<byte>, table: SubTable,
                                          arguments: seq<seq<LocalFile>>)
    requires options.maxRollingHashBits < 31 && options.smallFileSize == 0
    ensures ProgramOps(options, digest, table, arguments) == LargeOps(options, digest, table, AllFiles(arguments))
    decreases |arguments|
  {
    hide BlocksOf, UploadOps;
    if arguments != [] {
      var front, last := arguments[..|arguments| - 1], arguments[|arguments| - 1];
      ProgramIsLarge(options, digest, table, front);
      UploadIsLarge(options, digest, table, Zeros(WINDOW_SIZE), last);
      assert LargeOps(options, digest, table, AllFiles(front) + last)
          == LargeOps(options, digest, table, AllFiles(front)) + LargeOps(options, digest, table, last);
    }
  }

  lemma {:induction false} LargePromises(n: nat, options: Options, digest: seq<byte> -> seq<byte>, table: SubTable,
                                         files: seq<LocalFile>, k: nat)
    requires options.maxRollingHashBits < 31 && AllManageable(files) && k < |files|
    ensures var ps := Promises(n, LargeOps(options, digest, table, files));
            && |ps| == |files| && ps[k].path == files[k].path && ps[k].data == files[k].data && ps[k].step == k
            && ps[k].count == Adds(BlocksOf(options, digest, table, files[k]))
            && Said(ps[k].meta) == Attributes(options, digest, files[k])
    decreases |files|
  {
    hide FileBlocks, Flatten, IdCount;
    var front, last := files[..|files| - 1], files[|files| - 1];
    assert LargeOps(options, digest, table, files)[..|files| - 1] == LargeOps(options, digest, table, front);
    FileBlocksSpellFile(options, table, last.estimate, last.data);
    assert last.data[..|last.data|] == last.data;
    if |files| > 1 {
      LargePromises(n, options, digest, table, front, if k < |files| - 1 then k else 0);
    }
  }

  // ----- back up and restore -----

  /** What a download gives of each file: its bytes, unless no file counts as small and this file
      and all after it are empty. */
  ghost function Expected(options: Options, files: seq<LocalFile>, k: nat):
      Result<Option<seq<byte>>, RepositoryModel.Failure>
    requires k < |files|
  {
    if options.smallFileSize == 0 && forall j :: k <= j < |files| ==> files[j].data == []
    then Err(Index(IndexOutOfBound)) else Ok(Some(files[k].data))
  }

  lemma TakenSomewhere(a: seq<Taken>, b: seq<Taken>, k: nat) returns (j: nat)
    requires multiset(a) == multiset(b) && k < |b|
    ensures j < |a| && a[j] == b[k]
  {
    assert b[k] in multiset(b);
    assert b[k] in a;
    j :| 0 <= j < |a| && a[j] == b[k];
  }

  /** For every file there is a promise that is restored as expected. */
  lemma FilePromised(options: Options, digest: seq<byte> -> seq<byte>, table: SubTable,
                     arguments: seq<seq<LocalFile>>, k: nat)
      returns (j: nat)
    requires options.maxRollingHashBits < 31 && k < |AllFiles(arguments)|
    requires forall i :: 0 <= i < |arguments| ==> AllManageable(arguments[i])
    requires IdCount(0, ProgramOps(options, digest, table, arguments)) < 0x8000_0000
    ensures var ops := ProgramOps(options, digest, table, arguments);
            && j < |Promises(0, ops)| && Promises(0, ops)[j].path == AllFiles(arguments)[k].path
            && Said(Promises(0, ops)[j].meta) == Attributes(options, digest, AllFiles(arguments)[k])
            && Restored(0, ops, j) == Expected(options, AllFiles(arguments), k)
  {
    hide Promises, IdCount, Adds, ProgramOps, LargeOps, BlocksOf, AllTaken, Named, AllFiles, Attributes, Said;
    var ops, files := ProgramOps(options, digest, table, arguments), AllFiles(arguments);
    if options.smallFileSize > 0 {
      ProgramTakes(options, digest, table, arguments);
      PromisesTaken(0, ops);
      NamedAt(options, digest, files, k);
      j := TakenSomewhere(AllTaken(ops), Named(options, digest, files), k);
      ProgramAdds(options, digest, table, arguments);
      EveryStepAdds(0, ops, j);
    } else {
      j := k;
      ProgramIsLarge(options, digest, table, arguments);
      AllFilesManageable(arguments);
      LargePromises(0, options, digest, table, files, k);
      LargeEmpty(options, digest, table, files, k);
    }
    FirstBelow(0, ops, j);
  }

  lemma NamedAt(options: Options, digest: seq<byte> -> seq<byte>, files: seq<LocalFile>, k: nat)
    requires k < |files| && options.maxRollingHashBits < 31
    ensures var names := Named(options, digest, files);
            |names| == |files| && names[k] == (files[k].path, files[k].data, Attributes(options, digest, files[k]))
  {
    hide Attributes;
  }

  lemma FirstBelow(n: nat, ops: seq<BackupOp>, k: nat)
    requires k < |Promises(n, ops)|
    ensures Promises(n, ops)[k].first <= IdCount(n, ops)
  {
    hide Promises, IdCount, Adds, NoIdsAfter;
    PromiseAt(n, ops, k);
    IdsAfter(n, ops, Promises(n, ops)[k].step);
  }

  lemma {:induction false} AllFilesManageable(arguments: seq<seq<LocalFile>>)
    requires forall i :: 0 <= i < |arguments| ==> AllManageable(arguments[i])
    ensures AllManageable(AllFiles(arguments))
    decreases |arguments|
  {
    hide Manageable;
    if arguments != [] {
      AllFilesManageable(arguments[..|arguments| - 1]);
    }
  }

  lemma LargeEmpty(options: Options, digest: seq<byte> -> seq<byte>, table: SubTable, files: seq<LocalFile>, k: nat)
    requires options.maxRollingHashBits < 31 && options.smallFileSize == 0 && AllManageable(files) && k < |files|
    ensures Adds(BlocksOf(options, digest, table, files[k])) == 0
              && NoIdsAfter(LargeOps(options, digest, table, files), k)
       <==> forall j :: k <= j < |files| ==> files[j].data == []
  {
    hide BlocksOf, Adds, Manageable;
    forall j | k <= j < |files|
      ensures Adds(LargeOps(options, digest, table, files)[j]) == 0 <==> files[j].data == []
    {
      BlocksAdd(options, digest, table, files[j]);
    }
  }

  ghost predicate DifferentPaths(files: seq<LocalFile>) {
    forall j, k :: 0 <= j < k < |files| ==> LoadedKey(files[j].path) != LoadedKey(files[k].path)
  }

  /** What the backup of these arguments must meet: files that can be cut, paths that stay apart,
      steps that are legal one after the other, and a snapshot that fits its format. */
  ghost predicate BackupAllowed(repo: Repository, u: iset<seq<byte>>, st: Store, arguments: seq<seq<LocalFile>>)
    requires repo.Valid()
  {
    var ops, b := ProgramOps(repo.options, repo.digest, repo.rollTable, arguments), Backup(st, Empty());
    && (forall i :: 0 <= i < |arguments| ==> AllManageable(arguments[i]))
    && DifferentPaths(AllFiles(arguments)) && LegalBackup(repo.keys, u, b, ops)
    && Fits(BackupRun(repo.keys, b, ops).snapshot) && |BackupRun(repo.keys, b, ops).snapshot.objectIds| < 0x8000_0000
  }

  /** Every file of a backup of these arguments can be restored, with its attributes, from what the
      backup leaves behind. */
  lemma FileRestored(repo: Repository, u: iset<seq<byte>>, st: Store, arguments: seq<seq<LocalFile>>, name: string,
                     k: nat)
    requires repo.Valid() && CollisionFree(repo.keys, u) && Sound(repo.keys, u, st.objects)
    requires BackupAllowed(repo, u, st, arguments) && k < |AllFiles(arguments)|
    ensures var done := BackupRun(repo.keys, Backup(st, Empty()),
                                  ProgramOps(repo.options, repo.digest, repo.rollTable, arguments));
            var end := Commit(repo.keys, done.store, name, done.snapshot).objects;
            var loaded := RepositoryModel.LoadSnapshot(repo.keys, end, name);
            var key := LoadedKey(AllFiles(arguments)[k].path);
            && loaded.Ok? && Find(loaded.value.files, key).Some?
            && IdsInRange(loaded.value, Find(loaded.value.files, key).value)
            && Describes(loaded.value, Find(loaded.value.files, key).value,
                         Attributes(repo.options, repo.digest, AllFiles(arguments)[k]))
            && Download(repo.keys, end, loaded.value, key) == Expected(repo.options, AllFiles(arguments), k)
  {
    hide Keys.Lawful, CollisionFree, Sound, ProgramOps, BackupRun, AllFiles, LegalBackup, Fits, Promises, Restored;
    hide Expected, Commit, RepositoryModel.LoadSnapshot, Find, LoadedKey, Download, AllTaken, Named, AllManageable;
    hide Different, Inv, IdCount, Describes, Attributes, Said;
    var ops, b := ProgramOps(repo.options, repo.digest, repo.rollTable, arguments), Backup(st, Empty());
    ProgramTakes(repo.options, repo.digest, repo.rollTable, arguments);
    NamesDiffer(repo.options, repo.digest, AllFiles(arguments));
    DifferentAnyOrder(0, ops, Named(repo.options, repo.digest, AllFiles(arguments)));
    NoIdsYet();
    IdsCounted(repo.keys, u, b, ops);
    var j := FilePromised(repo.options, repo.digest, repo.rollTable, arguments, k);
    InvEmpty();
    WholeBackup(repo.keys, u, b, [], ops, name, [], j);
    var done, p := BackupRun(repo.keys, b, ops), Promises(0, ops)[j];
    var start := Commit(repo.keys, done.store, name, done.snapshot);
    NoneLater(repo.keys, start, name);
    var loaded := RepositoryModel.LoadSnapshot(repo.keys, start.objects, name).value;
    SaidAttributes(repo.options, repo.digest, AllFiles(arguments)[k]);
    DescribesSaid(loaded, Find(loaded.files, LoadedKey(p.path)).value, p.meta,
                   Attributes(repo.options, repo.digest, AllFiles(arguments)[k]));
  }

  lemma SaidAttributes(options: Options, digest: seq<byte> -> seq<byte>, f: LocalFile)
    requires options.maxRollingHashBits < 31
    ensures Said(Attributes(options, digest, f)) == Attributes(options, digest, f)
  {
  }

  lemma NamesDiffer(options: Options, digest: seq<byte> -> seq<byte>, files: seq<LocalFile>)
    requires DifferentPaths(files) && options.maxRollingHashBits < 31
    ensures var names := Named(options, digest, files);
            forall j, k :: 0 <= j < k < |names| ==> LoadedKey(names[j].0) != LoadedKey(names[k].0)
  {
    hide LoadedKey, Attributes;
  }

  lemma NoneLater(keys: Keys, st: Store, name: string)
    ensures NotCommitted([], name) && StoreRun(keys, st, []) == st
  {
  }

  /** The committed snapshot's buffer is as long as saving demands. */
  lemma BackupAligned(repo: Repository, u: iset<seq<byte>>, st: Store, arguments: seq<seq<LocalFile>>)
    requires repo.Valid() && CollisionFree(repo.keys, u) && Sound(repo.keys, u, st.objects)
    requires BackupAllowed(repo, u, st, arguments)
    ensures var ops := ProgramOps(repo.options, repo.digest, repo.rollTable, arguments);
            |BackupRun(repo.keys, Backup(st, Empty()), ops).snapshot.buffer| % 4 == 0
  {
    hide Keys.Lawful, CollisionFree, Sound, ProgramOps, BackupRun, AllFiles, LegalBackup, Fits, Promises;
    hide LoadedKey, AllTaken, Named, AllManageable, Different, Interned, EntryOk, Layout;
    var ops, b := ProgramOps(repo.options, repo.digest, repo.rollTable, arguments), Backup(st, Empty());
    ProgramTakes(repo.options, repo.digest, repo.rollTable, arguments);
    NamesDiffer(repo.options, repo.digest, AllFiles(arguments));
    DifferentAnyOrder(0, ops, Named(repo.options, repo.digest, AllFiles(arguments)));
    NoIdsYet();
    InvEmpty();
    var strs := BackupKeeps(repo.keys, u, b, [], ops);
    LayoutAligned(strs);
  }

  /** The whole program: back up files of any sizes into a new snapshot, commit it, load it, and
      download every file. */
  method BackUpAndRestoreAll(repo: Repository, arguments: seq<seq<LocalFile>>, name: string, ghost u: iset<seq<byte>>)
      returns (downloads: seq<Result<Option<seq<byte>>, RepositoryModel.Failure>>)
    requires repo.Valid() && CollisionFree(repo.keys, u) && Sound(repo.keys, u, repo.dataStore.objects)
    requires BackupAllowed(repo, u, repo.Store(), arguments)
    modifies repo`drawn, repo.dataStore
    ensures |downloads| == |AllFiles(arguments)|
    ensures forall k :: 0 <= k < |downloads| ==> downloads[k] == Expected(repo.options, AllFiles(arguments), k)
  {
    hide Keys.Lawful, CollisionFree, Sound, ProgramOps, BackupRun, AllFiles, Expected, Commit, AllManageable;
    hide RepositoryModel.LoadSnapshot, Find, LoadedKey, Download, Fits, LegalBackup, DifferentPaths;
    hide RightAnswer, Saved, Seal, Describes, Attributes;
    ghost var st := repo.Store();
    var snapshot := new Snapshot();
    BackupAligned(repo, u, st, arguments);
    UploadArguments(repo, snapshot, arguments);
    repo.CommitSnapshot(snapshot, name);
    var files := AllFiles(arguments);
    downloads := [];
    if files == [] {
      return;
    }
    FileRestored(repo, u, st, arguments, name, 0);
    var loaded := repo.LoadSnapshot(name);
    ghost var objects, index := repo.dataStore.objects, loaded.value.Value();
    for k := 0 to |files|
      invariant |downloads| == k && repo.dataStore.objects == objects && loaded.value.Value() == index
      invariant forall i :: 0 <= i < k ==> downloads[i] == Expected(repo.options, files, i)
    {
      FileRestored(repo, u, st, arguments, name, k);
      var r := repo.DownloadFile(loaded.value, LoadedKey(files[k].path));
      downloads := downloads + [r];
    }
  }
}
