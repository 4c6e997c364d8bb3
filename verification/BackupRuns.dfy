/** Whole runs over one store: what stays sound, what stays restorable, and files that come back
    after a commit, anything else done to the store, and a load. */
module BackupRuns {
  import opened Bytes
  import opened Envelope
  import opened OrderedMap
  import opened StringTable
  import opened Paths
  import opened SnapshotModel
  import opened SnapshotFormat
  import opened SnapshotProperties
  import opened RepositoryModel
  import opened PackModel

  // ----- operations on the store -----

  datatype StoreOp =
    | BlockUpload(ct: byte, block: seq<byte>)
    | PackWrite(files: seq<PackFile>)
    | SnapshotCommit(name: string, snapshot: State)

  function ApplyToStore(keys: Keys, st: Store, op: StoreOp): Store {
    match op
    case BlockUpload(ct, block) => UploadBlock(keys, st, ct, block)
    case PackWrite(files) => PackStore(keys, st, files)
    case SnapshotCommit(name, snapshot) => Commit(keys, st, name, snapshot)
  }

  function StoreRun(keys: Keys, st: Store, ops: seq<StoreOp>): Store {
    if ops == [] then st else ApplyToStore(keys, StoreRun(keys, st, ops[..|ops| - 1]), ops[|ops| - 1])
  }

  lemma ApplyKeeps(keys: Keys, st: Store, op: StoreOp)
    ensures Kept(st.objects, ApplyToStore(keys, st, op).objects)
  {
    hide Seal, DataPath, SnapshotPath, Saved, BlockId, PackMessage, SealedFiles, Flatten;
    if op.SnapshotCommit? {
      forall id
        ensures DataPath(id) != SnapshotPath(op.name)
      {
        PathsDisjoint(id, op.name);
      }
    }
  }

  /** No run of any operations loses or changes a data object. */
  lemma {:induction false} StoreRunKeeps(keys: Keys, st: Store, ops: seq<StoreOp>)
    ensures Kept(st.objects, StoreRun(keys, st, ops).objects)
    decreases |ops|
  {
    hide ApplyToStore, DataPath;
    if ops != [] {
      var front := ops[..|ops| - 1];
      StoreRunKeeps(keys, st, front);
      ApplyKeeps(keys, StoreRun(keys, st, front), ops[|ops| - 1]);
    }
  }

  /** Blocks are among the messages in use; a pack's message is not, and collides with none. */
  ghost predicate LegalOp(keys: Keys, u: iset<seq<byte>>, op: StoreOp) {
    match op
    case BlockUpload(ct, block) => ct <= LZMA2 && Message(ct, block) in u
    case PackWrite(files) => PackMessage(files) !in u && CollisionFree(keys, u + iset{PackMessage(files)})
    case SnapshotCommit(_, _) => true
  }

  ghost predicate LegalOps(keys: Keys, u: iset<seq<byte>>, ops: seq<StoreOp>) {
    forall i :: 0 <= i < |ops| ==> LegalOp(keys, u, ops[i])
  }

  lemma ApplySound(keys: Keys, u: iset<seq<byte>>, st: Store, op: StoreOp)
    requires keys.Lawful() && CollisionFree(keys, u) && Sound(keys, u, st.objects) && LegalOp(keys, u, op)
    ensures Sound(keys, u, ApplyToStore(keys, st, op).objects)
  {
    hide Sound, CollisionFree, Keys.Lawful, UploadBlock, PackStore, Commit, Message, PackMessage;
    match op {
      case BlockUpload(ct, block) => UploadBlockSound(keys, u, st, ct, block);
      case PackWrite(files) => PackSound(keys, u, st, files);
      case SnapshotCommit(name, snapshot) => CommitSound(keys, u, st, name, snapshot);
    }
  }

  /** The invariant holds over every legal run of uploads, packs and commits. */
  lemma {:induction false} StoreRunSound(keys: Keys, u: iset<seq<byte>>, st: Store, ops: seq<StoreOp>)
    requires keys.Lawful() && CollisionFree(keys, u) && Sound(keys, u, st.objects) && LegalOps(keys, u, ops)
    ensures Sound(keys, u, StoreRun(keys, st, ops).objects)
    decreases |ops|
  {
    hide Sound, CollisionFree, Keys.Lawful, ApplyToStore, LegalOp;
    if ops != [] {
      var front := ops[..|ops| - 1];
      StoreRunSound(keys, u, st, front);
      ApplySound(keys, u, StoreRun(keys, st, front), ops[|ops| - 1]);
    }
  }

  /** The object is that of a block uploaded in the run. */
  ghost predicate IsUploaded(keys: Keys, ops: seq<StoreOp>, objects: Objects, id: ObjectId) {
    exists i :: 0 <= i < |ops| && ops[i].BlockUpload? && BlockId(keys, ops[i].ct, ops[i].block) == id
                && IsStored(keys, ops[i].ct, ops[i].block, objects)
  }

  /** The object is a pack written in the run: the sealed forms of its files, one after another. */
  ghost predicate IsPacked(keys: Keys, ops: seq<StoreOp>, objects: Objects, id: ObjectId) {
    exists i :: 0 <= i < |ops| && ops[i].PackWrite? && keys.hash(PackMessage(ops[i].files)) == id
                && HoldsPack(keys, StoreRun(keys, Store(map[], 0), ops[..i]).drawn, ops[i].files, objects, id)
  }

  ghost predicate HoldsPack(keys: Keys, drawn: nat, files: seq<PackFile>, objects: Objects, id: ObjectId) {
    DataPath(id) in objects && objects[DataPath(id)] == Flatten(SealedFiles(keys, drawn, files))
  }

  ghost predicate Names(keys: Keys, op: StoreOp, id: ObjectId) {
    match op
    case BlockUpload(ct, block) => BlockId(keys, ct, block) == id
    case PackWrite(files) => keys.hash(PackMessage(files)) == id
    case SnapshotCommit(_, _) => false
  }

  lemma NewNames(keys: Keys, st: Store, op: StoreOp, id: ObjectId)
    requires DataPath(id) in ApplyToStore(keys, st, op).objects && DataPath(id) !in st.objects
    ensures Names(keys, op, id)
    ensures op.PackWrite? ==> HoldsPack(keys, st.drawn, op.files, ApplyToStore(keys, st, op).objects, id)
  {
    hide Seal, DataPath, SnapshotPath, Saved, BlockId, PackMessage, SealedFiles, Flatten;
    match op {
      case BlockUpload(ct, block) => DataPathInjective(id, BlockId(keys, ct, block));
      case PackWrite(files) => DataPathInjective(id, keys.hash(PackMessage(files)));
      case SnapshotCommit(name, _) => PathsDisjoint(id, name);
    }
  }

  /** Which operation of a run from an empty store first stored an object, and what a pack left. */
  lemma {:induction false} FirstNamed(keys: Keys, ops: seq<StoreOp>, id: ObjectId) returns (i: nat)
    requires DataPath(id) in StoreRun(keys, Store(map[], 0), ops).objects
    ensures i < |ops| && Names(keys, ops[i], id)
    ensures ops[i].PackWrite? ==>
      HoldsPack(keys, StoreRun(keys, Store(map[], 0), ops[..i]).drawn, ops[i].files,
                StoreRun(keys, Store(map[], 0), ops).objects, id)
    decreases |ops|
  {
    hide ApplyToStore, DataPath, Names, SealedFiles, Flatten;
    var front, last := ops[..|ops| - 1], ops[|ops| - 1];
    var mid := StoreRun(keys, Store(map[], 0), front);
    if DataPath(id) in mid.objects {
      i := FirstNamed(keys, front, id);
      assert ops[..i] == front[..i] && ops[i] == front[i];
      ApplyKeeps(keys, mid, last);
    } else {
      i := |front|;
      NewNames(keys, mid, last, id);
    }
  }

  /** In every store that a legal run makes of an empty one, every data object either opens to
      the block that was uploaded under its name, or is a pack that was written, byte for byte. */
  lemma EveryStoredObject(keys: Keys, u: iset<seq<byte>>, ops: seq<StoreOp>, id: ObjectId)
    requires keys.Lawful() && CollisionFree(keys, u) && LegalOps(keys, u, ops)
    requires DataPath(id) in StoreRun(keys, Store(map[], 0), ops).objects
    ensures var objects := StoreRun(keys, Store(map[], 0), ops).objects;
            Sound(keys, u, objects) && (IsUploaded(keys, ops, objects, id) || IsPacked(keys, ops, objects, id))
  {
    hide CollisionFree, Keys.Lawful, StoreRun, DataPath, Open, PackMessage, HoldsPack;
    var objects := StoreRun(keys, Store(map[], 0), ops).objects;
    EmptyStoreSound(keys, u);
    StoreRunSound(keys, u, Store(map[], 0), ops);
    var i := FirstNamed(keys, ops, id);
    if ops[i].BlockUpload? {
      assert LegalOp(keys, u, ops[i]);
      var m := Message(ops[i].ct, ops[i].block);
      assert m[0] == ops[i].ct && m[1..] == ops[i].block && IsMessage(m) && m in u;
      assert IsStored(keys, ops[i].ct, ops[i].block, objects);
    }
  }

  ghost predicate NotCommitted(ops: seq<StoreOp>, name: string) {
    forall i :: 0 <= i < |ops| && ops[i].SnapshotCommit? ==> ops[i].name != name
  }

  /** A snapshot not committed again stays what it was. */
  lemma {:induction false} SnapshotStays(keys: Keys, st: Store, ops: seq<StoreOp>, name: string)
    requires NotCommitted(ops, name) && SnapshotPath(name) in st.objects
    ensures var st' := StoreRun(keys, st, ops);
            SnapshotPath(name) in st'.objects && st'.objects[SnapshotPath(name)] == st.objects[SnapshotPath(name)]
    decreases |ops|
  {
    hide Seal, DataPath, BlockId, Saved, PackMessage, SealedFiles, Flatten;
    if ops != [] {
      var front, last := ops[..|ops| - 1], ops[|ops| - 1];
      SnapshotStays(keys, st, front, name);
      match last {
        case BlockUpload(ct, block) =>
          PathsDisjoint(BlockId(keys, ct, block), name);
        case PackWrite(files) =>
          PathsDisjoint(keys.hash(PackMessage(files)), name);
        case SnapshotCommit(name', _) =>
          assert SnapshotPath(name')[10..] == name' && SnapshotPath(name)[10..] == name;
      }
    }
  }

  lemma SnapshotStillLoads(keys: Keys, st: Store, name: string, snapshot: State, later: seq<StoreOp>)
    requires NotCommitted(later, name)
    ensures var st' := Commit(keys, st, name, snapshot);
            LoadSnapshot(keys, StoreRun(keys, st', later).objects, name) == LoadSnapshot(keys, st'.objects, name)
  {
    hide Open, Seal, Saved, Loaded;
    SnapshotStays(keys, Commit(keys, st, name, snapshot), later, name);
  }

  lemma KeptToTheEnd(keys: Keys, st: Store, name: string, snapshot: State, later: seq<StoreOp>)
    ensures Kept(st.objects, StoreRun(keys, Commit(keys, st, name, snapshot), later).objects)
  {
    hide StoreRun, DataPath, Commit;
    ApplyKeeps(keys, st, SnapshotCommit(name, snapshot));
    assert ApplyToStore(keys, st, SnapshotCommit(name, snapshot)) == Commit(keys, st, name, snapshot);
    StoreRunKeeps(keys, Commit(keys, st, name, snapshot), later);
  }

  // ----- one file end to end -----

  /** End to end: upload the blocks of a file, add its entry, commit the snapshot, do anything to
      the store but commit to the same name, load the snapshot and download the file under its
      loaded key: out come the blocks joined, except that an entry without objects, or beyond the
      first 2^31 object ids, cannot be downloaded. */
  lemma EndToEnd(keys: Keys, u: iset<seq<byte>>, st: Store, snapshot: State, strs: seq<Str>,
                 path: Str, meta: Meta, blocks: seq<seq<byte>>, name: string, later: seq<StoreOp>)
    requires keys.Lawful() && CollisionFree(keys, u) && Sound(keys, u, st.objects)
    requires Inv(snapshot, strs) && NewPath(snapshot.files, path)
    requires Rejoins(path) && NoNul(path) && NoNul(meta.user) && NoNul(meta.group)
    requires meta.packLength == 0 && meta.compression <= LZMA2
    requires |blocks| <= MAX_OBJECTS && AllIn(u, meta.compression, blocks)
    requires Fits(AddFileEntry(snapshot, path, meta, BlockIds(keys, meta.compression, blocks)).value)
    requires NotCommitted(later, name)
    ensures var st1 := UploadBlocks(keys, st, meta.compression, blocks);
            var added := AddFileEntry(snapshot, path, meta, BlockIds(keys, meta.compression, blocks)).value;
            var end := StoreRun(keys, Commit(keys, st1, name, added), later).objects;
            var loaded := LoadSnapshot(keys, end, name);
            && loaded.Ok? && Find(loaded.value.files, LoadedKey(path)).Some?
            && IdsInRange(loaded.value, Find(loaded.value.files, LoadedKey(path)).value)
            && Download(keys, end, loaded.value, LoadedKey(path))
               == if blocks == [] || |snapshot.objectIds| >= 0x8000_0000 then Err(Index(IndexOutOfBound))
                  else Ok(Some(Flatten(blocks)))
  {
    hide Inv, Fits, NoNul, Sound, CollisionFree, Keys.Lawful, UploadBlocks, Commit, StoreRun, LoadSnapshot;
    hide Download, Message, AllIn, Find, LoadedKey, NewPath, AddFileEntry, EntryOf, AllStored, Refiled, BlockIds;
    hide StrsAfterAdd, NotCommitted, Kept;
    var ids := BlockIds(keys, meta.compression, blocks);
    var st1 := UploadBlocks(keys, st, meta.compression, blocks);
    AddKeepsInv(snapshot, strs, path, meta, ids);
    var added := AddFileEntry(snapshot, path, meta, ids).value;
    UploadBlocksSound(keys, u, st, meta.compression, blocks);
    CommitLoads(keys, st1, name, added, StrsAfterAdd(snapshot, strs, path, meta));
    SnapshotStillLoads(keys, st1, name, added, later);
    AddedEntryFound(snapshot, strs, path, meta, ids);
    FitsIds(added);
    var end := StoreRun(keys, Commit(keys, st1, name, added), later).objects;
    KeptToTheEnd(keys, st1, name, added, later);
    StoredLater(keys, meta.compression, blocks, st1.objects, end);
    DownloadAdded(keys, end, LoadSnapshot(keys, end, name).value, LoadedKey(path),
                  EntryOf(snapshot, path, meta, |ids|), snapshot.objectIds, blocks);
  }

  // ----- one pack end to end -----

  lemma SamePaths(keys: Keys, st: Store, snapshot: State, files: seq<PackFile>)
    requires NewPaths(snapshot, files) && CStrings(files)
    ensures |Entered(keys, st, files)| == |files|
    ensures NewPaths(snapshot, Entered(keys, st, files)) && CStrings(Entered(keys, st, files))
    ensures forall k :: 0 <= k < |files| ==>
      && Entered(keys, st, files)[k].path == files[k].path
      && Said(Entered(keys, st, files)[k].meta) == Said(files[k].meta)
  {
    hide NewPath, LoadedKey, NoNul, Flatten, SealedFiles;
  }

  /** End to end: finalise a new pack, commit the snapshot, do anything to the store but commit to
      the same name, load the snapshot and download any of the files packed. */
  lemma PackEndToEnd(keys: Keys, st: Store, snapshot: State, strs: seq<Str>, files: seq<PackFile>,
                     name: string, later: seq<StoreOp>, k: nat)
    requires keys.Lawful() && Inv(snapshot, strs) && k < |files|
    requires LawfulFiles(files) && CStrings(files) && NewPaths(snapshot, files)
    requires PackPath(keys, files) !in st.objects && |Flatten(SealedFiles(keys, st.drawn, files))| < TWO_TO_THE_32
    requires Fits(WithEntries(snapshot, Entered(keys, st, files), keys.hash(PackMessage(files))))
    requires |snapshot.objectIds| + |files| < 0x8000_0000 && NotCommitted(later, name)
    ensures var added := WithEntries(snapshot, Entered(keys, st, files), keys.hash(PackMessage(files)));
            var end := StoreRun(keys, Commit(keys, PackStore(keys, st, files), name, added), later).objects;
            var loaded := LoadSnapshot(keys, end, name);
            && loaded.Ok? && Find(loaded.value.files, LoadedKey(files[k].path)).Some?
            && IdsInRange(loaded.value, Find(loaded.value.files, LoadedKey(files[k].path)).value)
            && Download(keys, end, loaded.value, LoadedKey(files[k].path)) == Ok(Some(files[k].data))
  {
    hide *;
    var id, entered := keys.hash(PackMessage(files)), Entered(keys, st, files);
    SamePaths(keys, st, snapshot, files);
    var strs' := EntriesFiled(snapshot, strs, entered, id);
    var added, st1 := WithEntries(snapshot, entered, id), PackStore(keys, st, files);
    CommitLoads(keys, st1, name, added, strs');
    SnapshotStillLoads(keys, st1, name, added, later);
    FiledIsFound(added, strs', snapshot, strs, entered, id, k);
    NewPackRestores(keys, st, files);
    var end := StoreRun(keys, Commit(keys, st1, name, added), later).objects;
    KeptToTheEnd(keys, st1, name, added, later);
    PackDownload(keys, end, LoadSnapshot(keys, end, name).value, added, st, snapshot, files, k);
  }

  // ----- a whole backup -----

  /** One step of a backup into one snapshot: a file uploaded as blocks, a pack of small files,
      or anything another client does to the store meanwhile. */
  datatype BackupOp =
    | Blocks(path: Str, meta: Meta, blocks: seq<seq<byte>>)
    | Pack(files: seq<PackFile>)
    | Elsewhere(op: StoreOp)

  datatype Backup = Backup(store: Store, snapshot: State)

  function BackupStep(keys: Keys, b: Backup, op: BackupOp): Backup {
    match op
    case Blocks(path, meta, blocks) =>
      Backup(UploadBlocks(keys, b.store, meta.compression, blocks),
             match AddFileEntry(b.snapshot, path, meta, BlockIds(keys, meta.compression, blocks))
             case Ok(st) => st
             case Err(_) => b.snapshot)
    case Pack(files) =>
      Backup(PackStore(keys, b.store, files),
             WithEntries(b.snapshot, Entered(keys, b.store, files), keys.hash(PackMessage(files))))
    case Elsewhere(op) => Backup(ApplyToStore(keys, b.store, op), b.snapshot)
  }

  function BackupRun(keys: Keys, b: Backup, ops: seq<BackupOp>): Backup {
    if ops == [] then b else BackupStep(keys, BackupRun(keys, b, ops[..|ops| - 1]), ops[|ops| - 1])
  }

  ghost predicate LegalStep(keys: Keys, u: iset<seq<byte>>, b: Backup, op: BackupOp) {
    match op
    case Blocks(path, meta, blocks) =>
      && Rejoins(path) && NoNul(path) && NoNul(meta.user) && NoNul(meta.group)
      && meta.packLength == 0 && meta.compression <= LZMA2
      && |blocks| <= MAX_OBJECTS && AllIn(u, meta.compression, blocks)
    case Pack(files) =>
      && CStrings(files) && LawfulFiles(files) && LegalOp(keys, u, PackWrite(files))
      && PackPath(keys, files) !in b.store.objects
      && |Flatten(SealedFiles(keys, b.store.drawn, files))| < TWO_TO_THE_32
    case Elsewhere(op) => LegalOp(keys, u, op)
  }

  ghost predicate LegalBackup(keys: Keys, u: iset<seq<byte>>, b: Backup, ops: seq<BackupOp>) {
    ops == []
    || (&& LegalBackup(keys, u, b, ops[..|ops| - 1])
        && LegalStep(keys, u, BackupRun(keys, b, ops[..|ops| - 1]), ops[|ops| - 1]))
  }

  /** How many object ids a step adds to the snapshot. */
  function Adds(op: BackupOp): nat {
    match op
    case Blocks(_, _, blocks) => |blocks|
    case Pack(files) => |files|
    case Elsewhere(_) => 0
  }

  /** How many object ids there are after some steps, from n on. */
  function IdCount(n: nat, ops: seq<BackupOp>): nat {
    if ops == [] then n else IdCount(n, ops[..|ops| - 1]) + Adds(ops[|ops| - 1])
  }

  /** A file that a backup has taken in, what is said of it, in which step, and where its ids are. */
  datatype Promise = Promise(path: Str, data: seq<byte>, meta: Meta, step: nat, first: nat, count: nat)

  /** What one step takes in when there are n object ids already. */
  function Promised(step: nat, n: nat, op: BackupOp): seq<Promise> {
    match op
    case Blocks(path, meta, blocks) => [Promise(path, Flatten(blocks), meta, step, n, |blocks|)]
    case Pack(files) =>
      seq(|files|, k requires 0 <= k < |files| => Promise(files[k].path, files[k].data, files[k].meta, step, n + k, 1))
    case Elsewhere(_) => []
  }

  function Promises(n: nat, ops: seq<BackupOp>): seq<Promise> {
    if ops == [] then []
    else Promises(n, ops[..|ops| - 1]) + Promised(|ops| - 1, IdCount(n, ops[..|ops| - 1]), ops[|ops| - 1])
  }

  /** A file by its path, its bytes and what is said of it. */
  type Taken = (Str, seq<byte>, Meta)

  /** The files that one step takes in, and those of all steps. */
  function TakenBy(op: BackupOp): seq<Taken> {
    match op
    case Blocks(path, meta, blocks) => [(path, Flatten(blocks), Said(meta))]
    case Pack(files) =>
      seq(|files|, k requires 0 <= k < |files| => (files[k].path, files[k].data, Said(files[k].meta)))
    case Elsewhere(_) => []
  }

  function AllTaken(ops: seq<BackupOp>): seq<Taken> {
    if ops == [] then [] else AllTaken(ops[..|ops| - 1]) + TakenBy(ops[|ops| - 1])
  }

  lemma {:induction false} PromisesTaken(n: nat, ops: seq<BackupOp>)
    ensures |Promises(n, ops)| == |AllTaken(ops)|
    ensures forall k :: 0 <= k < |AllTaken(ops)| ==>
      var p := Promises(n, ops)[k];
      AllTaken(ops)[k] == (p.path, p.data, Said(p.meta))
    decreases |ops|
  {
    hide Flatten;
    if ops != [] {
      PromisesTaken(n, ops[..|ops| - 1]);
    }
  }

  lemma {:induction false} TakenAppend(a: seq<BackupOp>, b: seq<BackupOp>)
    ensures AllTaken(a + b) == AllTaken(a) + AllTaken(b)
    decreases |b|
  {
    hide TakenBy;
    if b == [] {
      assert a + b == a;
    } else {
      assert (a + b)[..|a + b| - 1] == a + b[..|b| - 1];
      TakenAppend(a, b[..|b| - 1]);
    }
  }

  /** Paths new to the snapshot and different from each other, as loaded keys. */
  ghost predicate Different(before: State, ps: seq<Promise>) {
    && (forall k :: 0 <= k < |ps| ==> NewPath(before.files, ps[k].path))
    && (forall j, k :: 0 <= j < k < |ps| ==> LoadedKey(ps[j].path) != LoadedKey(ps[k].path))
  }

  /** The file can be fetched by the entry under its path, which describes it. */
  ghost predicate Holds(keys: Keys, b: Backup, p: Promise) {
    && Find(b.snapshot.files, p.path).Some?
    && var fe := Find(b.snapshot.files, p.path).value;
       && fe.objectIdIndex == p.first && fe.objectCount == p.count && IdsInRange(b.snapshot, fe)
       && FetchAll(keys, b.store.objects, fe, EntryIds(b.snapshot, fe)) == Ok(p.data)
       && Describes(b.snapshot, fe, p.meta)
  }

  ghost predicate AllHold(keys: Keys, b: Backup, ps: seq<Promise>) {
    forall k :: 0 <= k < |ps| ==> Holds(keys, b, ps[k])
  }

  /** Every key of the snapshot was there before or is a promised path. */
  ghost predicate KeysPromised(snapshot: State, before: State, ps: seq<Promise>) {
    forall key :: Find(snapshot.files, key).Some?
      ==> Find(before.files, key).Some? || exists k :: 0 <= k < |ps| && ps[k].path == key
  }

  lemma HoldsLater(keys: Keys, b: Backup, strs: seq<Str>, b': Backup, strs': seq<Str>, p: Promise)
    requires Inv(b.snapshot, strs) && Inv(b'.snapshot, strs') && strs <= strs'
    requires Holds(keys, b, p) && Kept(b.store.objects, b'.store.objects)
    requires b.snapshot.objectIds <= b'.snapshot.objectIds
    requires Find(b'.snapshot.files, p.path) == Find(b.snapshot.files, p.path)
    ensures Holds(keys, b', p)
  {
    hide Find, FetchAll, Kept, Inv, Describes;
    var fe := Find(b.snapshot.files, p.path).value;
    DescribesLater(b.snapshot, strs, b'.snapshot, strs', p.path, fe, p.meta);
    SameSlice(b.snapshot.objectIds, b'.snapshot.objectIds, fe.objectIdIndex, fe.objectIdIndex + fe.objectCount);
    FetchStable(keys, b.store.objects, b'.store.objects, fe, EntryIds(b.snapshot, fe));
  }

  /** A path different from all promised ones and new before the backup is still new. */
  lemma StillNew(snapshot: State, before: State, ps: seq<Promise>, path: Str)
    requires Sorted(snapshot.files) && Sorted(before.files) && KeysPromised(snapshot, before, ps)
    requires NewPath(before.files, path) && forall k :: 0 <= k < |ps| ==> LoadedKey(ps[k].path) != LoadedKey(path)
    ensures NewPath(snapshot.files, path) && Find(snapshot.files, path).None?
  {
    hide Find, LoadedKey, Less;
    forall i | 0 <= i < |snapshot.files|
      ensures LoadedKey(snapshot.files[i].0) != LoadedKey(path)
    {
      var key := snapshot.files[i].0;
      FindExactly(snapshot.files, key);
      assert (key, snapshot.files[i].1) in snapshot.files;
      FindExactly(before.files, key);
    }
    FindExactly(snapshot.files, path);
  }

  /** Entries added under other paths leave an entry alone. */
  lemma {:induction false} OthersKept(snapshot: State, files: seq<PackFile>, id: ObjectId, key: Str)
    requires Sorted(snapshot.files) && forall k :: 0 <= k < |files| ==> files[k].path != key
    ensures Sorted(WithEntries(snapshot, files, id).files)
    ensures Find(WithEntries(snapshot, files, id).files, key) == Find(snapshot.files, key)
    decreases |files|
  {
    hide Find, InsertString, Insert, Sorted;
    if files != [] {
      var front, last := files[..|files| - 1], files[|files| - 1];
      OthersKept(snapshot, front, id, key);
      var st := WithEntries(snapshot, front, id);
      var fe := EntryOf(st, last.path, last.meta, 1);
      assert WithEntries(snapshot, files, id).files == Insert(st.files, last.path, fe);
      AssignSorted(st.files, last.path, fe);
      FindInsert(st.files, last.path, fe, key);
    }
  }

  lemma SplitDifferent(before: State, ps: seq<Promise>, more: seq<Promise>)
    requires Different(before, ps + more)
    ensures Different(before, ps) && Different(before, more)
    ensures forall j, k :: 0 <= j < |ps| && 0 <= k < |more| ==> LoadedKey(ps[j].path) != LoadedKey(more[k].path)
  {
    hide NewPath, LoadedKey;
    var all := ps + more;
    assert forall j :: 0 <= j < |ps| ==> all[j] == ps[j];
    assert forall k :: 0 <= k < |more| ==> all[|ps| + k] == more[k];
    forall j, k | 0 <= j < |ps| && 0 <= k < |more|
      ensures LoadedKey(ps[j].path) != LoadedKey(more[k].path)
    {
      assert LoadedKey(all[j].path) != LoadedKey(all[|ps| + k].path);
    }
    forall j, k | 0 <= j < k < |more|
      ensures LoadedKey(more[j].path) != LoadedKey(more[k].path)
    {
      assert LoadedKey(all[|ps| + j].path) != LoadedKey(all[|ps| + k].path);
    }
  }

  /** What a backup keeps: a sound store and snapshot, and every file taken in so far. */
  ghost predicate BackupInv(keys: Keys, u: iset<seq<byte>>, b: Backup, strs: seq<Str>, before: State,
                            ps: seq<Promise>) {
    && Sound(keys, u, b.store.objects) && Inv(b.snapshot, strs)
    && KeysPromised(b.snapshot, before, ps) && AllHold(keys, b, ps)
  }

  lemma InvSorted(st: State, strs: seq<Str>)
    requires Inv(st, strs)
    ensures Sorted(st.files)
  {
  }

  lemma BlocksHold(keys: Keys, u: iset<seq<byte>>, b: Backup, strs: seq<Str>, step: nat, op: BackupOp)
    requires keys.Lawful() && CollisionFree(keys, u) && Sound(keys, u, b.store.objects)
    requires op.Blocks? && LegalStep(keys, u, b, op) && Sorted(b.snapshot.files) && Inv(b.snapshot, strs)
    requires Find(b.snapshot.files, op.path).None?
    ensures var b' := BackupStep(keys, b, op);
            && Sound(keys, u, b'.store.objects) && Kept(b.store.objects, b'.store.objects)
            && Holds(keys, b', Promised(step, |b.snapshot.objectIds|, op)[0])
            && b.snapshot.objectIds <= b'.snapshot.objectIds
    ensures var b' := BackupStep(keys, b, op);
            forall key :: key != op.path ==> Find(b'.snapshot.files, key) == Find(b.snapshot.files, key)
  {
    hide Keys.Lawful, CollisionFree, Sound, UploadBlocks, AllIn, NoNul, Find, InsertString, FileName, ParentPath;
    hide Insert, FetchAll, AllStored, Flatten, Sorted, BlockIds, Kept, Inv, Describes, Rejoins;
    var ct := op.meta.compression;
    var b', ids := BackupStep(keys, b, op), BlockIds(keys, ct, op.blocks);
    var fe := EntryOf(b.snapshot, op.path, op.meta, |ids|);
    UploadBlocksSound(keys, u, b.store, ct, op.blocks);
    NewEntryDescribes(b.snapshot, strs, op.path, op.meta, ids);
    assert b'.snapshot.files == Insert(b.snapshot.files, op.path, fe);
    forall key
      ensures Find(b'.snapshot.files, key) == if key == op.path then Some(fe) else Find(b.snapshot.files, key)
    {
      FindInsert(b.snapshot.files, op.path, fe, key);
    }
    var n := |b.snapshot.objectIds|;
    assert (b.snapshot.objectIds + ids)[n..n + |ids|] == ids;
    FetchStored(keys, b'.store.objects, fe, op.blocks);
  }

  lemma BlocksKeep(keys: Keys, u: iset<seq<byte>>, b: Backup, strs: seq<Str>, before: State, ps: seq<Promise>,
                   step: nat, op: BackupOp)
      returns (strs': seq<Str>)
    requires keys.Lawful() && CollisionFree(keys, u) && Sorted(before.files) && BackupInv(keys, u, b, strs, before, ps)
    requires op.Blocks? && LegalStep(keys, u, b, op)
    requires Different(before, ps + Promised(step, |b.snapshot.objectIds|, op))
    ensures BackupInv(keys, u, BackupStep(keys, b, op), strs', before,
                      ps + Promised(step, |b.snapshot.objectIds|, op))
  {
    hide Keys.Lawful, CollisionFree, Sound, Inv, Find, LoadedKey, NewPath, Holds, Flatten, Sorted, Kept;
    hide AddFileEntry, UploadBlocks, BlockIds, AllIn, NoNul, Rejoins, StrsAfterAdd;
    var p, b' := Promised(step, |b.snapshot.objectIds|, op)[0], BackupStep(keys, b, op);
    assert Promised(step, |b.snapshot.objectIds|, op) == [p] && p.path == op.path;
    SplitDifferent(before, ps, [p]);
    InvSorted(b.snapshot, strs);
    assert [p][0] == p;
    forall k | 0 <= k < |ps|
      ensures LoadedKey(ps[k].path) != LoadedKey(p.path)
    {
      assert LoadedKey(ps[k].path) != LoadedKey([p][0].path);
    }
    assert NewPath(before.files, [p][0].path);
    StillNew(b.snapshot, before, ps, op.path);
    BlocksHold(keys, u, b, strs, step, op);
    var ids := BlockIds(keys, op.meta.compression, op.blocks);
    AddKeepsInv(b.snapshot, strs, op.path, op.meta, ids);
    strs' := StrsAfterAdd(b.snapshot, strs, op.path, op.meta);
    forall k | 0 <= k < |ps|
      ensures Holds(keys, b', ps[k])
    {
      HoldsLater(keys, b, strs, b', strs', ps[k]);
    }
    OnePromised(b.snapshot, b'.snapshot, before, ps, p);
  }

  /** The keys after an entry under one more promised path. */
  lemma OnePromised(st: State, st': State, before: State, ps: seq<Promise>, p: Promise)
    requires KeysPromised(st, before, ps)
    requires forall key :: key != p.path ==> Find(st'.files, key) == Find(st.files, key)
    ensures KeysPromised(st', before, ps + [p])
  {
    hide Find;
    var all := ps + [p];
    forall key | Find(st'.files, key).Some? && Find(before.files, key).None?
      ensures exists k :: 0 <= k < |all| && all[k].path == key
    {
      if key == p.path {
        assert all[|ps|].path == key;
      } else {
        var k :| 0 <= k < |ps| && ps[k].path == key;
        assert all[k].path == key;
      }
    }
  }

  lemma PackNew(b: Backup, strs: seq<Str>, before: State, ps: seq<Promise>, step: nat, files: seq<PackFile>)
    requires Inv(b.snapshot, strs) && Sorted(before.files) && KeysPromised(b.snapshot, before, ps)
    requires Different(before, ps + Promised(step, |b.snapshot.objectIds|, Pack(files)))
    ensures NewPaths(b.snapshot, files)
    ensures forall j, k :: 0 <= j < |ps| && 0 <= k < |files| ==> files[k].path != ps[j].path
  {
    hide Find, LoadedKey, NewPath, KeysPromised, Sorted;
    var more := Promised(step, |b.snapshot.objectIds|, Pack(files));
    SplitDifferent(before, ps, more);
    InvSorted(b.snapshot, strs);
    forall k | 0 <= k < |files|
      ensures NewPath(b.snapshot.files, files[k].path)
    {
      assert more[k].path == files[k].path;
      StillNew(b.snapshot, before, ps, more[k].path);
    }
    forall j, k | 0 <= j < k < |files|
      ensures LoadedKey(files[j].path) != LoadedKey(files[k].path)
    {
      assert more[j].path == files[j].path && more[k].path == files[k].path;
    }
    forall j, k | 0 <= j < |ps| && 0 <= k < |files|
      ensures files[k].path != ps[j].path
    {
      assert LoadedKey(ps[j].path) != LoadedKey(more[k].path);
    }
  }

  /** Every file of a new pack holds. */
  lemma PackHolds(keys: Keys, b: Backup, step: nat, files: seq<PackFile>, k: nat)
    requires k < |files| && AllRestored(keys, b.store, files) && Entered(keys, b.store, files)[k].path == files[k].path
    requires Said(Entered(keys, b.store, files)[k].meta) == Said(files[k].meta)
    requires var b' := BackupStep(keys, b, Pack(files));
             Filed(b'.snapshot, b.snapshot, Entered(keys, b.store, files), keys.hash(PackMessage(files)))
    ensures Holds(keys, BackupStep(keys, b, Pack(files)), Promised(step, |b.snapshot.objectIds|, Pack(files))[k])
  {
    hide Find, LoadedKey, PackMessage, Entered, PackStore, Fetch;
    hide FetchAll, RefersTo, AllRestored, KeysFrom, WithEntries, Describes, Said;
    hide UploadBlocks, AddFileEntry, BlockIds, ApplyToStore, DataPath;
    var b', id := BackupStep(keys, b, Pack(files)), keys.hash(PackMessage(files));
    assert EntryAt(b'.snapshot, |b.snapshot.objectIds|, Entered(keys, b.store, files), k);
    var fe := Find(b'.snapshot.files, files[k].path).value;
    OneRestored(keys, b.store, files, k, fe);
    OneFetched(keys, PackStore(keys, b.store, files).objects, fe, id);
    assert EntryIds(b'.snapshot, fe) == [id];
    DescribesSaid(b'.snapshot, fe, Entered(keys, b.store, files)[k].meta, files[k].meta);
  }

  lemma PackKeeps(keys: Keys, u: iset<seq<byte>>, b: Backup, strs: seq<Str>, before: State, ps: seq<Promise>,
                  step: nat, files: seq<PackFile>)
      returns (strs': seq<Str>)
    requires keys.Lawful() && CollisionFree(keys, u) && Sorted(before.files) && BackupInv(keys, u, b, strs, before, ps)
    requires LegalStep(keys, u, b, Pack(files))
    requires Different(before, ps + Promised(step, |b.snapshot.objectIds|, Pack(files)))
    ensures BackupInv(keys, u, BackupStep(keys, b, Pack(files)), strs', before,
                      ps + Promised(step, |b.snapshot.objectIds|, Pack(files)))
  {
    hide Keys.Lawful, CollisionFree, Sound, Inv, Find, LoadedKey, NewPath, Holds, Flatten, Sorted, Kept, KeysPromised;
    hide WithEntries, PackStore, Entered, Filed, AllRestored, PackMessage, NewPaths, CStrings, SealedFiles;
    var b', entered := BackupStep(keys, b, Pack(files)), Entered(keys, b.store, files);
    var id := keys.hash(PackMessage(files));
    var more := Promised(step, |b.snapshot.objectIds|, Pack(files));
    PackNew(b, strs, before, ps, step, files);
    SamePaths(keys, b.store, b.snapshot, files);
    strs' := EntriesFiled(b.snapshot, strs, entered, id);
    ApplySound(keys, u, b.store, PackWrite(files));
    ApplyKeeps(keys, b.store, PackWrite(files));
    NewPackRestores(keys, b.store, files);
    InvSorted(b.snapshot, strs);
    FiledIds(b'.snapshot, b.snapshot, entered, id);
    forall k | 0 <= k < |ps|
      ensures Holds(keys, b', ps[k])
    {
      OthersKept(b.snapshot, entered, id, ps[k].path);
      HoldsLater(keys, b, strs, b', strs', ps[k]);
    }
    forall k | 0 <= k < |files|
      ensures Holds(keys, b', more[k])
    {
      PackHolds(keys, b, step, files, k);
    }
    var all := ps + more;
    assert forall k :: 0 <= k < |all| ==> all[k] == if k < |ps| then ps[k] else more[k - |ps|];
    PackPromised(b.snapshot, b'.snapshot, before, ps, step, files, entered, id);
  }

  lemma FiledIds(snapshot: State, before: State, files: seq<PackFile>, id: ObjectId)
    requires Filed(snapshot, before, files, id)
    ensures before.objectIds <= snapshot.objectIds && KeysFrom(snapshot, before, files)
  {
  }

  lemma PackPromised(st: State, st': State, before: State, ps: seq<Promise>, step: nat, files: seq<PackFile>,
                     entered: seq<PackFile>, id: ObjectId)
    requires KeysPromised(st, before, ps) && KeysFrom(st', st, entered) && |entered| == |files|
    requires forall k :: 0 <= k < |files| ==> entered[k].path == files[k].path
    ensures KeysPromised(st', before, ps + Promised(step, |st.objectIds|, Pack(files)))
  {
    hide Find;
    var more := Promised(step, |st.objectIds|, Pack(files));
    var all := ps + more;
    forall key | Find(st'.files, key).Some? && Find(before.files, key).None?
      ensures exists k :: 0 <= k < |all| && all[k].path == key
    {
      if Find(st.files, key).Some? {
        var k :| 0 <= k < |ps| && ps[k].path == key;
        assert all[k].path == key;
      } else {
        var k :| 0 <= k < |entered| && entered[k].path == key;
        assert all[|ps| + k].path == key;
      }
    }
  }

  lemma ElsewhereKeeps(keys: Keys, u: iset<seq<byte>>, b: Backup, strs: seq<Str>, before: State, ps: seq<Promise>,
                       op: StoreOp)
    requires keys.Lawful() && CollisionFree(keys, u) && BackupInv(keys, u, b, strs, before, ps) && LegalOp(keys, u, op)
    ensures BackupInv(keys, u, BackupStep(keys, b, Elsewhere(op)), strs, before, ps)
  {
    hide Keys.Lawful, CollisionFree, Sound, Inv, Holds, Kept, KeysPromised, ApplyToStore;
    ApplySound(keys, u, b.store, op);
    ApplyKeeps(keys, b.store, op);
    forall k | 0 <= k < |ps|
      ensures Holds(keys, BackupStep(keys, b, Elsewhere(op)), ps[k])
    {
      HoldsFind(keys, b, ps[k]);
      HoldsLater(keys, b, strs, BackupStep(keys, b, Elsewhere(op)), strs, ps[k]);
    }
  }

  lemma HoldsFind(keys: Keys, b: Backup, p: Promise)
    requires Holds(keys, b, p)
    ensures Find(b.snapshot.files, p.path).Some?
  {
  }

  /** The object ids after a backup are as many as its steps add. */
  lemma {:induction false} IdsCounted(keys: Keys, u: iset<seq<byte>>, b: Backup, ops: seq<BackupOp>)
    requires LegalBackup(keys, u, b, ops)
    ensures |BackupRun(keys, b, ops).snapshot.objectIds| == IdCount(|b.snapshot.objectIds|, ops)
    decreases |ops|
  {
    hide LegalStep, BackupStep, Adds;
    if ops != [] {
      var front := ops[..|ops| - 1];
      IdsCounted(keys, u, b, front);
      StepAdds(keys, u, BackupRun(keys, b, front), ops[|ops| - 1]);
    }
  }

  lemma StepAdds(keys: Keys, u: iset<seq<byte>>, b: Backup, op: BackupOp)
    requires LegalStep(keys, u, b, op)
    ensures |BackupStep(keys, b, op).snapshot.objectIds| == |b.snapshot.objectIds| + Adds(op)
  {
    hide UploadBlocks, InsertString, FileName, ParentPath, Insert, AllIn, NoNul, Rejoins, CStrings;
    hide LawfulFiles, LegalOp, PackStore, Entered, PackMessage, Flatten, ApplyToStore, WithEntries;
    if op.Pack? {
      EntriesAdd(b.snapshot, Entered(keys, b.store, op.files), keys.hash(PackMessage(op.files)));
    }
  }

  lemma {:induction false} EntriesAdd(snapshot: State, files: seq<PackFile>, id: ObjectId)
    ensures |WithEntries(snapshot, files, id).objectIds| == |snapshot.objectIds| + |files|
    decreases |files|
  {
    hide InsertString, FileName, ParentPath, Insert;
    if files != [] {
      EntriesAdd(snapshot, files[..|files| - 1], id);
    }
  }

  /** Every step of a backup keeps all the files taken in before it and takes in its own. */
  lemma {:induction false} BackupKeeps(keys: Keys, u: iset<seq<byte>>, b: Backup, strs: seq<Str>, ops: seq<BackupOp>)
      returns (strs': seq<Str>)
    requires keys.Lawful() && CollisionFree(keys, u) && Sound(keys, u, b.store.objects) && Inv(b.snapshot, strs)
    requires LegalBackup(keys, u, b, ops) && Different(b.snapshot, Promises(|b.snapshot.objectIds|, ops))
    ensures BackupInv(keys, u, BackupRun(keys, b, ops), strs', b.snapshot, Promises(|b.snapshot.objectIds|, ops))
    decreases |ops|
  {
    hide Keys.Lawful, CollisionFree, Sound, Inv, LegalStep, BackupStep, BackupInv, Different, Promised, Sorted, IdCount;
    InvSorted(b.snapshot, strs);
    if ops == [] {
      strs' := strs;
      NothingPromised(keys, u, b, strs);
    } else {
      var front, last := ops[..|ops| - 1], ops[|ops| - 1];
      var c, n, step := BackupRun(keys, b, front), |b.snapshot.objectIds|, |ops| - 1;
      IdsCounted(keys, u, b, front);
      SplitDifferent(b.snapshot, Promises(n, front), Promised(step, |c.snapshot.objectIds|, last));
      var mid := BackupKeeps(keys, u, b, strs, front);
      match last {
        case Blocks(_, _, _) => strs' := BlocksKeep(keys, u, c, mid, b.snapshot, Promises(n, front), step, last);
        case Pack(files) => strs' := PackKeeps(keys, u, c, mid, b.snapshot, Promises(n, front), step, files);
        case Elsewhere(op) =>
          strs' := mid;
          StepElsewhere(keys, u, c, step, |c.snapshot.objectIds|, op, Promises(n, front));
          ElsewhereKeeps(keys, u, c, mid, b.snapshot, Promises(n, front), op);
      }
    }
  }

  lemma NothingPromised(keys: Keys, u: iset<seq<byte>>, b: Backup, strs: seq<Str>)
    requires Sound(keys, u, b.store.objects) && Inv(b.snapshot, strs)
    ensures BackupInv(keys, u, b, strs, b.snapshot, [])
  {
    hide Sound, Inv, Find;
  }

  lemma StepElsewhere(keys: Keys, u: iset<seq<byte>>, b: Backup, step: nat, n: nat, op: StoreOp, ps: seq<Promise>)
    requires LegalStep(keys, u, b, Elsewhere(op))
    ensures LegalOp(keys, u, op) && ps + Promised(step, n, Elsewhere(op)) == ps
  {
  }

  /** Different loaded keys stay different in whatever order the files are taken in. */
  lemma DifferentAnyOrder(n: nat, ops: seq<BackupOp>, files: seq<Taken>)
    requires multiset(AllTaken(ops)) == multiset(files)
    requires forall j, k :: 0 <= j < k < |files| ==> LoadedKey(files[j].0) != LoadedKey(files[k].0)
    ensures Different(Empty(), Promises(n, ops))
  {
    hide LoadedKey, AllTaken, Promises;
    PromisesTaken(n, ops);
    var ps, all := Promises(n, ops), AllTaken(ops);
    forall j, k | 0 <= j < k < |ps|
      ensures LoadedKey(ps[j].path) != LoadedKey(ps[k].path)
    {
      assert all[j].0 == ps[j].path && all[k].0 == ps[k].path;
      var j', k' := TwoPlaces(all, files, j, k);
    }
  }

  /** Two places of a sequence, in a sequence of the same elements. */
  lemma TwoPlaces<T>(a: seq<T>, b: seq<T>, j: nat, k: nat) returns (j': nat, k': nat)
    requires multiset(a) == multiset(b) && j < k < |a|
    ensures j' < |b| && k' < |b| && j' != k' && b[j'] == a[j] && b[k'] == a[k]
  {
    assert a == a[..k] + a[k..];
    assert a[j] == a[..k][j] && a[k] == a[k..][0];
    assert multiset(a) == multiset(a[..k]) + multiset(a[k..]);
    assert a[j] in multiset(b) && a[k] in multiset(b);
    j' :| 0 <= j' < |b| && b[j'] == a[j];
    if a[j] != a[k] {
      k' :| 0 <= k' < |b| && b[k'] == a[k];
    } else {
      assert b == b[..j'] + [b[j']] + b[j' + 1..];
      assert multiset(b)[a[j]] >= 2;
      assert multiset(b) == multiset(b[..j']) + multiset{b[j']} + multiset(b[j' + 1..]);
      if a[j] in b[..j'] {
        k' :| 0 <= k' < j' && b[..j'][k'] == a[j];
      } else {
        var i :| 0 <= i < |b[j' + 1..]| && b[j' + 1..][i] == a[j];
        k' := j' + 1 + i;
      }
    }
  }

  // ----- which files have an object id to be looked up -----

  /** No step after this one adds an object id. */
  ghost predicate NoIdsAfter(ops: seq<BackupOp>, step: nat) {
    forall j :: step < j < |ops| ==> Adds(ops[j]) == 0
  }

  lemma {:induction false} IdsAfter(n: nat, ops: seq<BackupOp>, i: nat)
    requires i < |ops|
    ensures IdCount(n, ops) >= IdCount(n, ops[..i]) + Adds(ops[i])
    ensures IdCount(n, ops) == IdCount(n, ops[..i]) + Adds(ops[i]) <==> NoIdsAfter(ops, i)
    decreases |ops|
  {
    hide Adds;
    var front := ops[..|ops| - 1];
    if i == |front| {
      assert ops[..i] == front;
    } else {
      IdsAfter(n, front, i);
      assert front[..i] == ops[..i];
      assert forall j :: i < j < |front| ==> front[j] == ops[j];
    }
  }

  /** Where the object ids of a file taken in begin. */
  lemma {:induction false} PromiseAt(n: nat, ops: seq<BackupOp>, k: nat)
    requires k < |Promises(n, ops)|
    ensures var p := Promises(n, ops)[k];
            && p.step < |ops| && IdCount(n, ops[..p.step]) <= p.first
            && p.first + p.count <= IdCount(n, ops[..p.step]) + Adds(ops[p.step])
            && (p.count == 0 ==> ops[p.step].Blocks? && Adds(ops[p.step]) == 0)
    decreases |ops|
  {
    var front := ops[..|ops| - 1];
    if k < |Promises(n, front)| {
      PromiseAt(n, front, k);
      assert front[..Promises(n, front)[k].step] == ops[..Promises(n, front)[k].step];
    }
  }

  ghost predicate EachAdds(ops: seq<BackupOp>) {
    forall i :: 0 <= i < |ops| ==> Adds(ops[i]) > 0
  }

  lemma EachAddsJoined(a: seq<BackupOp>, b: seq<BackupOp>)
    requires EachAdds(a) && EachAdds(b)
    ensures EachAdds(a + b)
  {
    hide Adds;
    assert forall i :: 0 <= i < |a + b| ==> (a + b)[i] == if i < |a| then a[i] else b[i - |a|];
  }

  /** Where every step adds object ids, every file has one to be looked up. */
  lemma EveryStepAdds(n: nat, ops: seq<BackupOp>, k: nat)
    requires k < |Promises(n, ops)| && EachAdds(ops)
    ensures Promises(n, ops)[k].count > 0
  {
    hide Promises, IdCount, Adds;
    PromiseAt(n, ops, k);
  }

  /** The object ids of a file begin beyond the last one exactly if it has none and no later step
      adds any. */
  lemma LastIdsExactly(n: nat, ops: seq<BackupOp>, k: nat)
    requires k < |Promises(n, ops)|
    ensures var p := Promises(n, ops)[k];
            p.first >= IdCount(n, ops) <==> p.count == 0 && NoIdsAfter(ops, p.step)
  {
    hide Promises, IdCount, Adds, NoIdsAfter;
    PromiseAt(n, ops, k);
    IdsAfter(n, ops, Promises(n, ops)[k].step);
  }

  lemma PromiseFound(snapshot: State, strs: seq<Str>, before: State, strs0: seq<Str>, ps: seq<Promise>, k: nat)
    requires Inv(snapshot, strs) && Inv(before, strs0) && KeysPromised(snapshot, before, ps) && Different(before, ps)
    requires k < |ps| && Find(snapshot.files, ps[k].path).Some?
    ensures Find(Refiled([], snapshot.files), LoadedKey(ps[k].path)) == Find(snapshot.files, ps[k].path)
  {
    hide Find, LoadedKey, EntryOk, Interned, Layout, Refiled;
    var key := ps[k].path;
    FindExactly(snapshot.files, key);
    var fe := Find(snapshot.files, key).value;
    var i :| 0 <= i < |snapshot.files| && snapshot.files[i] == (key, fe);
    forall j | 0 <= j < |snapshot.files| && LoadedKey(snapshot.files[j].0) == LoadedKey(key)
      ensures j == i
    {
      var other := snapshot.files[j].0;
      FindExactly(snapshot.files, other);
      assert (other, snapshot.files[j].1) in snapshot.files;
      FindExactly(before.files, other);
      assert other == key;
      KeysDiffer(snapshot.files, i, j);
    }
    LoneEntryFound(snapshot.files, i);
  }

  /** What holds at the end of a backup can be downloaded from the committed snapshot, if there is
      an object id where its own begin. */
  lemma PromiseKept(keys: Keys, b: Backup, objects: Objects, loaded: State, p: Promise)
    requires Holds(keys, b, p) && Kept(b.store.objects, objects)
    requires loaded.objectIds == b.snapshot.objectIds && |loaded.objectIds| < TWO_TO_THE_32
    requires Find(loaded.files, LoadedKey(p.path)) == Find(b.snapshot.files, p.path)
    requires loaded.buffer == b.snapshot.buffer
    ensures Find(loaded.files, LoadedKey(p.path)).Some?
    ensures IdsInRange(loaded, Find(loaded.files, LoadedKey(p.path)).value)
    ensures Describes(loaded, Find(loaded.files, LoadedKey(p.path)).value, p.meta)
    ensures Download(keys, objects, loaded, LoadedKey(p.path))
         == if p.first >= 0x8000_0000 || p.first >= |loaded.objectIds| then Err(Index(IndexOutOfBound))
            else Ok(Some(p.data))
  {
    hide Find, LoadedKey, FetchAll, Kept;
    var fe := Find(b.snapshot.files, p.path).value;
    FetchStable(keys, b.store.objects, objects, fe, EntryIds(b.snapshot, fe));
  }

  /** What a download gives of a file that a backup has taken in: its bytes, or an index error if
      its first object id is numbered 2^31 or more, or if it has none and no later file has any. */
  ghost function Restored(n: nat, ops: seq<BackupOp>, k: nat): Result<Option<seq<byte>>, RepositoryModel.Failure>
    requires k < |Promises(n, ops)|
  {
    var p := Promises(n, ops)[k];
    if p.first >= 0x8000_0000 || (p.count == 0 && NoIdsAfter(ops, p.step)) then Err(Index(IndexOutOfBound))
    else Ok(Some(p.data))
  }

  /** A whole backup: any number of files uploaded as blocks or in packs into one snapshot, in any
      order and with anything done to the store in between; then a commit, anything but a commit to
      the same name, and a load. Every file comes back byte for byte under its loaded key, but for
      the cases of `Restored`. */
  lemma WholeBackup(keys: Keys, u: iset<seq<byte>>, b: Backup, strs: seq<Str>, ops: seq<BackupOp>,
                    name: string, later: seq<StoreOp>, k: nat)
    requires keys.Lawful() && CollisionFree(keys, u) && Sound(keys, u, b.store.objects) && Inv(b.snapshot, strs)
    requires LegalBackup(keys, u, b, ops) && Different(b.snapshot, Promises(|b.snapshot.objectIds|, ops))
    requires k < |Promises(|b.snapshot.objectIds|, ops)|
    requires Fits(BackupRun(keys, b, ops).snapshot) && NotCommitted(later, name)
    ensures var done, n := BackupRun(keys, b, ops), |b.snapshot.objectIds|;
            var p := Promises(n, ops)[k];
            var end := StoreRun(keys, Commit(keys, done.store, name, done.snapshot), later).objects;
            var loaded := LoadSnapshot(keys, end, name);
            && loaded.Ok? && Find(loaded.value.files, LoadedKey(p.path)).Some?
            && IdsInRange(loaded.value, Find(loaded.value.files, LoadedKey(p.path)).value)
            && Describes(loaded.value, Find(loaded.value.files, LoadedKey(p.path)).value, p.meta)
            && Download(keys, end, loaded.value, LoadedKey(p.path)) == Restored(n, ops, k)
  {
    hide Keys.Lawful, CollisionFree, Sound, Inv, LegalBackup, Different, Promises, BackupRun, Fits, StoreRun, Commit;
    hide LoadSnapshot, Find, LoadedKey, Download, Refiled, Holds, KeysPromised, NotCommitted, Kept, NoIdsAfter;
    hide Describes;
    var strs' := BackupKeeps(keys, u, b, strs, ops);
    var done, n := BackupRun(keys, b, ops), |b.snapshot.objectIds|;
    var ps := Promises(n, ops);
    CommitLoads(keys, done.store, name, done.snapshot, strs');
    SnapshotStillLoads(keys, done.store, name, done.snapshot, later);
    var end := StoreRun(keys, Commit(keys, done.store, name, done.snapshot), later).objects;
    KeptToTheEnd(keys, done.store, name, done.snapshot, later);
    HoldsFind(keys, done, ps[k]);
    PromiseFound(done.snapshot, strs', b.snapshot, strs, ps, k);
    FitsIds(done.snapshot);
    PromiseKept(keys, done, end, LoadSnapshot(keys, end, name).value, ps[k]);
    IdsCounted(keys, u, b, ops);
    LastIdsExactly(n, ops, k);
  }

  /** The same from nothing: an empty store and an empty snapshot. */
  lemma BackupFromNothing(keys: Keys, u: iset<seq<byte>>, ops: seq<BackupOp>, name: string, later: seq<StoreOp>, k: nat)
    requires var b := Backup(Store(map[], 0), Empty());
             && keys.Lawful() && CollisionFree(keys, u)
             && LegalBackup(keys, u, b, ops) && Different(Empty(), Promises(0, ops))
             && Fits(BackupRun(keys, b, ops).snapshot)
             && k < |Promises(0, ops)| && NotCommitted(later, name)
    ensures var done, p := BackupRun(keys, Backup(Store(map[], 0), Empty()), ops), Promises(0, ops)[k];
            var end := StoreRun(keys, Commit(keys, done.store, name, done.snapshot), later).objects;
            var loaded := LoadSnapshot(keys, end, name);
            && loaded.Ok? && Find(loaded.value.files, LoadedKey(p.path)).Some?
            && IdsInRange(loaded.value, Find(loaded.value.files, LoadedKey(p.path)).value)
            && Describes(loaded.value, Find(loaded.value.files, LoadedKey(p.path)).value, p.meta)
            && Download(keys, end, loaded.value, LoadedKey(p.path)) == Restored(0, ops, k)
  {
    hide *;
    EmptyStoreSound(keys, u);
    InvEmpty();
    NoIdsYet();
    WholeBackup(keys, u, Backup(Store(map[], 0), Empty()), [], ops, name, later, k);
  }

  lemma NoIdsYet()
    ensures |Empty().objectIds| == 0
  {
  }
}
