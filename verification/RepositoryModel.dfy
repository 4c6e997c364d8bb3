/** What the data store holds and what the operations of a repository make of it. */
module RepositoryModel {
  import opened Bytes
  import opened Base32
  import opened CipherStreams
  import opened Envelope
  import opened OrderedMap
  import opened StringTable
  import opened Paths
  import opened SnapshotModel
  import opened SnapshotFormat
  import opened SnapshotProperties

  /** The keyed primitives of one repository, and the source of initialisation vectors. */
  datatype Keys = Keys(codec: Codec, hash: seq<byte> -> ObjectId, ivs: nat -> seq<byte>) {
    ghost predicate Lawful() {
      codec.Lawful() && forall n :: |ivs(n)| == IV_LENGTH
    }
  }

  type Objects = map<string, seq<byte>>

  /** The data store, and how many initialisation vectors have been drawn. */
  datatype Store = Store(objects: Objects, drawn: nat)

  datatype Failure =
    | NotFound
    | Index(snapshot: SnapshotModel.Error)
    | Content(envelope: Envelope.Failure)

  // ----- names -----

  function DataPath(id: ObjectId): string {
    "/data/" + ObjectName(id)
  }

  function SnapshotPath(name: string): string {
    "/snapshot/" + name
  }

  lemma DataPathInjective(id: ObjectId, id': ObjectId)
    requires DataPath(id) == DataPath(id')
    ensures id == id'
  {
    hide ObjectName;
    assert ObjectName(id) == DataPath(id)[6..] && ObjectName(id') == DataPath(id')[6..];
    ObjectNameInjective(id, id');
  }

  lemma PathsDisjoint(id: ObjectId, name: string)
    ensures DataPath(id) != SnapshotPath(name)
  {
    hide ObjectName;
    assert DataPath(id)[1] == 'd' && SnapshotPath(name)[1] == 's';
  }

  // ----- uploading blocks -----

  /** The bytes hashed for a block: the compression type comes first. */
  function Message(ct: byte, block: seq<byte>): seq<byte> {
    [ct] + block
  }

  function BlockId(keys: Keys, ct: byte, block: seq<byte>): ObjectId {
    keys.hash(Message(ct, block))
  }

  function Put(keys: Keys, st: Store, path: string, ct: byte, data: seq<byte>): Store {
    Store(st.objects[path := Seal(keys.codec, ct, keys.ivs(st.drawn), data)], st.drawn + 1)
  }

  /** Repository::compressEncryptAndUploadBlock: what exists is left alone. */
  function UploadBlock(keys: Keys, st: Store, ct: byte, block: seq<byte>): Store {
    var path := DataPath(BlockId(keys, ct, block));
    if path in st.objects then st else Put(keys, st, path, ct, block)
  }

  function UploadBlocks(keys: Keys, st: Store, ct: byte, blocks: seq<seq<byte>>): Store {
    if blocks == [] then st
    else UploadBlock(keys, UploadBlocks(keys, st, ct, blocks[..|blocks| - 1]), ct, blocks[|blocks| - 1])
  }

  function BlockIds(keys: Keys, ct: byte, blocks: seq<seq<byte>>): (ids: seq<ObjectId>)
    ensures |ids| == |blocks|
  {
    seq(|blocks|, k requires 0 <= k < |blocks| => BlockId(keys, ct, blocks[k]))
  }

  lemma UploadSnoc(keys: Keys, st: Store, ct: byte, blocks: seq<seq<byte>>, block: seq<byte>)
    ensures UploadBlocks(keys, st, ct, blocks + [block])
         == UploadBlock(keys, UploadBlocks(keys, st, ct, blocks), ct, block)
    ensures BlockIds(keys, ct, blocks + [block]) == BlockIds(keys, ct, blocks) + [BlockId(keys, ct, block)]
  {
    hide UploadBlock, BlockId;
    assert (blocks + [block])[..|blocks|] == blocks;
  }

  // ----- the store invariant -----

  /** No two of the messages in use have the same hash. */
  ghost predicate CollisionFree(keys: Keys, u: iset<seq<byte>>) {
    forall m, m' :: m in u && m' in u && keys.hash(m) == keys.hash(m') ==> m == m'
  }

  ghost predicate IsMessage(m: seq<byte>) {
    m != [] && m[0] <= LZMA2
  }

  /** A stored object opens to the one block whose message has the object's name. */
  ghost predicate Sound(keys: Keys, u: iset<seq<byte>>, objects: Objects) {
    forall m :: m in u && IsMessage(m) && DataPath(keys.hash(m)) in objects
      ==> Open(keys.codec, m[0], objects[DataPath(keys.hash(m))]) == Ok(m[1..])
  }

  lemma EmptyStoreSound(keys: Keys, u: iset<seq<byte>>)
    ensures Sound(keys, u, map[])
  {
  }

  /** An upload keeps the invariant, whether it stores the block or finds it there; and what was
      stored before stays as it was. */
  lemma UploadBlockSound(keys: Keys, u: iset<seq<byte>>, st: Store, ct: byte, block: seq<byte>)
    requires keys.Lawful() && CollisionFree(keys, u) && Sound(keys, u, st.objects)
    requires ct <= LZMA2 && Message(ct, block) in u
    ensures var st' := UploadBlock(keys, st, ct, block);
            && Sound(keys, u, st'.objects) && Kept(st.objects, st'.objects)
            && DataPath(BlockId(keys, ct, block)) in st'.objects
            && Open(keys.codec, ct, st'.objects[DataPath(BlockId(keys, ct, block))]) == Ok(block)
  {
    hide Open, Seal, ObjectName, Codec.Lawful, DataPath;
    var m, st' := Message(ct, block), UploadBlock(keys, st, ct, block);
    assert m[0] == ct && m[1..] == block;
    OpenSeal(keys.codec, ct, keys.ivs(st.drawn), block);
    forall n | n in u && IsMessage(n) && DataPath(keys.hash(n)) in st'.objects
      ensures Open(keys.codec, n[0], st'.objects[DataPath(keys.hash(n))]) == Ok(n[1..])
    {
      if DataPath(keys.hash(n)) == DataPath(keys.hash(m)) {
        DataPathInjective(keys.hash(n), keys.hash(m));
        assert n == m;
      }
    }
  }

  /** No data object is lost or changed. */
  ghost predicate Kept(objects: Objects, objects': Objects) {
    forall id: ObjectId :: DataPath(id) in objects
      ==> DataPath(id) in objects' && objects'[DataPath(id)] == objects[DataPath(id)]
  }

  ghost predicate AllIn(u: iset<seq<byte>>, ct: byte, blocks: seq<seq<byte>>) {
    forall i :: 0 <= i < |blocks| ==> Message(ct, blocks[i]) in u
  }

  /** After an upload every block can be opened under its id. */
  lemma {:induction false} UploadBlocksSound(keys: Keys, u: iset<seq<byte>>, st: Store, ct: byte,
                                             blocks: seq<seq<byte>>)
    requires keys.Lawful() && CollisionFree(keys, u) && Sound(keys, u, st.objects)
    requires ct <= LZMA2 && AllIn(u, ct, blocks)
    ensures var st' := UploadBlocks(keys, st, ct, blocks);
            Sound(keys, u, st'.objects) && Kept(st.objects, st'.objects) && AllStored(keys, ct, blocks, st'.objects)
    decreases |blocks|
  {
    hide Sound, CollisionFree, Keys.Lawful, Open, UploadBlock, DataPath, BlockId, Message;
    if blocks != [] {
      var front, last := blocks[..|blocks| - 1], blocks[|blocks| - 1];
      UploadBlocksSound(keys, u, st, ct, front);
      UploadBlockSound(keys, u, UploadBlocks(keys, st, ct, front), ct, last);
      var st' := UploadBlocks(keys, st, ct, blocks);
      forall i | 0 <= i < |blocks|
        ensures IsStored(keys, ct, blocks[i], st'.objects)
      {
        if i < |front| {
          assert IsStored(keys, ct, front[i], UploadBlocks(keys, st, ct, front).objects);
        }
      }
    }
  }

  ghost predicate IsStored(keys: Keys, ct: byte, block: seq<byte>, objects: Objects) {
    && DataPath(BlockId(keys, ct, block)) in objects
    && Open(keys.codec, ct, objects[DataPath(BlockId(keys, ct, block))]) == Ok(block)
  }

  ghost predicate AllStored(keys: Keys, ct: byte, blocks: seq<seq<byte>>, objects: Objects) {
    forall i :: 0 <= i < |blocks| ==> IsStored(keys, ct, blocks[i], objects)
  }

  // ----- downloading -----

  /** The part of an object an entry refers to: all of it, or a range of a pack. */
  function Part(s: seq<byte>, fe: FileEntry): (r: seq<byte>)
    ensures fe.packLength == 0 ==> r == s
    ensures fe.packLength > 0 && fe.offset >= |s| ==> r == []
    ensures fe.packLength > 0 && fe.offset < |s| ==>
      r <= s[fe.offset..] && |r| == Min(fe.packLength, |s| - fe.offset)
  {
    if fe.packLength > 0 then s[Min(fe.offset, |s|)..Min(fe.offset + fe.packLength, |s|)] else s
  }

  function Fetch(keys: Keys, objects: Objects, fe: FileEntry, id: ObjectId): Result<seq<byte>, Failure> {
    if DataPath(id) !in objects then Err(NotFound)
    else match Open(keys.codec, fe.compression, Part(objects[DataPath(id)], fe))
         case Ok(data) => Ok(data)
         case Err(e) => Err(Content(e))
  }

  lemma FetchCases(keys: Keys, objects: Objects, fe: FileEntry, id: ObjectId)
    ensures DataPath(id) !in objects ==> Fetch(keys, objects, fe, id) == Err(NotFound)
    ensures DataPath(id) in objects ==>
      var s := objects[DataPath(id)];
      var part := if fe.packLength == 0 then s else s[Min(fe.offset, |s|)..Min(fe.offset + fe.packLength, |s|)];
      Fetch(keys, objects, fe, id) == match Open(keys.codec, fe.compression, part)
                                      case Ok(data) => Ok([] + data)
                                      case Err(e) => Err(Content(e))
  {
    hide Open, DataPath;
    assert forall data: seq<byte> :: [] + data == data;
  }

  function FetchAll(keys: Keys, objects: Objects, fe: FileEntry, ids: seq<ObjectId>): Result<seq<byte>, Failure> {
    if ids == [] then Ok([])
    else
      var front :- FetchAll(keys, objects, fe, ids[..|ids| - 1]);
      var last :- Fetch(keys, objects, fe, ids[|ids| - 1]);
      Ok(front + last)
  }

  /** The object ids of an entry stay inside the vector. */
  predicate IdsInRange(st: State, fe: FileEntry) {
    fe.objectIdIndex + fe.objectCount <= |st.objectIds|
  }

  /** Repository::downloadFile: nothing for an unknown path; an entry without objects still has
      its first object looked up. */
  function Download(keys: Keys, objects: Objects, st: State, path: Str): Result<Option<seq<byte>>, Failure>
    requires Find(st.files, path).Some? ==> IdsInRange(st, Find(st.files, path).value)
  {
    match Find(st.files, path)
    case None => Ok(None)
    case Some(fe) =>
      var first := ToInt32(fe.objectIdIndex);
      if first < 0 || first >= |st.objectIds| then Err(Index(IndexOutOfBound))
      else
        var data :- FetchAll(keys, objects, fe, EntryIds(st, fe));
        Ok(Some(data))
  }

  /** What a download must answer: nothing for a path that is not there; an index error where the
      entry's ids begin beyond the last one, or beyond 2^31; and otherwise what the first object
      that cannot be used gives, or all of them joined. */
  ghost predicate RightAnswer(keys: Keys, objects: Objects, st: State, path: Str,
                              r: Result<Option<seq<byte>>, Failure>)
    requires Find(st.files, path).Some? ==> IdsInRange(st, Find(st.files, path).value)
  {
    match Find(st.files, path)
    case None => r == Ok(None)
    case Some(fe) =>
      && r != Ok(None)
      && (fe.objectIdIndex < 0x1_0000_0000 && (fe.objectIdIndex >= 0x8000_0000 || fe.objectIdIndex >= |st.objectIds|)
          ==> r == Err(Index(IndexOutOfBound)))
      && (fe.objectIdIndex < 0x8000_0000 && fe.objectIdIndex < |st.objectIds| ==>
            forall n :: 0 <= n <= fe.objectCount && AllOpen(keys, objects, fe, EntryIds(st, fe)[..n])
              ==> if n == fe.objectCount then Joins(keys, objects, fe, EntryIds(st, fe), r)
                  else Stops(keys, objects, fe, EntryIds(st, fe)[n], r))
  }

  /** The object is there, and its MAC, cipher and compression are right. */
  ghost predicate Opens(keys: Keys, objects: Objects, fe: FileEntry, id: ObjectId) {
    && "/data/" + ObjectName(id) in objects
    && Open(keys.codec, fe.compression, Part(objects["/data/" + ObjectName(id)], fe)).Ok?
  }

  ghost predicate AllOpen(keys: Keys, objects: Objects, fe: FileEntry, ids: seq<ObjectId>) {
    forall i :: 0 <= i < |ids| ==> Opens(keys, objects, fe, ids[i])
  }

  function Opened(keys: Keys, objects: Objects, fe: FileEntry, ids: seq<ObjectId>): seq<seq<byte>>
    requires AllOpen(keys, objects, fe, ids)
  {
    seq(|ids|, i requires 0 <= i < |ids| =>
      Open(keys.codec, fe.compression, Part(objects["/data/" + ObjectName(ids[i])], fe)).value)
  }

  ghost predicate Joins(keys: Keys, objects: Objects, fe: FileEntry, ids: seq<ObjectId>,
                        r: Result<Option<seq<byte>>, Failure>) {
    AllOpen(keys, objects, fe, ids) ==> r == Ok(Some(Flatten(Opened(keys, objects, fe, ids))))
  }

  /** What an object that cannot be used gives, if it is the first. */
  ghost predicate Stops(keys: Keys, objects: Objects, fe: FileEntry, id: ObjectId,
                        r: Result<Option<seq<byte>>, Failure>) {
    var path := "/data/" + ObjectName(id);
    if path !in objects then r == Err(NotFound)
    else
      var s := Part(objects[path], fe);
      if |s| < 32 then r == Err(Content(Stream(CipherStreams.ShortRead)))
      else if s[..32] != keys.codec.mac(s[32..]) then r == Err(Content(Stream(CipherStreams.VerificationFailed)))
      else Opens(keys, objects, fe, id) || (r.Err? && r.error.Content?)
  }

  lemma {:induction false} FetchOpened(keys: Keys, objects: Objects, fe: FileEntry, ids: seq<ObjectId>)
    requires AllOpen(keys, objects, fe, ids)
    ensures FetchAll(keys, objects, fe, ids) == Ok(Flatten(Opened(keys, objects, fe, ids)))
    decreases |ids|
  {
    hide Open, ObjectName, Part, Flatten;
    NothingFlattened();
    if ids != [] {
      var front, last := ids[..|ids| - 1], ids[|ids| - 1];
      assert forall i :: 0 <= i < |front| ==> ids[i] == front[i];
      FetchOpened(keys, objects, fe, front);
      var pieces := Opened(keys, objects, fe, ids);
      assert pieces == Opened(keys, objects, fe, front) + [pieces[|ids| - 1]];
      FlattenSnoc(Opened(keys, objects, fe, front), pieces[|ids| - 1]);
      assert Opens(keys, objects, fe, last);
    }
  }

  /** The first object that cannot be used decides. */
  lemma {:induction false} FetchStops(keys: Keys, objects: Objects, fe: FileEntry, ids: seq<ObjectId>, n: nat)
    requires n < |ids| && AllOpen(keys, objects, fe, ids[..n]) && Fetch(keys, objects, fe, ids[n]).Err?
    ensures FetchAll(keys, objects, fe, ids) == Err(Fetch(keys, objects, fe, ids[n]).error)
    decreases |ids|
  {
    hide Fetch, AllOpen;
    var front := ids[..|ids| - 1];
    if n == |front| {
      FetchOpened(keys, objects, fe, front);
    } else {
      assert front[..n] == ids[..n];
      FetchStops(keys, objects, fe, front, n);
    }
  }

  lemma StopIs(keys: Keys, objects: Objects, fe: FileEntry, id: ObjectId)
    ensures !Opens(keys, objects, fe, id) <==> Fetch(keys, objects, fe, id).Err?
    ensures Fetch(keys, objects, fe, id).Err? ==>
      Stops(keys, objects, fe, id, Err(Fetch(keys, objects, fe, id).error))
  {
    hide ObjectName, Envelope.Decode, Part;
  }

  lemma StopsUnlessOpen(keys: Keys, objects: Objects, fe: FileEntry, id: ObjectId,
                        r: Result<Option<seq<byte>>, Failure>)
    requires Opens(keys, objects, fe, id)
    ensures Stops(keys, objects, fe, id, r)
  {
    hide ObjectName, Envelope.Decode, Part;
  }

  /** A download gives the right answer, whatever the snapshot and the store hold. */
  lemma DownloadAnswers(keys: Keys, objects: Objects, st: State, path: Str)
    requires Find(st.files, path).Some? ==> IdsInRange(st, Find(st.files, path).value)
    ensures RightAnswer(keys, objects, st, path, Download(keys, objects, st, path))
  {
    hide Find, Fetch, FetchAll, Opens, Stops, AllOpen, Flatten, Opened;
    if Find(st.files, path).Some? {
      var fe, r := Find(st.files, path).value, Download(keys, objects, st, path);
      var ids := EntryIds(st, fe);
      if fe.objectIdIndex < 0x8000_0000 && fe.objectIdIndex < |st.objectIds| {
        forall n | 0 <= n <= fe.objectCount && AllOpen(keys, objects, fe, ids[..n])
          ensures if n == fe.objectCount then Joins(keys, objects, fe, ids, r) else Stops(keys, objects, fe, ids[n], r)
        {
          if n == fe.objectCount {
            assert ids[..n] == ids;
            FetchOpened(keys, objects, fe, ids);
          } else {
            StopIs(keys, objects, fe, ids[n]);
            if Opens(keys, objects, fe, ids[n]) {
              StopsUnlessOpen(keys, objects, fe, ids[n], r);
            } else {
              FetchStops(keys, objects, fe, ids, n);
            }
          }
        }
      }
    }
  }

  lemma {:induction false} FetchStored(keys: Keys, objects: Objects, fe: FileEntry, blocks: seq<seq<byte>>)
    requires AllStored(keys, fe.compression, blocks, objects) && fe.packLength == 0
    ensures FetchAll(keys, objects, fe, BlockIds(keys, fe.compression, blocks)) == Ok(Flatten(blocks))
    decreases |blocks|
  {
    hide Open, DataPath, BlockId;
    if blocks != [] {
      var front, last, ids := blocks[..|blocks| - 1], blocks[|blocks| - 1], BlockIds(keys, fe.compression, blocks);
      assert forall i :: 0 <= i < |front| ==> front[i] == blocks[i];
      FetchStored(keys, objects, fe, front);
      assert ids[..|ids| - 1] == BlockIds(keys, fe.compression, front);
      assert IsStored(keys, fe.compression, blocks[|blocks| - 1], objects);
    }
  }

  /** A successful download is not disturbed by anything stored later. */
  lemma {:induction false} FetchStable(keys: Keys, objects: Objects, objects': Objects, fe: FileEntry,
                                       ids: seq<ObjectId>)
    requires Kept(objects, objects') && FetchAll(keys, objects, fe, ids).Ok?
    ensures FetchAll(keys, objects', fe, ids) == FetchAll(keys, objects, fe, ids)
    decreases |ids|
  {
    hide Open, DataPath, Part;
    if ids != [] {
      FetchStable(keys, objects, objects', fe, ids[..|ids| - 1]);
    }
  }

  lemma DownloadStable(keys: Keys, objects: Objects, objects': Objects, st: State, path: Str)
    requires Kept(objects, objects')
    requires Find(st.files, path).Some? ==> IdsInRange(st, Find(st.files, path).value)
    requires Download(keys, objects, st, path).Ok?
    ensures Download(keys, objects', st, path) == Download(keys, objects, st, path)
  {
    hide Find, FetchAll;
    if Find(st.files, path).Some? {
      var fe := Find(st.files, path).value;
      FetchStable(keys, objects, objects', fe, EntryIds(st, fe));
    }
  }

  // ----- snapshots in the store -----

  function Commit(keys: Keys, st: Store, name: string, snapshot: State): Store {
    Put(keys, st, SnapshotPath(name), LZMA2, Saved(snapshot))
  }

  function LoadSnapshot(keys: Keys, objects: Objects, name: string): Result<State, Failure> {
    if SnapshotPath(name) !in objects then Err(NotFound)
    else match Open(keys.codec, LZMA2, objects[SnapshotPath(name)])
         case Err(e) => Err(Content(e))
         case Ok(bytes) =>
           match Loaded(Empty(), bytes)
           case Err(e) => Err(Index(e))
           case Ok(st) => Ok(st)
  }

  /** What loading a snapshot must answer for what is stored under its name. */
  lemma LoadAnswers(keys: Keys, objects: Objects, name: string)
    ensures var path, r := "/snapshot/" + name, LoadSnapshot(keys, objects, name);
            if path !in objects then r == Err(NotFound)
            else
              match Open(keys.codec, 1, objects[path])
              case Err(e) => r == Err(Content(e))
              case Ok(bytes) =>
                match Loaded(State(map[], [], [], []), bytes)
                case Err(e) => r == Err(Index(e))
                case Ok(st) => r == Ok(st)
  {
    hide Open, Loaded;
  }

  /** A committed snapshot loads as the same strings, object ids and refiled entries. */
  lemma CommitLoads(keys: Keys, st: Store, name: string, snapshot: State, strs: seq<Str>)
    requires keys.Lawful() && Inv(snapshot, strs) && Fits(snapshot)
    ensures var r := LoadSnapshot(keys, Commit(keys, st, name, snapshot).objects, name);
            && r.Ok? && Inv(r.value, strs) && r.value.objectIds == snapshot.objectIds
            && r.value.buffer == snapshot.buffer && r.value.files == Refiled([], snapshot.files)
  {
    hide Inv, Fits, Saved, Loaded, Refiled, Open, Seal, Codec.Lawful, SnapshotPath;
    OpenSeal(keys.codec, LZMA2, keys.ivs(st.drawn), Saved(snapshot));
    LoadKeepsInv(snapshot, strs);
  }

  /** Committing a snapshot leaves every data object alone. */
  lemma CommitSound(keys: Keys, u: iset<seq<byte>>, st: Store, name: string, snapshot: State)
    requires Sound(keys, u, st.objects)
    ensures Sound(keys, u, Commit(keys, st, name, snapshot).objects)
    ensures Kept(st.objects, Commit(keys, st, name, snapshot).objects)
  {
    hide Saved, Open, Seal, DataPath, SnapshotPath;
    forall id
      ensures DataPath(id) != SnapshotPath(name)
    {
      PathsDisjoint(id, name);
    }
  }

  // ----- finding an added entry again -----

  /** A key that only one entry loads under finds that entry. */
  lemma LoneEntryFound(files: Entries<FileEntry>, i: nat)
    requires i < |files| && forall j :: 0 <= j < |files| && LoadedKey(files[j].0) == LoadedKey(files[i].0) ==> j == i
    ensures Find(Refiled([], files), LoadedKey(files[i].0)) == Some(files[i].1)
  {
    hide LoadedKey, Refiled, LastUnder, Find;
    var key := LoadedKey(files[i].0);
    RefiledFinds(files, key);
    assert LoadedKeys(files)[i] == key;
    LastUnderSome(files, key);
    LastUnderIsEntry(files, key);
  }

  /** A path is new when no stored path loads under the same key. */
  ghost predicate NewPath(files: Entries<FileEntry>, path: Str) {
    forall i :: 0 <= i < |files| ==> LoadedKey(files[i].0) != LoadedKey(path)
  }

  lemma AddedEntryFound(st: State, strs: seq<Str>, path: Str, meta: Meta, ids: seq<ObjectId>)
    requires Inv(st, strs) && NewPath(st.files, path) && |ids| <= MAX_OBJECTS
    ensures var st', fe := AddFileEntry(st, path, meta, ids).value, EntryOf(st, path, meta, |ids|);
            && Find(Refiled([], st'.files), LoadedKey(path)) == Some(fe)
            && fe.objectIdIndex == |st.objectIds| && fe.objectCount == |ids| && st'.objectIds == st.objectIds + ids
            && fe.packLength == meta.packLength && fe.compression == meta.compression
  {
    hide InsertString, LoadedKey, Refiled, EntryOk, Interned, Layout;
    var fe, i := EntryOf(st, path, meta, |ids|), LowerBound(st.files, path);
    var files' := Insert(st.files, path, fe);
    assert files' == st.files[..i] + [(path, fe)] + st.files[i..];
    assert forall j :: 0 <= j < |files'| && j != i ==> files'[j] in st.files;
    LoneEntryFound(files', i);
  }

  lemma DownloadAdded(keys: Keys, objects: Objects, st: State, key: Str, fe: FileEntry, before: seq<ObjectId>,
                      blocks: seq<seq<byte>>)
    requires Find(st.files, key) == Some(fe) && AllStored(keys, fe.compression, blocks, objects) && fe.packLength == 0
    requires fe.objectIdIndex == |before| && fe.objectCount == |blocks|
    requires st.objectIds == before + BlockIds(keys, fe.compression, blocks) && |st.objectIds| < 0x1_0000_0000
    ensures IdsInRange(st, fe)
    ensures Download(keys, objects, st, key)
         == if blocks == [] || |before| >= 0x8000_0000 then Err(Index(IndexOutOfBound)) else Ok(Some(Flatten(blocks)))
  {
    hide Find, AllStored, FetchAll, BlockIds, Flatten;
    FetchStored(keys, objects, fe, blocks);
    assert EntryIds(st, fe) == BlockIds(keys, fe.compression, blocks);
  }

  lemma StoredLater(keys: Keys, ct: byte, blocks: seq<seq<byte>>, objects: Objects, objects': Objects)
    requires AllStored(keys, ct, blocks, objects) && Kept(objects, objects')
    ensures AllStored(keys, ct, blocks, objects')
  {
    hide Open, DataPath, BlockId;
    forall i | 0 <= i < |blocks|
      ensures IsStored(keys, ct, blocks[i], objects')
    {
      assert IsStored(keys, ct, blocks[i], objects);
    }
  }
}
