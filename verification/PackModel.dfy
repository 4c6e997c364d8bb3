/** Packs: small files sealed one after another into one object, and the entries that refer to
    their places in it. */
module PackModel {
  import opened Bytes
  import opened Envelope
  import opened OrderedMap
  import opened StringTable
  import opened Paths
  import opened SnapshotModel
  import opened SnapshotFormat
  import opened SnapshotProperties
  import opened RepositoryModel

  /** A file waiting in a pack. Before the pack is written, the offset in its meta data is its
      place in the list and the pack length whatever the memory held. */
  datatype PackFile = PackFile(path: Str, meta: Meta, data: seq<byte>)

  // ----- the pack's name -----

  /** The bytes hashed for a pack: each file's data, twice. */
  function PackMessage(files: seq<PackFile>): seq<byte> {
    if files == [] then [] else PackMessage(files[..|files| - 1]) + files[|files| - 1].data + files[|files| - 1].data
  }

  function PackPath(keys: Keys, files: seq<PackFile>): string {
    DataPath(keys.hash(PackMessage(files)))
  }

  // ----- its contents -----

  function SealedFiles(keys: Keys, drawn: nat, files: seq<PackFile>): (r: seq<seq<byte>>)
    ensures |r| == |files|
  {
    seq(|files|, k requires 0 <= k < |files| =>
      Seal(keys.codec, files[k].meta.compression, keys.ivs(drawn + k), files[k].data))
  }

  /** Offset and length of file k, in 32-bit arithmetic. */
  function Placed(sealed: seq<seq<byte>>, f: PackFile, k: nat): PackFile
    requires k < |sealed|
  {
    f.(meta := f.meta.(offset := |Flatten(sealed[..k])| % TWO_TO_THE_32, packLength := |sealed[k]| % TWO_TO_THE_32))
  }

  function PlacedFiles(sealed: seq<seq<byte>>, files: seq<PackFile>): (r: seq<PackFile>)
    requires |sealed| == |files|
    ensures |r| == |files|
  {
    seq(|files|, k requires 0 <= k < |files| => Placed(sealed, files[k], k))
  }

  /** The store after a pack has been finalised: what exists is left alone. */
  function PackStore(keys: Keys, st: Store, files: seq<PackFile>): Store {
    if PackPath(keys, files) in st.objects then st
    else Store(st.objects[PackPath(keys, files) := Flatten(SealedFiles(keys, st.drawn, files))], st.drawn + |files|)
  }

  /** The files as they are entered in the snapshot: placed only if the pack was written. */
  function Entered(keys: Keys, st: Store, files: seq<PackFile>): (r: seq<PackFile>)
    ensures |r| == |files|
  {
    if PackPath(keys, files) in st.objects then files else PlacedFiles(SealedFiles(keys, st.drawn, files), files)
  }

  /** The snapshot with one entry per file, each with the pack as its only object. */
  function WithEntries(snapshot: State, files: seq<PackFile>, id: ObjectId): State {
    if files == [] then snapshot
    else
      var front, last := WithEntries(snapshot, files[..|files| - 1], id), files[|files| - 1];
      match AddFileEntry(front, last.path, last.meta, [id])
      case Ok(st) => st
      case Err(_) => front
  }

  // ----- layout -----

  lemma {:induction false} FlattenMonotone(parts: seq<seq<byte>>, k: nat)
    requires k <= |parts|
    ensures |Flatten(parts[..k])| <= |Flatten(parts)|
    decreases |parts| - k
  {
    if k < |parts| {
      FlattenSpan(parts, k);
    } else {
      assert parts[..k] == parts;
    }
  }

  /** The ranges of a new pack below 4 GiB tile the stored object in order, and each is exactly
      its file's sealed form. */
  lemma PackTiles(sealed: seq<seq<byte>>, files: seq<PackFile>, k: nat)
    requires |sealed| == |files| && k < |files| && |Flatten(sealed)| < TWO_TO_THE_32
    ensures var placed, whole := PlacedFiles(sealed, files), Flatten(sealed);
            var m := placed[k].meta;
            && m.offset + m.packLength <= |whole| && whole[m.offset..m.offset + m.packLength] == sealed[k]
            && m.packLength == |sealed[k]|
            && (k == 0 ==> m.offset == 0)
            && m.offset + m.packLength == if k + 1 < |files| then placed[k + 1].meta.offset else |whole|
  {
    hide Flatten;
    FlattenSpan(sealed, k);
    FlattenMonotone(sealed, k);
    FlattenMonotone(sealed, k + 1);
    if k == 0 {
      NothingFlattens(sealed);
    }
    if k + 1 == |files| {
      assert sealed[..k + 1] == sealed;
    }
  }

  lemma NothingFlattens(parts: seq<seq<byte>>)
    ensures Flatten(parts[..0]) == []
  {
  }

  /** An entry refers to a file of the pack by the file's meta data. */
  predicate RefersTo(fe: FileEntry, f: PackFile) {
    fe.compression == f.meta.compression && fe.offset == f.meta.offset && fe.packLength == f.meta.packLength
  }

  /** Every entry of the pack, whatever else it says, is restored to its file's bytes. */
  ghost predicate AllRestored(keys: Keys, st: Store, files: seq<PackFile>) {
    forall k, fe: FileEntry :: 0 <= k < |files| && RefersTo(fe, Entered(keys, st, files)[k])
      ==> Fetch(keys, PackStore(keys, st, files).objects, fe, keys.hash(PackMessage(files))) == Ok(files[k].data)
  }

  ghost predicate LawfulFiles(files: seq<PackFile>) {
    forall k :: 0 <= k < |files| ==> files[k].meta.compression <= LZMA2
  }

  /** A pack that is written restores every one of its files. */
  lemma NewPackRestores(keys: Keys, st: Store, files: seq<PackFile>)
    requires keys.Lawful() && LawfulFiles(files) && PackPath(keys, files) !in st.objects
    requires |Flatten(SealedFiles(keys, st.drawn, files))| < TWO_TO_THE_32
    ensures AllRestored(keys, st, files)
  {
    hide Seal, Open, Flatten, Codec.Lawful, DataPath, PackMessage;
    var sealed := SealedFiles(keys, st.drawn, files);
    var objects, id := PackStore(keys, st, files).objects, keys.hash(PackMessage(files));
    forall k, fe: FileEntry | 0 <= k < |files| && RefersTo(fe, Entered(keys, st, files)[k])
      ensures Fetch(keys, objects, fe, id) == Ok(files[k].data)
    {
      PackTiles(sealed, files, k);
      assert Entered(keys, st, files)[k] == PlacedFiles(sealed, files)[k];
      OpenSeal(keys.codec, files[k].meta.compression, keys.ivs(st.drawn + k), files[k].data);
      assert Part(objects[DataPath(id)], fe) == sealed[k];
    }
  }

  /** The same files with the pack length they happen to hold. */
  function WithGarbage(files: seq<PackFile>, garbage: nat): (r: seq<PackFile>)
    ensures |r| == |files|
  {
    seq(|files|, k requires 0 <= k < |files| => files[k].(meta := files[k].meta.(packLength := garbage)))
  }

  lemma {:induction false} GarbageKeepsName(files: seq<PackFile>, garbage: nat)
    ensures PackMessage(WithGarbage(files, garbage)) == PackMessage(files)
    decreases |files|
  {
    if files != [] {
      GarbageKeepsName(files[..|files| - 1], garbage);
      assert WithGarbage(files, garbage)[..|files| - 1] == WithGarbage(files[..|files| - 1], garbage);
    }
  }

  /** When the pack exists already and memory held a one, nothing can be restored. */
  lemma ExistingPackFails(keys: Keys, st: Store, files: seq<PackFile>)
    requires files != [] && PackPath(keys, files) in st.objects
    ensures !AllRestored(keys, st, WithGarbage(files, 1))
  {
    hide PackMessage, DataPath;
    GarbageKeepsName(files, 1);
    var garbled := WithGarbage(files, 1);
    var m := garbled[0].meta;
    var fe := FileEntry(0, 0, 0, 0, 0, m.compression, 0, 0, 1, 0, 0, [], m.offset, m.packLength, 0);
    assert RefersTo(fe, Entered(keys, st, garbled)[0]);
    assert |Part(st.objects[PackPath(keys, files)], fe)| <= 1;
    assert Fetch(keys, PackStore(keys, st, garbled).objects, fe, keys.hash(PackMessage(garbled))).Err?;
  }

  /** A pack's files are all restored, whatever the uninitialised pack lengths hold, exactly when
      the pack was not in the store already. */
  lemma PackRestoresExactly(keys: Keys, st: Store, files: seq<PackFile>)
    requires keys.Lawful() && LawfulFiles(files) && files != []
    requires |Flatten(SealedFiles(keys, st.drawn, files))| < TWO_TO_THE_32
    ensures (forall garbage: nat :: garbage < TWO_TO_THE_32 ==> AllRestored(keys, st, WithGarbage(files, garbage)))
       <==> PackPath(keys, files) !in st.objects
  {
    hide AllRestored, PackMessage, Flatten, Seal, Keys.Lawful;
    if PackPath(keys, files) in st.objects {
      ExistingPackFails(keys, st, files);
    } else {
      forall garbage: nat | garbage < TWO_TO_THE_32
        ensures AllRestored(keys, st, WithGarbage(files, garbage))
      {
        GarbageKeepsName(files, garbage);
        assert SealedFiles(keys, st.drawn, WithGarbage(files, garbage)) == SealedFiles(keys, st.drawn, files);
        NewPackRestores(keys, st, WithGarbage(files, garbage));
      }
    }
  }

  lemma {:induction false} MessageOfData(files: seq<PackFile>, again: seq<PackFile>)
    requires |again| == |files| && forall k :: 0 <= k < |files| ==> again[k].data == files[k].data
    ensures PackMessage(again) == PackMessage(files)
    decreases |files|
  {
    if files != [] {
      MessageOfData(files[..|files| - 1], again[..|files| - 1]);
    }
  }

  /** It is there already whenever the same data has been packed before, in the same order. */
  lemma SamePackAgain(keys: Keys, st: Store, files: seq<PackFile>, again: seq<PackFile>)
    requires |again| == |files| && forall k :: 0 <= k < |files| ==> again[k].data == files[k].data
    ensures PackPath(keys, again) in PackStore(keys, st, files).objects
    ensures PackStore(keys, PackStore(keys, st, files), again) == PackStore(keys, st, files)
  {
    hide PackMessage, DataPath, Flatten;
    MessageOfData(files, again);
  }

  // ----- packs beside blocks -----

  /** A pack keeps the store invariant when its message is not also in use as a block's. */
  lemma PackSound(keys: Keys, u: iset<seq<byte>>, st: Store, files: seq<PackFile>)
    requires CollisionFree(keys, u + iset{PackMessage(files)}) && PackMessage(files) !in u && Sound(keys, u, st.objects)
    ensures Sound(keys, u, PackStore(keys, st, files).objects) && Kept(st.objects, PackStore(keys, st, files).objects)
  {
    hide PackMessage, Flatten, Open, DataPath;
    forall m | m in u
      ensures DataPath(keys.hash(m)) != PackPath(keys, files)
    {
      if DataPath(keys.hash(m)) == PackPath(keys, files) {
        DataPathInjective(keys.hash(m), keys.hash(PackMessage(files)));
      }
    }
  }

  /** Packs and blocks share one namespace: the message of a pack is that of some block exactly
      when it begins with a compression type. */
  lemma PackMessageIsBlockMessage(files: seq<PackFile>)
    ensures (exists ct: byte, block :: ct <= LZMA2 && Message(ct, block) == PackMessage(files))
       <==> PackMessage(files) != [] && PackMessage(files)[0] <= LZMA2
  {
    hide PackMessage;
    var m := PackMessage(files);
    if m != [] && m[0] <= LZMA2 {
      assert Message(m[0], m[1..]) == m;
    }
  }

  /** What that can do: let a file begin with its own compression type. After a new pack of that
      file alone, uploading the block of its bytes twice, but for the first, stores nothing, and
      the block is restored as the file: wrongly, unless the file is one byte long. */
  lemma PackShadowsBlock(keys: Keys, st: Store, path: Str, meta: Meta, d: seq<byte>, fe: FileEntry)
    requires keys.Lawful() && d != [] && d[0] <= LZMA2 && meta.compression == d[0]
    requires fe.compression == d[0] && fe.packLength == 0
    requires PackPath(keys, [PackFile(path, meta, d)]) !in st.objects
    ensures var packed, block := PackStore(keys, st, [PackFile(path, meta, d)]), (d + d)[1..];
            && UploadBlock(keys, packed, d[0], block) == packed
            && Fetch(keys, packed.objects, fe, BlockId(keys, d[0], block)) == Ok(d)
            && (d == block <==> |d| == 1)
  {
    hide Seal, Open, DataPath, Codec.Lawful, PackMessage, Flatten;
    var f, block := PackFile(path, meta, d), (d + d)[1..];
    OneFileMessage(f);
    assert Message(d[0], block) == d + d;
    var s := Seal(keys.codec, d[0], keys.ivs(st.drawn), d);
    assert SealedFiles(keys, st.drawn, [f]) == [s];
    OnePart(s);
    OpenSeal(keys.codec, d[0], keys.ivs(st.drawn), d);
    assert |block| == 2 * |d| - 1;
  }

  lemma OneFileMessage(f: PackFile)
    ensures PackMessage([f]) == f.data + f.data
  {
    assert [f][..0] == [];
    assert PackMessage([f][..0]) == [];
    assert [] + f.data == f.data;
  }

  // ----- packs end to end -----

  /** Paths new to the snapshot and different from each other, as loaded keys. */
  ghost predicate NewPaths(snapshot: State, files: seq<PackFile>) {
    && (forall k :: 0 <= k < |files| ==> NewPath(snapshot.files, files[k].path))
    && (forall j, k :: 0 <= j < k < |files| ==> LoadedKey(files[j].path) != LoadedKey(files[k].path))
  }

  ghost predicate CStrings(files: seq<PackFile>) {
    forall k :: 0 <= k < |files| ==>
      && Rejoins(files[k].path) && NoNul(files[k].path)
      && NoNul(files[k].meta.user) && NoNul(files[k].meta.group)
  }

  ghost predicate EntryAt(snapshot: State, first: nat, files: seq<PackFile>, k: nat)
    requires k < |files|
  {
    && Find(snapshot.files, files[k].path).Some?
    && var fe := Find(snapshot.files, files[k].path).value;
       && RefersTo(fe, files[k]) && Describes(snapshot, fe, files[k].meta)
       && fe.objectCount == 1 && fe.objectIdIndex == first + k
  }

  /** The keys of the snapshot are old ones or paths of the pack. */
  ghost predicate KeysFrom(snapshot: State, before: State, files: seq<PackFile>) {
    forall key :: Find(snapshot.files, key).Some?
      ==> Find(before.files, key).Some? || exists k :: 0 <= k < |files| && files[k].path == key
  }

  ghost predicate Filed(snapshot: State, before: State, files: seq<PackFile>, id: ObjectId) {
    && snapshot.objectIds == before.objectIds + seq(|files|, _ => id)
    && KeysFrom(snapshot, before, files)
    && forall k :: 0 <= k < |files| ==> EntryAt(snapshot, |before.objectIds|, files, k)
  }

  lemma {:induction false} EntriesFiled(before: State, strs: seq<Str>, files: seq<PackFile>, id: ObjectId)
      returns (strs': seq<Str>)
    requires Inv(before, strs) && NewPaths(before, files) && CStrings(files)
    ensures strs <= strs' && Inv(WithEntries(before, files, id), strs')
    ensures Filed(WithEntries(before, files, id), before, files, id)
    decreases |files|
  {
    hide Inv, NoNul, Rejoins, LoadedKey, Find, AddFileEntry, NewPath, StrsAfterAdd, Describes;
    if files == [] {
      strs' := strs;
    } else {
      var front, last := files[..|files| - 1], files[|files| - 1];
      var mid := EntriesFiled(before, strs, front, id);
      var st := WithEntries(before, front, id);
      AddKeepsInv(st, mid, last.path, last.meta, [id]);
      strs' := StrsAfterAdd(st, mid, last.path, last.meta);
      LastIsNew(before, strs, st, mid, files, id);
      NewEntryDescribes(st, mid, last.path, last.meta, [id]);
      OneMoreFiled(st, mid, strs', before, files, id);
    }
  }

  lemma LastIsNew(before: State, strs: seq<Str>, st: State, mid: seq<Str>, files: seq<PackFile>, id: ObjectId)
    requires files != [] && NewPaths(before, files) && Inv(before, strs) && Inv(st, mid)
    requires KeysFrom(st, before, files[..|files| - 1])
    ensures Find(st.files, files[|files| - 1].path).None?
  {
    hide LoadedKey, Find, EntryOk, Interned, Layout;
    var key := files[|files| - 1].path;
    FindExactly(before.files, key);
    if Find(st.files, key).Some? && Find(before.files, key).None? {
      var k :| 0 <= k < |files| - 1 && files[..|files| - 1][k].path == key;
      assert false;
    }
  }

  lemma OneMoreFiled(st: State, mid: seq<Str>, strs': seq<Str>, before: State, files: seq<PackFile>, id: ObjectId)
    requires files != [] && Inv(st, mid) && Filed(st, before, files[..|files| - 1], id)
    requires Find(st.files, files[|files| - 1].path).None?
    requires forall k :: 0 <= k < |files| - 1 ==> files[k].path != files[|files| - 1].path
    requires var last := files[|files| - 1];
             var added := AddFileEntry(st, last.path, last.meta, [id]);
             && added.Ok? && Inv(added.value, strs') && mid <= strs'
             && Describes(added.value, EntryOf(st, last.path, last.meta, 1), last.meta)
    ensures var last := files[|files| - 1];
            var added := AddFileEntry(st, last.path, last.meta, [id]);
            added.Ok? && Filed(added.value, before, files, id)
  {
    hide Find, InsertString, EntryOk, Interned, Layout, Insert, RefersTo, Describes;
    var front, last := files[..|files| - 1], files[|files| - 1];
    var added := AddFileEntry(st, last.path, last.meta, [id]).value;
    var fe := EntryOf(st, last.path, last.meta, 1);
    assert added.files == Insert(st.files, last.path, fe);
    assert RefersTo(fe, last) by { EntryRefers(st, last); }
    forall key
      ensures Find(added.files, key) == if key == last.path then Some(fe) else Find(st.files, key)
    {
      FindInsert(st.files, last.path, fe, key);
    }
    forall k | 0 <= k < |files|
      ensures EntryAt(added, |before.objectIds|, files, k)
    {
      if k < |front| {
        assert EntryAt(st, |before.objectIds|, front, k);
        DescribesLater(st, mid, added, strs', front[k].path, Find(st.files, front[k].path).value, front[k].meta);
      }
    }
    forall key | Find(added.files, key).Some? && Find(before.files, key).None?
      ensures exists k :: 0 <= k < |files| && files[k].path == key
    {
      if key != last.path {
        var k :| 0 <= k < |front| && front[k].path == key;
        assert files[k].path == key;
      }
    }
  }

  lemma EntryRefers(st: State, f: PackFile)
    ensures RefersTo(EntryOf(st, f.path, f.meta, 1), f)
  {
  }

  /** A filed entry is found again under its loaded key. */
  lemma FiledIsFound(snapshot: State, strs: seq<Str>, before: State, strs0: seq<Str>, files: seq<PackFile>,
                     id: ObjectId, k: nat)
    requires Inv(snapshot, strs) && Inv(before, strs0) && Filed(snapshot, before, files, id) && NewPaths(before, files)
    requires k < |files|
    ensures Find(Refiled([], snapshot.files), LoadedKey(files[k].path)) == Find(snapshot.files, files[k].path)
  {
    hide Find, LoadedKey, EntryOk, Interned, Layout, Refiled, RefersTo;
    var key := files[k].path;
    assert EntryAt(snapshot, |before.objectIds|, files, k);
    FindExactly(snapshot.files, key);
    var fe := Find(snapshot.files, key).value;
    var i :| 0 <= i < |snapshot.files| && snapshot.files[i] == (key, fe);
    forall j | 0 <= j < |snapshot.files| && LoadedKey(snapshot.files[j].0) == LoadedKey(key)
      ensures j == i
    {
      var other := snapshot.files[j].0;
      FindExactly(snapshot.files, other);
      assert (other, snapshot.files[j].1) in snapshot.files;
      FindExactly(before.files, other);
      assert other == key;
      KeysDiffer(snapshot.files, i, j);
    }
    LoneEntryFound(snapshot.files, i);
  }

  lemma PackDownload(keys: Keys, objects: Objects, loaded: State, added: State, st: Store, snapshot: State,
                     files: seq<PackFile>, k: nat)
    requires k < |files| && AllRestored(keys, st, files) && Kept(PackStore(keys, st, files).objects, objects)
    requires Filed(added, snapshot, Entered(keys, st, files), keys.hash(PackMessage(files)))
    requires Entered(keys, st, files)[k].path == files[k].path
    requires loaded.objectIds == added.objectIds && |snapshot.objectIds| + |files| < 0x8000_0000
    requires Find(loaded.files, LoadedKey(files[k].path)) == Find(added.files, files[k].path)
    ensures Find(loaded.files, LoadedKey(files[k].path)).Some?
    ensures IdsInRange(loaded, Find(loaded.files, LoadedKey(files[k].path)).value)
    ensures Download(keys, objects, loaded, LoadedKey(files[k].path)) == Ok(Some(files[k].data))
  {
    hide Find, LoadedKey, PackMessage, Entered, PackStore, Fetch;
    hide FetchAll, RefersTo, Kept, Download, AllRestored, KeysFrom;
    assert EntryAt(added, |snapshot.objectIds|, Entered(keys, st, files), k);
    var fe, id := Find(loaded.files, LoadedKey(files[k].path)).value, keys.hash(PackMessage(files));
    var stored := PackStore(keys, st, files).objects;
    OneRestored(keys, st, files, k, fe);
    OneFetched(keys, stored, fe, id);
    FetchStable(keys, stored, objects, fe, [id]);
    assert EntryIds(loaded, fe) == [id];
    DownloadOne(keys, objects, loaded, LoadedKey(files[k].path), fe, files[k].data);
  }

  lemma OneRestored(keys: Keys, st: Store, files: seq<PackFile>, k: nat, fe: FileEntry)
    requires k < |files| && AllRestored(keys, st, files) && RefersTo(fe, Entered(keys, st, files)[k])
    ensures Fetch(keys, PackStore(keys, st, files).objects, fe, keys.hash(PackMessage(files))) == Ok(files[k].data)
  {
    hide Entered, PackStore, Fetch, RefersTo, PackMessage;
  }

  lemma DownloadOne(keys: Keys, objects: Objects, st: State, key: Str, fe: FileEntry, data: seq<byte>)
    requires Find(st.files, key) == Some(fe) && fe.objectIdIndex + fe.objectCount <= |st.objectIds|
    requires fe.objectIdIndex < |st.objectIds| && fe.objectIdIndex < 0x8000_0000
    requires FetchAll(keys, objects, fe, EntryIds(st, fe)) == Ok(data)
    ensures Download(keys, objects, st, key) == Ok(Some(data))
  {
    hide Find, FetchAll;
  }

  lemma OneFetched(keys: Keys, objects: Objects, fe: FileEntry, id: ObjectId)
    ensures FetchAll(keys, objects, fe, [id]) == Fetch(keys, objects, fe, id)
  {
    hide Fetch;
    assert [id][..0] == [];
    assert FetchAll(keys, objects, fe, [id][..0]) == Ok([]);
    assert forall s: seq<byte> :: [] + s == s;
  }
}
