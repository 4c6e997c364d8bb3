/** A snapshot as a value: interned strings, object ids and an ordered index of file entries,
    with what each operation makes of it and what every run of operations keeps. */
module SnapshotModel {
  import opened Bytes
  import opened OrderedMap
  import opened Paths
  import opened StringTable

  const ID_LENGTH := 32
  const MD5_LENGTH := 16
  const MAX_OBJECTS := 65535

  type ObjectId = id: seq<byte> | |id| == ID_LENGTH witness ZeroBytes(ID_LENGTH)

  datatype Error = InvalidArgument | IndexOutOfBound | ShortRead

  datatype FileEntry = FileEntry(
    nameIndex: nat, pathIndex: nat, userIndex: nat, groupIndex: nat,
    mode: nat, compression: byte, fileType: byte, rollingHashBits: byte, objectCount: nat,
    size: nat, mtime: int, md5: seq<byte>,
    offset: nat, packLength: nat, objectIdIndex: nat)

  /** What a caller says of a file beside its path and its objects. */
  datatype Meta = Meta(
    user: Str, group: Str, fileType: byte, mode: nat, compression: byte,
    size: nat, mtime: int, rollingHashBits: byte, md5: seq<byte>, offset: nat, packLength: nat)

  datatype State = State(
    table: map<Str, nat>, buffer: seq<byte>, objectIds: seq<ObjectId>, files: Entries<FileEntry>)

  function Empty(): State {
    State(map[], [], [], [])
  }

  // ----- operations -----

  /** Snapshot::addFileEntry. The strings and ids are added even when the path is there already,
      whose entry then stays as it was. */
  function AddFileEntry(st: State, path: Str, meta: Meta, ids: seq<ObjectId>): Result<State, Error> {
    if |ids| > MAX_OBJECTS then Err(InvalidArgument)
    else
      var (t1, b1, name) := InsertString(st.table, st.buffer, FileName(path));
      var (t2, b2, parent) := InsertString(t1, b1, ParentPath(path));
      var (t3, b3, user) := InsertString(t2, b2, meta.user);
      var (t4, b4, group) := InsertString(t3, b3, meta.group);
      var fe := FileEntry(name, parent, user, group, meta.mode, meta.compression, meta.fileType,
                          meta.rollingHashBits, |ids|, meta.size, meta.mtime, meta.md5,
                          meta.offset, meta.packLength, |st.objectIds|);
      Ok(State(t4, b4, st.objectIds + ids, Insert(st.files, path, fe)))
  }

  function DeleteFileEntry(st: State, path: Str): State {
    st.(files := Erase(st.files, path))
  }

  /** Snapshot::indexToString: an int argument, checked against the buffer. */
  function IndexToString(buffer: seq<byte>, n: int): Result<Str, Error> {
    if n < 0 || n >= |buffer| then Err(IndexOutOfBound) else Ok(CString(buffer[n..]))
  }

  /** The object ids of an entry, as a download follows them. */
  function EntryIds(st: State, fe: FileEntry): seq<ObjectId>
    requires fe.objectIdIndex + fe.objectCount <= |st.objectIds|
  {
    st.objectIds[fe.objectIdIndex..fe.objectIdIndex + fe.objectCount]
  }

  /** The path that an entry spells in a string buffer, under which a load files it. */
  function SpelledPath(buffer: seq<byte>, fe: FileEntry): Str
    requires fe.pathIndex < |buffer| && fe.nameIndex < |buffer|
  {
    Joined(CString(buffer[fe.pathIndex..]), CString(buffer[fe.nameIndex..]))
  }

  // ----- what every run keeps -----

  ghost predicate Denotes(strs: seq<Str>, idx: nat) {
    exists i :: 0 <= i < |strs| && idx == Offset(strs, i)
  }

  lemma DenotesStable(strs: seq<Str>, more: seq<Str>, idx: nat)
    requires Denotes(strs, idx) && forall i :: 0 <= i < |strs + more| ==> NoNul((strs + more)[i])
    ensures Denotes(strs + more, idx) && idx < |Layout(strs)| <= |Layout(strs + more)|
    ensures CString(Layout(strs + more)[idx..]) == CString(Layout(strs)[idx..])
  {
    var i :| 0 <= i < |strs| && idx == Offset(strs, i);
    assert (strs + more)[i] == strs[i];
    OffsetStable(strs, more, i);
    IndexDenotes(strs, i);
    IndexDenotes(strs + more, i);
    LayoutPrefix(strs, more);
  }

  /** An entry whose indices denote interned strings and whose object ids are in range. */
  ghost predicate EntryOk(strs: seq<Str>, idCount: nat, key: Str, fe: FileEntry) {
    && Denotes(strs, fe.nameIndex) && Denotes(strs, fe.pathIndex)
    && Denotes(strs, fe.userIndex) && Denotes(strs, fe.groupIndex)
    && fe.objectIdIndex + fe.objectCount <= idCount && fe.objectCount <= MAX_OBJECTS
    && fe.nameIndex < |Layout(strs)| && fe.pathIndex < |Layout(strs)|
    && SpelledPath(Layout(strs), fe) == LoadedKey(key)
  }

  lemma EntryOkStable(strs: seq<Str>, more: seq<Str>, idCount: nat, idCount': nat, key: Str, fe: FileEntry)
    requires EntryOk(strs, idCount, key, fe) && idCount <= idCount'
    requires forall i :: 0 <= i < |strs + more| ==> NoNul((strs + more)[i])
    ensures EntryOk(strs + more, idCount', key, fe)
  {
    DenotesStable(strs, more, fe.nameIndex);
    DenotesStable(strs, more, fe.pathIndex);
    DenotesStable(strs, more, fe.userIndex);
    DenotesStable(strs, more, fe.groupIndex);
  }

  /** The invariant: the buffer is the padded strings of a list, the table knows them, and
      every entry is sound with respect to that list. */
  ghost predicate Inv(st: State, strs: seq<Str>) {
    && Interned(st.table, strs) && st.buffer == Layout(strs)
    && Sorted(st.files)
    && forall i :: 0 <= i < |st.files| ==> EntryOk(strs, |st.objectIds|, st.files[i].0, st.files[i].1)
  }

  lemma InvEmpty()
    ensures Inv(Empty(), [])
  {
  }

  lemma IsIndexDenotes(strs: seq<Str>, idx: nat, s: Str)
    requires IsIndex(strs, idx, s) && NoNul(s)
    ensures Denotes(strs, idx) && idx < |Layout(strs)| && CString(Layout(strs)[idx..]) == s
  {
    var i :| 0 <= i < |strs| && strs[i] == s && idx == Offset(strs, i);
    IndexDenotes(strs, i);
  }

  /** The list of strings after four insertions. */
  function StrsAfterAdd(st: State, strs: seq<Str>, path: Str, meta: Meta): seq<Str> {
    var (t1, b1, name) := InsertString(st.table, st.buffer, FileName(path));
    var s1 := WithString(st.table, strs, FileName(path));
    var (t2, b2, parent) := InsertString(t1, b1, ParentPath(path));
    var s2 := WithString(t1, s1, ParentPath(path));
    var (t3, b3, user) := InsertString(t2, b2, meta.user);
    var s3 := WithString(t2, s2, meta.user);
    WithString(t3, s3, meta.group)
  }

  lemma PrefixIndex(strs: seq<Str>, strs': seq<Str>, idx: nat, s: Str)
    requires strs <= strs' && IsIndex(strs, idx, s)
    ensures IsIndex(strs', idx, s)
  {
    assert strs' == strs + strs'[|strs|..];
    IsIndexStable(strs, strs'[|strs|..], idx, s);
  }

  /** The strings of an add: all four are interned in the extended list. */
  lemma AddStrings(st: State, strs: seq<Str>, path: Str, meta: Meta, ids: seq<ObjectId>)
    requires Interned(st.table, strs) && st.buffer == Layout(strs) && |ids| <= MAX_OBJECTS
    requires NoNul(path) && NoNul(meta.user) && NoNul(meta.group)
    ensures var strs' := StrsAfterAdd(st, strs, path, meta);
            var st' := AddFileEntry(st, path, meta, ids).value;
            && strs <= strs' && Interned(st'.table, strs') && st'.buffer == Layout(strs')
  {
    hide Interned, Layout, InsertString, FileName, ParentPath, WithString, IsIndex;
    PartsNoNul(path);
    var (t1, b1, name) := InsertString(st.table, st.buffer, FileName(path));
    var s1 := WithString(st.table, strs, FileName(path));
    InsertKeeps(st.table, strs, FileName(path));
    var (t2, b2, parent) := InsertString(t1, b1, ParentPath(path));
    var s2 := WithString(t1, s1, ParentPath(path));
    InsertKeeps(t1, s1, ParentPath(path));
    var (t3, b3, user) := InsertString(t2, b2, meta.user);
    var s3 := WithString(t2, s2, meta.user);
    InsertKeeps(t2, s2, meta.user);
    InsertKeeps(t3, s3, meta.group);
  }

  /** The entry an add makes, whether or not the path is new. */
  function EntryOf(st: State, path: Str, meta: Meta, count: nat): FileEntry {
    var (t1, b1, name) := InsertString(st.table, st.buffer, FileName(path));
    var (t2, b2, parent) := InsertString(t1, b1, ParentPath(path));
    var (t3, b3, user) := InsertString(t2, b2, meta.user);
    var (t4, b4, group) := InsertString(t3, b3, meta.group);
    FileEntry(name, parent, user, group, meta.mode, meta.compression, meta.fileType,
              meta.rollingHashBits, count, meta.size, meta.mtime, meta.md5,
              meta.offset, meta.packLength, |st.objectIds|)
  }

  /** The four indices of a new entry denote their strings in the extended list. */
  lemma NewEntryIndices(st: State, strs: seq<Str>, path: Str, meta: Meta, count: nat)
    requires Interned(st.table, strs) && st.buffer == Layout(strs)
    requires NoNul(path) && NoNul(meta.user) && NoNul(meta.group)
    ensures var strs', fe := StrsAfterAdd(st, strs, path, meta), EntryOf(st, path, meta, count);
            && IsIndex(strs', fe.nameIndex, FileName(path)) && IsIndex(strs', fe.pathIndex, ParentPath(path))
            && IsIndex(strs', fe.userIndex, meta.user) && IsIndex(strs', fe.groupIndex, meta.group)
  {
    hide Interned, Layout, InsertString, FileName, ParentPath, WithString, IsIndex, NoNul;
    PartsNoNul(path);
    var (t1, b1, name) := InsertString(st.table, st.buffer, FileName(path));
    var s1 := WithString(st.table, strs, FileName(path));
    InsertKeeps(st.table, strs, FileName(path));
    var (t2, b2, parent) := InsertString(t1, b1, ParentPath(path));
    var s2 := WithString(t1, s1, ParentPath(path));
    InsertKeeps(t1, s1, ParentPath(path));
    var (t3, b3, user) := InsertString(t2, b2, meta.user);
    var s3 := WithString(t2, s2, meta.user);
    InsertKeeps(t2, s2, meta.user);
    var s4 := WithString(t3, s3, meta.group);
    InsertKeeps(t3, s3, meta.group);
    PrefixIndex(s1, s4, name, FileName(path));
    PrefixIndex(s2, s4, parent, ParentPath(path));
    PrefixIndex(s3, s4, user, meta.user);
  }

  lemma NewEntryOk(st: State, strs: seq<Str>, path: Str, meta: Meta, count: nat)
    requires Interned(st.table, strs) && st.buffer == Layout(strs) && count <= MAX_OBJECTS
    requires Rejoins(path) && NoNul(path) && NoNul(meta.user) && NoNul(meta.group)
    ensures EntryOk(StrsAfterAdd(st, strs, path, meta), |st.objectIds| + count, path, EntryOf(st, path, meta, count))
  {
    hide Interned, Layout, InsertString, FileName, ParentPath, StrsAfterAdd;
    hide IsIndex, Denotes, Joined, LoadedKey, CString;
    var strs', fe := StrsAfterAdd(st, strs, path, meta), EntryOf(st, path, meta, count);
    NewEntryIndices(st, strs, path, meta, count);
    PartsNoNul(path);
    PathParts(path);
    IsIndexDenotes(strs', fe.nameIndex, FileName(path));
    IsIndexDenotes(strs', fe.pathIndex, ParentPath(path));
    IsIndexDenotes(strs', fe.userIndex, meta.user);
    IsIndexDenotes(strs', fe.groupIndex, meta.group);
  }

  /** The string an index denotes in a snapshot. */
  predicate Spells(st: State, idx: nat, s: Str) {
    idx < |st.buffer| && CString(st.buffer[idx..]) == s
  }

  /** The four strings of a new entry are spelled where its indices say. */
  lemma NewEntrySpells(st: State, strs: seq<Str>, path: Str, meta: Meta, ids: seq<ObjectId>)
    requires Interned(st.table, strs) && st.buffer == Layout(strs) && |ids| <= MAX_OBJECTS
    requires NoNul(path) && NoNul(meta.user) && NoNul(meta.group)
    ensures var st', fe := AddFileEntry(st, path, meta, ids).value, EntryOf(st, path, meta, |ids|);
            && Spells(st', fe.nameIndex, FileName(path)) && Spells(st', fe.pathIndex, ParentPath(path))
            && Spells(st', fe.userIndex, meta.user) && Spells(st', fe.groupIndex, meta.group)
  {
    hide Interned, Layout, InsertString, FileName, ParentPath, StrsAfterAdd, IsIndex, Denotes, CString;
    var strs', fe := StrsAfterAdd(st, strs, path, meta), EntryOf(st, path, meta, |ids|);
    NewEntryIndices(st, strs, path, meta, |ids|);
    PartsNoNul(path);
    AddStrings(st, strs, path, meta, ids);
    IsIndexDenotes(strs', fe.nameIndex, FileName(path));
    IsIndexDenotes(strs', fe.pathIndex, ParentPath(path));
    IsIndexDenotes(strs', fe.userIndex, meta.user);
    IsIndexDenotes(strs', fe.groupIndex, meta.group);
  }

  /** A new path is found with an entry that says what the caller said: its four strings, its
      object ids and every other attribute; an entry already there is kept instead. */
  lemma AddedEntrySays(st: State, strs: seq<Str>, path: Str, meta: Meta, ids: seq<ObjectId>)
    requires Inv(st, strs) && |ids| <= MAX_OBJECTS
    requires NoNul(path) && NoNul(meta.user) && NoNul(meta.group)
    ensures var st' := AddFileEntry(st, path, meta, ids).value;
            Find(st.files, path).Some? ==> Find(st'.files, path) == Find(st.files, path)
    ensures var st' := AddFileEntry(st, path, meta, ids).value;
            Find(st.files, path).None? ==>
              && Find(st'.files, path).Some?
              && var fe := Find(st'.files, path).value;
                 && Spells(st', fe.nameIndex, FileName(path)) && Spells(st', fe.pathIndex, ParentPath(path))
                 && Spells(st', fe.userIndex, meta.user) && Spells(st', fe.groupIndex, meta.group)
                 && fe.objectIdIndex + fe.objectCount <= |st'.objectIds| && EntryIds(st', fe) == ids
                 && Meta(meta.user, meta.group, fe.fileType, fe.mode, fe.compression, fe.size, fe.mtime,
                         fe.rollingHashBits, fe.md5, fe.offset, fe.packLength) == meta
  {
    hide Interned, Layout, InsertString, FileName, ParentPath, EntryOk, Find, Spells;
    var st', fe := AddFileEntry(st, path, meta, ids).value, EntryOf(st, path, meta, |ids|);
    assert st'.files == Insert(st.files, path, fe);
    FindInsert(st.files, path, fe, path);
    NewEntrySpells(st, strs, path, meta, ids);
    assert (st.objectIds + ids)[|st.objectIds|..|st.objectIds| + |ids|] == ids;
  }

  lemma {:induction false} AddKeepsInv(st: State, strs: seq<Str>, path: Str, meta: Meta, ids: seq<ObjectId>)
    requires Inv(st, strs) && |ids| <= MAX_OBJECTS
    requires Rejoins(path) && NoNul(path) && NoNul(meta.user) && NoNul(meta.group)
    ensures AddFileEntry(st, path, meta, ids).Ok?
    ensures Inv(AddFileEntry(st, path, meta, ids).value, StrsAfterAdd(st, strs, path, meta))
    ensures strs <= StrsAfterAdd(st, strs, path, meta)
  {
    hide Interned, Layout, InsertString, StrsAfterAdd, EntryOk, FileName, ParentPath, Rejoins, NoNul;
    AddStrings(st, strs, path, meta, ids);
    var strs' := StrsAfterAdd(st, strs, path, meta);
    var st' := AddFileEntry(st, path, meta, ids).value;
    var fe := EntryOf(st, path, meta, |ids|);
    NewEntryOk(st, strs, path, meta, |ids|);
    AssignSorted(st.files, path, fe);
    assert st'.files == Insert(st.files, path, fe) && |st'.objectIds| == |st.objectIds| + |ids|;
    assert strs' == strs + strs'[|strs|..];
    InternedNoNul(st'.table, strs');
    forall i | 0 <= i < |st.files|
      ensures EntryOk(strs', |st'.objectIds|, st.files[i].0, st.files[i].1)
    {
      EntryOkStable(strs, strs'[|strs|..], |st.objectIds|, |st'.objectIds|, st.files[i].0, st.files[i].1);
    }
    forall i | 0 <= i < |st'.files|
      ensures EntryOk(strs', |st'.objectIds|, st'.files[i].0, st'.files[i].1)
    {
      assert st'.files[i] in st.files || st'.files[i] == (path, fe);
    }
  }

  lemma InternedNoNul(table: map<Str, nat>, strs: seq<Str>)
    requires Interned(table, strs)
    ensures forall i :: 0 <= i < |strs| ==> NoNul(strs[i])
  {
  }

  /** The entry says of its file what the caller said, beside where its objects are. */
  predicate Describes(st: State, fe: FileEntry, meta: Meta) {
    && Spells(st, fe.userIndex, meta.user) && Spells(st, fe.groupIndex, meta.group)
    && fe.fileType == meta.fileType && fe.mode == meta.mode && fe.compression == meta.compression
    && fe.size == meta.size && fe.mtime == meta.mtime && fe.rollingHashBits == meta.rollingHashBits
    && fe.md5 == meta.md5
  }

  /** What is said of a file, without where its objects are. */
  function Said(meta: Meta): Meta {
    meta.(offset := 0, packLength := 0)
  }

  lemma DescribesSaid(st: State, fe: FileEntry, meta: Meta, meta': Meta)
    requires Said(meta) == Said(meta')
    ensures Describes(st, fe, meta) <==> Describes(st, fe, meta')
  {
    hide Spells;
    assert meta'.user == Said(meta).user && meta'.group == Said(meta).group;
  }

  lemma NewEntryDescribes(st: State, strs: seq<Str>, path: Str, meta: Meta, ids: seq<ObjectId>)
    requires Inv(st, strs) && |ids| <= MAX_OBJECTS && NoNul(path) && NoNul(meta.user) && NoNul(meta.group)
    ensures Describes(AddFileEntry(st, path, meta, ids).value, EntryOf(st, path, meta, |ids|), meta)
  {
    hide Interned, Layout, InsertString, FileName, ParentPath, EntryOk, Spells, NoNul;
    NewEntrySpells(st, strs, path, meta, ids);
  }

  /** An entry goes on saying it while strings are only appended. */
  lemma DescribesLater(st: State, strs: seq<Str>, st': State, strs': seq<Str>, key: Str, fe: FileEntry, meta: Meta)
    requires Inv(st, strs) && Inv(st', strs') && strs <= strs' && Find(st.files, key) == Some(fe)
    requires Describes(st, fe, meta)
    ensures Describes(st', fe, meta)
  {
    hide Interned, Layout, Denotes, Find, CString, SpelledPath, LoadedKey;
    FindExactly(st.files, key);
    var i :| 0 <= i < |st.files| && st.files[i] == (key, fe);
    assert EntryOk(strs, |st.objectIds|, key, fe);
    assert strs' == strs + strs'[|strs|..];
    InternedNoNul(st'.table, strs');
    DenotesStable(strs, strs'[|strs|..], fe.userIndex);
    DenotesStable(strs, strs'[|strs|..], fe.groupIndex);
  }

  /** A deleted path is found no more; every other path is found as before, and nothing else changes. */
  lemma DeletedIsGone(st: State, path: Str, key: Str)
    requires Sorted(st.files)
    ensures Find(DeleteFileEntry(st, path).files, key) == if key == path then None else Find(st.files, key)
    ensures DeleteFileEntry(st, path).objectIds == st.objectIds && DeleteFileEntry(st, path).buffer == st.buffer
    ensures DeleteFileEntry(st, path).table == st.table
  {
    hide Find, Erase;
    FindErase(st.files, path, key);
  }

  lemma DeleteKeepsInv(st: State, strs: seq<Str>, path: Str)
    requires Inv(st, strs)
    ensures Inv(DeleteFileEntry(st, path), strs)
  {
    hide EntryOk, Interned, Layout;
    EraseSorted(st.files, path);
    var st' := DeleteFileEntry(st, path);
    assert forall i :: 0 <= i < |st'.files| ==> st'.files[i] in st.files;
  }
}
