/** The snapshot as the program keeps it: fields updated in place, streams read and written piece
    by piece. Every method is proved against the model of the value it computes. */
module SnapshotStore {
  import opened Bytes
  import opened Streams
  import opened OrderedMap
  import opened StringTable
  import opened Paths
  import opened SnapshotModel
  import opened SnapshotFormat
  import opened SnapshotProperties

  // ----- reading numbers and entries -----

  /** InputStream::readExpected: all or nothing. */
  method ReadExpected(s: Source, n: nat) returns (r: Result<seq<byte>, Error>)
    requires s.Valid() && s.eager
    modifies s`pos
    ensures s.Valid() && old(s.pos) <= s.pos
    ensures r == if old(s.pos) + n <= |s.data| then Ok(s.data[old(s.pos)..old(s.pos) + n]) else Err(ShortRead)
    ensures r.Ok? ==> s.pos == old(s.pos) + n
  {
    var out := s.Read(n);
    if |out| != n {
      return Err(ShortRead);
    }
    return Ok(out);
  }

  /** InputStream::readType of an unsigned little-endian number. */
  method ReadNumber(s: Source, n: nat) returns (r: Result<nat, Error>)
    requires s.Valid() && s.eager
    modifies s`pos
    ensures s.Valid() && old(s.pos) <= s.pos
    ensures var p := old(s.pos);
            r == if p + n <= |s.data| then Ok(FromLittleEndian(s.data[p..p + n])) else Err(ShortRead)
    ensures r.Ok? ==> s.pos == old(s.pos) + n
  {
    var bytes := ReadExpected(s, n);
    return match bytes case Ok(b) => Ok(FromLittleEndian(b)) case Err(e) => Err(e);
  }

  lemma FieldsOf(data: seq<byte>, p: nat)
    requires p + ENTRY_LENGTH <= |data|
    ensures DecodeEntry(data[p..p + ENTRY_LENGTH]) == FileEntry(
      FromLittleEndian(data[p..p + 4]), FromLittleEndian(data[p + 4..p + 8]),
      FromLittleEndian(data[p + 8..p + 12]), FromLittleEndian(data[p + 12..p + 16]),
      FromLittleEndian(data[p + 16..p + 18]), data[p + 18], data[p + 20], data[p + 21],
      FromLittleEndian(data[p + 22..p + 24]),
      FromLittleEndian(data[p + 24..p + 32]), ToInt64(FromLittleEndian(data[p + 32..p + 40])), data[p + 40..p + 56],
      FromLittleEndian(data[p + 56..p + 60]), FromLittleEndian(data[p + 60..p + 64]),
      FromLittleEndian(data[p + 64..p + 68]))
  {
    hide FromLittleEndian, ToInt64;
    var q := p + ENTRY_LENGTH;
    SliceSlice(data, p, q, 0, 4); SliceSlice(data, p, q, 4, 8); SliceSlice(data, p, q, 8, 12);
    SliceSlice(data, p, q, 12, 16);
    SliceSlice(data, p, q, 16, 18); SliceSlice(data, p, q, 22, 24); SliceSlice(data, p, q, 24, 32);
    SliceSlice(data, p, q, 32, 40);
    SliceSlice(data, p, q, 40, 56); SliceSlice(data, p, q, 56, 60); SliceSlice(data, p, q, 60, 64);
    SliceSlice(data, p, q, 64, 68);
  }

  /** The four string indices. */
  method ReadIndices(s: Source) returns (r: Result<(nat, nat, nat, nat), Error>)
    requires s.Valid() && s.eager
    modifies s`pos
    ensures s.Valid() && old(s.pos) <= s.pos
    ensures var p, d := old(s.pos), s.data;
            r == if p + 16 <= |d|
                 then Ok((FromLittleEndian(d[p..p + 4]), FromLittleEndian(d[p + 4..p + 8]),
                          FromLittleEndian(d[p + 8..p + 12]), FromLittleEndian(d[p + 12..p + 16])))
                 else Err(ShortRead)
    ensures r.Ok? ==> s.pos == old(s.pos) + 16
  {
    hide FromLittleEndian;
    var name :- ReadNumber(s, 4);
    var path :- ReadNumber(s, 4);
    var user :- ReadNumber(s, 4);
    var group :- ReadNumber(s, 4);
    return Ok((name, path, user, group));
  }

  /** Mode, compression, type, hash bits and object count; one byte is skipped. */
  method ReadAttributes(s: Source) returns (r: Result<(nat, byte, byte, byte, nat), Error>)
    requires s.Valid() && s.eager
    modifies s`pos
    ensures s.Valid() && old(s.pos) <= s.pos
    ensures var p, d := old(s.pos), s.data;
            r == if p + 8 <= |d|
                 then Ok((FromLittleEndian(d[p..p + 2]), d[p + 2], d[p + 4], d[p + 5],
                          FromLittleEndian(d[p + 6..p + 8])))
                 else Err(ShortRead)
    ensures r.Ok? ==> s.pos == old(s.pos) + 8
  {
    hide FromLittleEndian;
    var mode :- ReadNumber(s, 2);
    var compression :- ReadExpected(s, 1);
    var _ :- ReadExpected(s, 1);
    var fileType :- ReadExpected(s, 1);
    var rollingHashBits :- ReadExpected(s, 1);
    var objectCount :- ReadNumber(s, 2);
    return Ok((mode, compression[0], fileType[0], rollingHashBits[0], objectCount));
  }

  method ReadEntry(s: Source) returns (r: Result<FileEntry, Error>)
    requires s.Valid() && s.eager
    modifies s`pos
    ensures s.Valid() && old(s.pos) <= s.pos
    ensures r == if old(s.pos) + ENTRY_LENGTH <= |s.data|
                 then Ok(DecodeEntry(s.data[old(s.pos)..old(s.pos) + ENTRY_LENGTH]))
                 else Err(ShortRead)
    ensures r.Ok? ==> s.pos == old(s.pos) + ENTRY_LENGTH
  {
    hide FromLittleEndian, ToInt64, DecodeEntry;
    ghost var p := s.pos;
    var indices :- ReadIndices(s);
    var attributes :- ReadAttributes(s);
    var size :- ReadNumber(s, 8);
    var mtime :- ReadNumber(s, 8);
    var md5 :- ReadExpected(s, MD5_LENGTH);
    var offset :- ReadNumber(s, 4);
    var packLength :- ReadNumber(s, 4);
    var objectIdIndex :- ReadNumber(s, 4);
    FieldsOf(s.data, p);
    return Ok(FileEntry(indices.0, indices.1, indices.2, indices.3,
                        attributes.0, attributes.1, attributes.2, attributes.3, attributes.4,
                        size, ToInt64(mtime), md5, offset, packLength, objectIdIndex));
  }

  method WriteEntry(out: TempFileStream, fe: FileEntry)
    requires out.Open()
    modifies out
    ensures out.Open() && out.Written() == old(out.Written()) + EncodeEntry(fe)
  {
    hide EncodeIndices, EncodeAttributes, EncodeTimes, EncodeObjects, TempFileStream.Open, TempFileStream.Written;
    ghost var before := out.Written();
    WriteIndices(out, fe);
    WriteAttributes(out, fe);
    WriteRest(out, fe);
    assert out.Written() == before + EncodeEntry(fe);
  }

  method WriteIndices(out: TempFileStream, fe: FileEntry)
    requires out.Open()
    modifies out
    ensures out.Open() && out.Written() == old(out.Written()) + EncodeIndices(fe)
  {
    hide LittleEndian, TempFileStream.Open, TempFileStream.Written;
    ghost var before := out.Written();
    out.Write(LittleEndian(4, fe.nameIndex));
    out.Write(LittleEndian(4, fe.pathIndex));
    out.Write(LittleEndian(4, fe.userIndex));
    out.Write(LittleEndian(4, fe.groupIndex));
    assert out.Written() == before + EncodeIndices(fe);
  }

  method WriteAttributes(out: TempFileStream, fe: FileEntry)
    requires out.Open()
    modifies out
    ensures out.Open() && out.Written() == old(out.Written()) + EncodeAttributes(fe)
  {
    hide LittleEndian, TempFileStream.Open, TempFileStream.Written;
    ghost var before := out.Written();
    out.Write(LittleEndian(2, fe.mode));
    out.Write([fe.compression]);
    out.Write([0]);
    out.Write([fe.fileType]);
    out.Write([fe.rollingHashBits]);
    out.Write(LittleEndian(2, fe.objectCount));
    assert out.Written() == before + EncodeAttributes(fe);
  }

  method WriteRest(out: TempFileStream, fe: FileEntry)
    requires out.Open()
    modifies out
    ensures out.Open() && out.Written() == old(out.Written()) + EncodeTimes(fe) + fe.md5 + EncodeObjects(fe)
  {
    hide LittleEndian;
    ghost var before := out.Written();
    out.Write(LittleEndian(8, fe.size));
    out.Write(LittleEndian(8, fe.mtime));
    assert out.Written() == before + EncodeTimes(fe);
    out.Write(fe.md5);
    out.Write(LittleEndian(4, fe.offset));
    out.Write(LittleEndian(4, fe.packLength));
    out.Write(LittleEndian(4, fe.objectIdIndex));
    assert out.Written() == before + EncodeTimes(fe) + fe.md5 + EncodeObjects(fe);
  }

  // ----- listings -----

  /** What a listing visits from entry i on, and whether it ends without an index out of range. */
  function Listing(buffer: seq<byte>, files: Entries<FileEntry>, search: Str, i: nat): (seq<FileEntry>, bool)
    requires i <= |files|
    decreases |files| - i
  {
    if i == |files| then ([], true)
    else
      var fe := files[i].1;
      match (IndexToString(buffer, ToInt32(fe.pathIndex)), IndexToString(buffer, ToInt32(fe.nameIndex)))
      case (Ok(parent), Ok(name)) =>
        if !Continues(search, Joined(parent, name)) then ([], true)
        else
          var (rest, ok) := Listing(buffer, files, search, i + 1);
          ([fe] + rest, ok)
      case _ => ([], false)
  }

  function Values(files: Entries<FileEntry>): seq<FileEntry> {
    seq(|files|, k requires 0 <= k < |files| => files[k].1)
  }

  /** In a loaded snapshot the paths compared are the keys, so a listing is a range of the map. */
  lemma {:induction false} ListingIsRange(buffer: seq<byte>, files: Entries<FileEntry>, search: Str, i: nat)
    requires i <= |files| && |buffer| < 0x8000_0000 && KeysJoin(buffer, files)
    requires forall k :: 0 <= k < |files| ==> LoadedKey(files[k].0) == files[k].0
    ensures Listing(buffer, files, search, i) == (Values(files[i..StopAt(files, search, i)]), true)
    decreases |files| - i
  {
    hide LoadedKey, Continues, KeysJoin, Listing, Values;
    var j := StopAt(files, search, i);
    if i < |files| {
      ListingStep(buffer, files, search, i);
      if Continues(search, files[i].0) {
        ListingIsRange(buffer, files, search, i + 1);
      }
    } else {
      ListingEnds(buffer, files, search);
    }
    ValuesSlice(files, i, j);
  }

  lemma ListingStep(buffer: seq<byte>, files: Entries<FileEntry>, search: Str, i: nat)
    requires i < |files| && |buffer| < 0x8000_0000 && KeysJoin(buffer, files) && LoadedKey(files[i].0) == files[i].0
    ensures var (rest, ok) := Listing(buffer, files, search, i + 1);
            Listing(buffer, files, search, i)
            == if Continues(search, files[i].0) then ([files[i].1] + rest, ok) else ([], true)
  {
    hide LoadedKey, Continues, CString, Joined;
    var fe := files[i].1;
    assert Joined(CString(buffer[fe.pathIndex..]), CString(buffer[fe.nameIndex..])) == files[i].0;
  }

  lemma ListingEnds(buffer: seq<byte>, files: Entries<FileEntry>, search: Str)
    ensures Listing(buffer, files, search, |files|) == ([], true)
  {
  }

  lemma ValuesSlice(files: Entries<FileEntry>, i: nat, j: nat)
    requires i <= j <= |files|
    ensures i == j ==> Values(files[i..j]) == []
    ensures i < j ==> Values(files[i..j]) == [files[i].1] + Values(files[i + 1..j])
  {
  }

  /** In an entry's own words: a listing of a snapshot loaded from a save visits, in key order,
      only entries under the search path, and all of them unless a sibling intrudes. */
  /** A subpath and what is left of it without the slashes at its end. */
  predicate Trimmed(subpath: Str, search: Str) {
    && search <= subpath && (forall k :: |search| <= k < |subpath| ==> subpath[k] == 47)
    && (search == [] || search[|search| - 1] != 47)
  }

  lemma OneTrim(subpath: Str, search: Str)
    requires Trimmed(subpath, search)
    ensures StripSlashes(subpath) == search
  {
    hide StripSlashes;
    var r := StripSlashes(subpath);
    assert search != [] ==> subpath[|search| - 1] == search[|search| - 1];
    assert r != [] ==> subpath[|r| - 1] == r[|r| - 1];
    assert search == subpath[..|search|] && r == subpath[..|r|];
  }

  /** The listing of a subpath, with or without slashes at its end, in a loaded snapshot: a range of
      the entries, each the subpath's own or beneath it; and all of those, unless something lies
      beneath it and some path goes on from it with a byte below the slash. */
  lemma SubpathListing(st: State, strs: seq<Str>, subpath: Str, search: Str)
    requires Inv(st, strs) && |st.buffer| < 0x8000_0000 && Trimmed(subpath, search)
    requires forall k :: 0 <= k < |st.files| ==> LoadedKey(st.files[k].0) == st.files[k].0
    ensures var stripped := StripSlashes(subpath);
            var i := LowerBound(st.files, stripped);
            var j := StopAt(st.files, stripped, i);
            && Listing(st.buffer, st.files, stripped, i) == (Values(st.files[i..j]), true)
            && (forall k :: i <= k < j ==> Beneath(search, st.files[k].0))
            && ((forall k :: 0 <= k < |st.files| && Beneath(search, st.files[k].0) ==> i <= k < j)
                <==> search == [] || !SomeGoesOnBelow(st.files, search) || !HasDescendant(st.files, search))
  {
    hide LoadedKey, Listing, Inv, LowerBound, StopAt, Rank;
    OneTrim(subpath, search);
    LoadedListing(st, strs, search);
    forall k | 0 <= k < |st.files|
      ensures Rank(search, st.files[k].0) == 1 <==> GoesOnBelow(search, st.files[k].0)
    {
      RankBelow(search, st.files[k].0);
    }
  }

  ghost predicate SomeGoesOnBelow(files: Entries<FileEntry>, search: Str) {
    exists k :: 0 <= k < |files| && GoesOnBelow(search, files[k].0)
  }

  /** The path goes on from the subpath with a byte below the slash. */
  predicate GoesOnBelow(search: Str, path: Str) {
    search <= path && |path| > |search| && path[|search|] < 47
  }

  lemma RankBelow(search: Str, path: Str)
    ensures Rank(search, path) == 1 <==> GoesOnBelow(search, path)
  {
  }

  lemma LoadedListing(st: State, strs: seq<Str>, search: Str)
    requires Inv(st, strs) && |st.buffer| < 0x8000_0000
    requires forall k :: 0 <= k < |st.files| ==> LoadedKey(st.files[k].0) == st.files[k].0
    ensures var i := LowerBound(st.files, search);
            var j := StopAt(st.files, search, i);
            && Listing(st.buffer, st.files, search, i) == (Values(st.files[i..j]), true)
            && (forall k :: i <= k < j ==> Beneath(search, st.files[k].0))
            && ((forall k :: 0 <= k < |st.files| && Beneath(search, st.files[k].0) ==> i <= k < j)
                <==> search == [] || !Intruded(st.files, search) || !HasDescendant(st.files, search))
  {
    hide LoadedKey, CString, Joined, Layout, Listing;
    ListingIsRange(st.buffer, st.files, search, LowerBound(st.files, search));
    ListingComplete(st.files, search);
  }

  /** d/a! and d/a/b, as bytes: the first comes before the second, since ! is below the slash. */
  const INTRUDER: Str := [100, 47, 97, 33]
  const DESCENDANT: Str := [100, 47, 97, 47, 98]
  const SEARCH: Str := [100, 47, 97]

  /** A snapshot of the two paths, saved and loaded. */
  function TwoPaths(): seq<Op> {
    [Add(INTRUDER, PLAIN_META, []), Add(DESCENDANT, PLAIN_META, []), SaveAndLoad]
  }

  lemma TwoPathStates(a: FileEntry, b: FileEntry)
    ensures var one, two := [(INTRUDER, a)], [(INTRUDER, a), (DESCENDANT, b)];
            && Insert([], INTRUDER, a) == one && Insert(one, DESCENDANT, b) == two && Refiled([], two) == two
            && LowerBound(two, SEARCH) == 0 && StopAt(two, SEARCH, 0) == 0 && Beneath(SEARCH, DESCENDANT)
  {
    var none: Entries<FileEntry> := [];
    var one, two := [(INTRUDER, a)], [(INTRUDER, a), (DESCENDANT, b)];
    SpelledOut();
    assert LoadedKey(INTRUDER) == INTRUDER && LoadedKey(DESCENDANT) == DESCENDANT;
    assert LowerBound(none, INTRUDER) == 0;
    assert LowerBound(one, DESCENDANT) == 1 by { assert one[1..] == none; }
    assert Insert(one, DESCENDANT, b) == two && Assign(one, DESCENDANT, b) == two && Assign(none, INTRUDER, a) == one;
    assert two[1..] == [(DESCENDANT, b)] && [(DESCENDANT, b)][1..] == none;
    assert Refiled(one, [(DESCENDANT, b)]) == Refiled(two, none);
    assert Refiled(none, two) == Refiled(one, two[1..]);
  }

  lemma SpelledOut()
    ensures Less(INTRUDER, DESCENDANT) && !Less(INTRUDER, SEARCH) && SEARCH <= INTRUDER
    ensures SLASH in INTRUDER && SLASH in DESCENDANT && SEARCH + [SLASH] <= DESCENDANT
    ensures NoNul(INTRUDER) && NoNul(DESCENDANT) && Rejoins(INTRUDER) && Rejoins(DESCENDANT)
  {
    assert INTRUDER[1] == SLASH && DESCENDANT[1] == SLASH && DESCENDANT[3] == SLASH;
    assert LastSlash(INTRUDER, 4) == 1 && LastSlash(DESCENDANT, 5) == 3;
    assert INTRUDER[1..] == [47, 97, 33] && DESCENDANT[1..] == [47, 97, 47, 98] && SEARCH[1..] == [47, 97];
    assert Less([33], [47, 98]) && !Less([33], []);
    assert [97, 33][1..] == [33] && [97, 47, 98][1..] == [47, 98] && [97 as byte][1..] == [];
    assert Less([97, 33], [97, 47, 98]) && !Less([97, 33], [97]);
    assert [47, 97, 33][1..] == [97, 33] && [47, 97, 47, 98][1..] == [97, 47, 98] && [47, 97][1..] == [97];
    assert Less([47, 97, 33], [47, 97, 47, 98]) && !Less([47, 97, 33], [47, 97]);
    assert SEARCH + [SLASH] == [100, 47, 97, 47];
  }

  /** A listing that misses a file: of d/a, in a loaded snapshot of d/a! and d/a/b, it visits
      nothing. */
  lemma ListingMisses()
    ensures LegalRun(Empty(), TwoPaths())
    ensures var st := Run(Empty(), TwoPaths());
            && |st.files| == 2 && st.files[1].0 == DESCENDANT && Beneath(SEARCH, DESCENDANT)
            && Listing(st.buffer, st.files, SEARCH, LowerBound(st.files, SEARCH)) == ([], true)
  {
    hide Inv, Fits, Legal, Apply, Insert, Refiled, EntryOf, StrsAfterAdd, Listing, LowerBound, StopAt, Beneath, NoNul;
    hide Rejoins;
    SpelledOut();
    InvEmpty();
    EmptyFits();
    var add1, add2 := Add(INTRUDER, PLAIN_META, []), Add(DESCENDANT, PLAIN_META, []);
    AddPlain(Empty(), [], INTRUDER);
    var s1, strs1 := Apply(Empty(), add1), StrsAfterAdd(Empty(), [], INTRUDER, PLAIN_META);
    var a, b := EntryOf(Empty(), INTRUDER, PLAIN_META, 0), EntryOf(s1, DESCENDANT, PLAIN_META, 0);
    TwoPathStates(a, b);
    AddPlain(s1, strs1, DESCENDANT);
    var s2, strs2 := Apply(s1, add2), StrsAfterAdd(s1, strs1, DESCENDANT, PLAIN_META);
    SavePlain(s2, strs2);
    var s3 := Apply(s2, SaveAndLoad);
    SavePlain(s3, strs2);
    FourSteps(Empty(), add1, add2, SaveAndLoad, SaveAndLoad);
    JoinedKeys(s3, strs2);
    ListingIsRange(s3.buffer, s3.files, SEARCH, 0);
    assert Values(s3.files[0..0]) == [];
  }

  lemma JoinedKeys(st: State, strs: seq<Str>)
    requires Inv(st, strs)
    ensures KeysJoin(st.buffer, st.files)
  {
    hide LoadedKey, Layout, CString, Joined, Interned;
  }

  // ----- the class -----

  class Snapshot {
    var table: map<Str, nat>
    var buffer: seq<byte>
    var objectIds: seq<ObjectId>
    var files: Entries<FileEntry>

    ghost function Value(): State
      reads this
    {
      State(table, buffer, objectIds, files)
    }

    constructor ()
      ensures Value() == Empty()
    {
      table, buffer, objectIds, files := map[], [], [], [];
    }

    method InsertStringTable(s: Str) returns (idx: nat)
      modifies this`table, this`buffer
      ensures (table, buffer, idx) == InsertString(old(table), old(buffer), s)
    {
      if s in table {
        return table[s];
      }
      var n := |s| + 1;
      idx := |buffer|;
      buffer := buffer + s + ZeroBytes(RoundUp(idx + n) - idx - |s|);
      table := table[s := idx];
    }

    method AddObjectIds(ids: seq<ObjectId>) returns (idx: nat)
      modifies this`objectIds
      ensures objectIds == old(objectIds) + ids && idx == |old(objectIds)|
    {
      idx := |objectIds|;
      objectIds := objectIds + ids;
    }

    method AddFileEntry(path: Str, meta: Meta, ids: seq<ObjectId>) returns (r: Result<(), Error>)
      modifies this
      ensures r == if |ids| <= 65535 then Ok(()) else Err(InvalidArgument)
      ensures match SnapshotModel.AddFileEntry(old(Value()), path, meta, ids)
              case Ok(st) => r == Ok(()) && Value() == st
              case Err(e) => r == Err(e) && Value() == old(Value())
    {
      hide InsertString, FileName, ParentPath, Insert;
      if |ids| > MAX_OBJECTS {
        return Err(InvalidArgument);
      }
      var nameIndex := InsertStringTable(FileName(path));
      var pathIndex := InsertStringTable(ParentPath(path));
      var userIndex := InsertStringTable(meta.user);
      var groupIndex := InsertStringTable(meta.group);
      var objectIdIndex := AddObjectIds(ids);
      var fe := FileEntry(nameIndex, pathIndex, userIndex, groupIndex, meta.mode, meta.compression, meta.fileType,
                          meta.rollingHashBits, |ids|, meta.size, meta.mtime, meta.md5,
                          meta.offset, meta.packLength, objectIdIndex);
      files := Insert(files, path, fe);
      return Ok(());
    }

    function GetFileEntry(path: Str): (r: Option<FileEntry>)
      reads this
    {
      Find(files, path)
    }

    method DeleteFileEntry(path: Str)
      modifies this`files
      ensures Value() == SnapshotModel.DeleteFileEntry(old(Value()), path)
    {
      var i := LowerBound(files, path);
      if i < |files| && files[i].0 == path {
        files := files[..i] + files[i + 1..];
      }
    }

    /** The entries handed to the callback, and whether the listing ended without an exception. */
    method ForEachFileEntry(subpath: Str) returns (visited: seq<FileEntry>, ok: bool)
      ensures (visited, ok) == Listing(buffer, files, StripSlashes(subpath), LowerBound(files, StripSlashes(subpath)))
    {
      hide LowerBound, Joined, IndexToString, ToInt32;
      var search := subpath;
      while search != [] && search[|search| - 1] == SLASH
        invariant StripSlashes(search) == StripSlashes(subpath)
      {
        search := search[..|search| - 1];
      }
      assert search == StripSlashes(subpath);
      visited, ok := [], true;
      var found := LowerBound(files, search);
      ghost var all := Listing(buffer, files, search, found);
      assert [] + all.0 == all.0;
      while found < |files|
        invariant found <= |files|
        invariant all == (visited + Listing(buffer, files, search, found).0, Listing(buffer, files, search, found).1)
      {
        var fe := files[found].1;
        var parent, name := IndexToString(buffer, ToInt32(fe.pathIndex)), IndexToString(buffer, ToInt32(fe.nameIndex));
        if parent.Err? || name.Err? {
          assert visited + [] == visited;
          return visited, false;
        }
        var filePath := Joined(parent.value, name.value);
        if !Continues(search, filePath) {
          assert visited + [] == visited;
          return;
        }
        ghost var rest := Listing(buffer, files, search, found + 1).0;
        assert visited + ([fe] + rest) == visited + [fe] + rest;
        visited := visited + [fe];
        found := found + 1;
      }
      assert visited + [] == visited;
    }

    method Save(out: TempFileStream)
      requires out.Open() && |buffer| % 4 == 0
      modifies out
      ensures out.Open() && out.Written() == old(out.Written()) + Saved(Value())
    {
      hide LittleEndian, Flatten, EncodeEntry;
      ghost var before := out.Written();
      out.Write(LittleEndian(4, |files|));
      out.Write(LittleEndian(4, (|buffer| + 3) / 4));
      out.Write(LittleEndian(4, |objectIds|));
      assert out.Written() == before + Header(|files|, |buffer|, |objectIds|);
      out.Write(buffer);
      SaveIds(out);
      SaveFiles(out);
      assert out.Written() == before + Saved(Value());
    }

    method SaveIds(out: TempFileStream)
      requires out.Open()
      modifies out
      ensures out.Open() && out.Written() == old(out.Written()) + Flatten(objectIds)
    {
      ghost var before := out.Written();
      NothingFlattened();
      for i := 0 to |objectIds|
        invariant out.Open() && out.Written() == before + Flatten(objectIds[..i])
      {
        out.Write(objectIds[i]);
        FlattenNext(objectIds, i);
        assert before + Flatten(objectIds[..i]) + objectIds[i] == before + (Flatten(objectIds[..i]) + objectIds[i]);
      }
      assert objectIds[..|objectIds|] == objectIds;
    }

    method SaveFiles(out: TempFileStream)
      requires out.Open()
      modifies out
      ensures out.Open() && out.Written() == old(out.Written()) + Flatten(EncodedFiles(files))
    {
      hide EncodeEntry, Flatten;
      ghost var before := out.Written();
      ghost var parts := EncodedFiles(files);
      NothingFlattened();
      for i := 0 to |files|
        invariant out.Open() && out.Written() == before + Flatten(parts[..i])
      {
        WriteEntry(out, files[i].1);
        FlattenNext(parts, i);
        assert before + Flatten(parts[..i]) + parts[i] == before + (Flatten(parts[..i]) + parts[i]);
      }
      assert parts[..|files|] == parts;
    }

    /** Entries of the snapshot are added to, never replaced wholesale; a failed load may have
        changed the fields already. */
    method Load(s: Source) returns (r: Result<(), Error>)
      requires s.Valid() && s.eager
      modifies this, s`pos
      ensures match Loaded(old(Value()), s.data[old(s.pos)..])
              case Ok(st) => r == Ok(()) && Value() == st
              case Err(e) => r == Err(e)
    {
      hide FromLittleEndian, ParseTable, ChopIds, LoadEntries;
      ghost var p, base := s.pos, Value();
      ghost var d := s.data[p..];
      var numFiles :- ReadNumber(s, 4);
      var words :- ReadNumber(s, 4);
      var numObjects :- ReadNumber(s, 4);
      HeaderFields(s.data, p);
      var stringTableSize := words * 4 % 0x1_0000_0000;
      var bytes :- ReadExpected(s, stringTableSize);
      buffer := bytes;
      BuildTable();
      var ids :- ReadIds(s, numObjects);
      objectIds := ids;
      LoadTail(base, s.data, p, numFiles, stringTableSize, numObjects);
      r := ReadFiles(s, numFiles);
    }

    /** Every string between zeros is entered at its offset. */
    method BuildTable()
      modifies this`table
      ensures table == ParseTable(old(table), buffer, 0)
    {
      hide ParseTable, CString, SkipZeros;
      var p := 0;
      while p < |buffer|
        invariant ParseTable(table, buffer, p) == ParseTable(old(table), buffer, 0)
        decreases |buffer| - p
      {
        ParseStep(table, buffer, p);
        var s := CString(buffer[p..]);
        table := table[s := p];
        p := PastZeros(p + |s| + 1);
      }
      ParseEnds(table, buffer, p);
    }

    method PastZeros(start: nat) returns (p: nat)
      ensures p == SkipZeros(buffer, start)
    {
      p := start;
      while p < |buffer| && buffer[p] == 0
        invariant SkipZeros(buffer, p) == SkipZeros(buffer, start)
        decreases |buffer| - p
      {
        p := p + 1;
      }
    }

    method ReadFiles(s: Source, numFiles: nat) returns (r: Result<(), Error>)
      requires s.Valid() && s.eager
      modifies this`files, s`pos
      ensures match LoadEntries(buffer, old(files), s.data[old(s.pos)..], numFiles)
              case Ok(files') => r == Ok(()) && files == files'
              case Err(e) => r == Err(e)
    {
      hide DecodeEntry, Joined, Assign, ToInt32, IndexToString, LoadEntries;
      for i := 0 to numFiles
        invariant s.Valid()
        invariant LoadEntries(buffer, files, s.data[s.pos..], numFiles - i)
               == LoadEntries(buffer, old(files), s.data[old(s.pos)..], numFiles)
      {
        LoadEntriesStep(buffer, files, s.data, s.pos, numFiles - i);
        var fe :- ReadEntry(s);
        IndexErrors(buffer, ToInt32(fe.pathIndex));
        IndexErrors(buffer, ToInt32(fe.nameIndex));
        var parent :- IndexToString(buffer, ToInt32(fe.pathIndex));
        var name :- IndexToString(buffer, ToInt32(fe.nameIndex));
        files := Assign(files, Joined(parent, name), fe);
      }
      LoadEntriesDone(buffer, files, s.data[s.pos..]);
      return Ok(());
    }
  }

  lemma ParseStep(table: map<Str, nat>, buffer: seq<byte>, p: nat)
    requires p < |buffer|
    ensures var s := CString(buffer[p..]);
            && ParseTable(table, buffer, p) == ParseTable(table[s := p], buffer, SkipZeros(buffer, p + |s| + 1))
            && SkipZeros(buffer, p + |s| + 1) > p
  {
    SkipZerosForward(buffer, p + |CString(buffer[p..])| + 1);
  }

  lemma ParseEnds(table: map<Str, nat>, buffer: seq<byte>, p: nat)
    requires p >= |buffer|
    ensures ParseTable(table, buffer, p) == table
  {
  }

  lemma LoadEntriesStep(buffer: seq<byte>, files: Entries<FileEntry>, data: seq<byte>, p: nat, n: nat)
    requires p <= |data| && n > 0
    ensures p + ENTRY_LENGTH > |data| ==> LoadEntries(buffer, files, data[p..], n) == Err(ShortRead)
    ensures p + ENTRY_LENGTH <= |data| ==>
      var fe := DecodeEntry(data[p..p + ENTRY_LENGTH]);
      var parent, name := IndexToString(buffer, ToInt32(fe.pathIndex)), IndexToString(buffer, ToInt32(fe.nameIndex));
      && (parent.Err? || name.Err? ==> LoadEntries(buffer, files, data[p..], n) == Err(IndexOutOfBound))
      && (parent.Ok? && name.Ok? ==>
            LoadEntries(buffer, files, data[p..], n)
            == LoadEntries(buffer, Assign(files, Joined(parent.value, name.value), fe),
                           data[p + ENTRY_LENGTH..], n - 1))
  {
    hide DecodeEntry, Joined, Assign, ToInt32;
    if p + ENTRY_LENGTH <= |data| {
      assert data[p..][..ENTRY_LENGTH] == data[p..p + ENTRY_LENGTH];
      assert data[p..][ENTRY_LENGTH..] == data[p + ENTRY_LENGTH..];
    }
  }

  lemma LoadEntriesDone(buffer: seq<byte>, files: Entries<FileEntry>, s: seq<byte>)
    ensures LoadEntries(buffer, files, s, 0) == Ok(files)
  {
  }

  lemma IndexErrors(buffer: seq<byte>, n: int)
    ensures IndexToString(buffer, n).Err? ==> IndexToString(buffer, n).error == IndexOutOfBound
  {
  }

  method ReadIds(s: Source, numObjects: nat) returns (r: Result<seq<ObjectId>, Error>)
    requires s.Valid() && s.eager
    modifies s`pos
    ensures s.Valid()
    ensures var p, n := old(s.pos), ID_LENGTH * numObjects;
            r == if p + n <= |s.data| then Ok(ChopIds(s.data[p..p + n], numObjects)) else Err(ShortRead)
    ensures r.Ok? ==> s.pos == old(s.pos) + ID_LENGTH * numObjects
  {
    var ids: seq<ObjectId> := [];
    ghost var p := s.pos;
    for i := 0 to numObjects
      invariant s.Valid() && s.pos == p + ID_LENGTH * i && ids == ChopIds(s.data[p..s.pos], i)
    {
      var id :- ReadExpected(s, ID_LENGTH);
      assert s.data[p..s.pos][..ID_LENGTH * i] == s.data[p..p + ID_LENGTH * i];
      assert s.data[p..s.pos][ID_LENGTH * i..] == id;
      ids := ids + [id];
    }
    return Ok(ids);
  }

  lemma HeaderFields(data: seq<byte>, p: nat)
    requires p + 12 <= |data|
    ensures var d := data[p..];
            && d[0..4] == data[p..p + 4] && d[4..8] == data[p + 4..p + 8]
            && d[8..12] == data[p + 8..p + 12] && d[12..] == data[p + 12..]
  {
  }

  /** A load of strings at p, ids at q and entries after those. */
  function LoadedTail(base: State, data: seq<byte>, p: nat, q: nat, numFiles: nat,
                      numObjects: nat): Result<State, Error>
    requires p <= q && q + ID_LENGTH * numObjects <= |data|
  {
    var e := q + ID_LENGTH * numObjects;
    match LoadEntries(data[p..q], base.files, data[e..], numFiles)
    case Err(error) => Err(error)
    case Ok(files) =>
      Ok(State(ParseTable(base.table, data[p..q], 0), data[p..q], ChopIds(data[q..e], numObjects), files))
  }

  /** Once strings and ids are in, only the entries remain. */
  lemma LoadTail(base: State, data: seq<byte>, p: nat, numFiles: nat, tableSize: nat, numObjects: nat)
    requires p + 12 + tableSize + ID_LENGTH * numObjects <= |data|
    ensures LoadBody(base, numFiles, tableSize, numObjects, data[p + 12..])
         == LoadedTail(base, data, p + 12, p + 12 + tableSize, numFiles, numObjects)
  {
    hide ParseTable, ChopIds, LoadEntries;
    var q := p + 12 + tableSize;
    var s := data[p + 12..];
    assert s[..tableSize] == data[p + 12..q] && s[tableSize..] == data[q..];
    assert data[q..][..ID_LENGTH * numObjects] == data[q..q + ID_LENGTH * numObjects];
    assert data[q..][ID_LENGTH * numObjects..] == data[q + ID_LENGTH * numObjects..];
  }
}
