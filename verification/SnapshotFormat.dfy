/** The byte format of a snapshot, little-endian, and what loading makes of saved bytes. */
module SnapshotFormat {
  import opened Bytes
  import opened OrderedMap
  import opened StringTable
  import opened Paths
  import opened SnapshotModel

  const ENTRY_LENGTH := 68

  // ----- one entry -----

  function EncodeIndices(fe: FileEntry): (s: seq<byte>)
    ensures |s| == 16
  {
    LittleEndian(4, fe.nameIndex) + LittleEndian(4, fe.pathIndex)
    + LittleEndian(4, fe.userIndex) + LittleEndian(4, fe.groupIndex)
  }

  /** Mode, compression, an unused zero, type, hash bits and object count. */
  function EncodeAttributes(fe: FileEntry): (s: seq<byte>)
    ensures |s| == 8
  {
    LittleEndian(2, fe.mode) + [fe.compression, 0, fe.fileType, fe.rollingHashBits] + LittleEndian(2, fe.objectCount)
  }

  function EncodeTimes(fe: FileEntry): (s: seq<byte>)
    ensures |s| == 16
  {
    LittleEndian(8, fe.size) + LittleEndian(8, fe.mtime)
  }

  function EncodeObjects(fe: FileEntry): (s: seq<byte>)
    ensures |s| == 12
  {
    LittleEndian(4, fe.offset) + LittleEndian(4, fe.packLength) + LittleEndian(4, fe.objectIdIndex)
  }

  function EncodeEntry(fe: FileEntry): seq<byte> {
    EncodeIndices(fe) + EncodeAttributes(fe) + EncodeTimes(fe) + fe.md5 + EncodeObjects(fe)
  }

  /** A signed 64-bit time read from its unsigned image. */
  function ToInt64(n: int): int {
    if n < 0x8000_0000_0000_0000 then n else n - 0x1_0000_0000_0000_0000
  }

  function DecodeEntry(w: seq<byte>): FileEntry
    requires |w| == ENTRY_LENGTH
  {
    FileEntry(
      FromLittleEndian(w[0..4]), FromLittleEndian(w[4..8]), FromLittleEndian(w[8..12]), FromLittleEndian(w[12..16]),
      FromLittleEndian(w[16..18]), w[18], w[20], w[21], FromLittleEndian(w[22..24]),
      FromLittleEndian(w[24..32]), ToInt64(FromLittleEndian(w[32..40])), w[40..56],
      FromLittleEndian(w[56..60]), FromLittleEndian(w[60..64]), FromLittleEndian(w[64..68]))
  }

  /** Every field fits the width it is written with. */
  ghost predicate InRange(fe: FileEntry) {
    && fe.nameIndex < 0x1_0000_0000 && fe.pathIndex < 0x1_0000_0000
    && fe.userIndex < 0x1_0000_0000 && fe.groupIndex < 0x1_0000_0000
    && fe.mode < 0x1_0000 && fe.objectCount < 0x1_0000
    && fe.size < 0x1_0000_0000_0000_0000
    && -0x8000_0000_0000_0000 <= fe.mtime < 0x8000_0000_0000_0000
    && |fe.md5| == MD5_LENGTH
    && fe.offset < 0x1_0000_0000 && fe.packLength < 0x1_0000_0000 && fe.objectIdIndex < 0x1_0000_0000
  }

  lemma Number(width: nat, v: nat)
    requires width in {2, 4, 8}
    requires v < if width == 2 then 0x1_0000 else if width == 4 then 0x1_0000_0000 else 0x1_0000_0000_0000_0000
    ensures FromLittleEndian(LittleEndian(width, v)) == v
  {
    PowersOf256();
    LittleEndianRoundTrip(width, v);
  }

  /** Two's complement: a negative number is written as its image modulo 256^width. */
  lemma {:induction false} LittleEndianWraps(width: nat, v: int)
    ensures LittleEndian(width, v + Pow(256, width)) == LittleEndian(width, v)
    decreases width
  {
    if width > 0 {
      AddMultiple(v, Pow(256, width - 1));
      LittleEndianWraps(width - 1, v / 256);
    }
  }

  lemma AddMultiple(v: int, p: int)
    ensures (v + 256 * p) / 256 == v / 256 + p && (v + 256 * p) % 256 == v % 256
  {
  }

  lemma SignedNumber(v: int)
    requires -0x8000_0000_0000_0000 <= v < 0x8000_0000_0000_0000
    ensures ToInt64(FromLittleEndian(LittleEndian(8, v))) == v
  {
    PowersOf256();
    if v >= 0 {
      Number(8, v);
    } else {
      LittleEndianWraps(8, v);
      Number(8, v + 0x1_0000_0000_0000_0000);
    }
  }

  lemma IndicesRoundTrip(fe: FileEntry)
    requires InRange(fe)
    ensures var s := EncodeIndices(fe);
            && FromLittleEndian(s[0..4]) == fe.nameIndex && FromLittleEndian(s[4..8]) == fe.pathIndex
            && FromLittleEndian(s[8..12]) == fe.userIndex && FromLittleEndian(s[12..16]) == fe.groupIndex
  {
    hide LittleEndian, FromLittleEndian;
    var a, b := LittleEndian(4, fe.nameIndex), LittleEndian(4, fe.pathIndex);
    var c, d := LittleEndian(4, fe.userIndex), LittleEndian(4, fe.groupIndex);
    Four(a, b, c, d);
    Number(4, fe.nameIndex); Number(4, fe.pathIndex); Number(4, fe.userIndex); Number(4, fe.groupIndex);
  }

  lemma Four(a: seq<byte>, b: seq<byte>, c: seq<byte>, d: seq<byte>)
    requires |a| == 4 && |b| == 4 && |c| == 4 && |d| == 4
    ensures var s := a + b + c + d;
            s[0..4] == a && s[4..8] == b && s[8..12] == c && s[12..16] == d
  {
    var s := a + b + c + d;
    Within(s, [], a, b + c + d, 0, 4); Within(s, a, b, c + d, 0, 4);
    Within(s, a + b, c, d, 0, 4); Within(s, a + b + c, d, [], 0, 4);
    assert a[0..4] == a && b[0..4] == b && c[0..4] == c && d[0..4] == d;
  }

  lemma AttributesRoundTrip(fe: FileEntry)
    requires InRange(fe)
    ensures var s := EncodeAttributes(fe);
            && FromLittleEndian(s[0..2]) == fe.mode && s[2] == fe.compression && s[4] == fe.fileType
            && s[5] == fe.rollingHashBits && FromLittleEndian(s[6..8]) == fe.objectCount
  {
    hide LittleEndian, FromLittleEndian;
    var s := EncodeAttributes(fe);
    assert s[0..2] == LittleEndian(2, fe.mode) && s[6..8] == LittleEndian(2, fe.objectCount);
    Number(2, fe.mode); Number(2, fe.objectCount);
  }

  lemma TimesRoundTrip(fe: FileEntry)
    requires InRange(fe)
    ensures var s := EncodeTimes(fe);
            FromLittleEndian(s[0..8]) == fe.size && ToInt64(FromLittleEndian(s[8..16])) == fe.mtime
  {
    hide LittleEndian, FromLittleEndian;
    var s := EncodeTimes(fe);
    assert s[0..8] == LittleEndian(8, fe.size) && s[8..16] == LittleEndian(8, fe.mtime);
    Number(8, fe.size);
    SignedNumber(fe.mtime);
  }

  lemma ObjectsRoundTrip(fe: FileEntry)
    requires InRange(fe)
    ensures var s := EncodeObjects(fe);
            && FromLittleEndian(s[0..4]) == fe.offset && FromLittleEndian(s[4..8]) == fe.packLength
            && FromLittleEndian(s[8..12]) == fe.objectIdIndex
  {
    hide LittleEndian, FromLittleEndian;
    var s := EncodeObjects(fe);
    assert s[0..4] == LittleEndian(4, fe.offset) && s[4..8] == LittleEndian(4, fe.packLength);
    assert s[8..12] == LittleEndian(4, fe.objectIdIndex);
    Number(4, fe.offset); Number(4, fe.packLength); Number(4, fe.objectIdIndex);
  }

  /** An entry is read back field by field as it was written. */
  lemma EntryRoundTrip(fe: FileEntry)
    requires InRange(fe)
    ensures |EncodeEntry(fe)| == ENTRY_LENGTH && DecodeEntry(EncodeEntry(fe)) == fe
  {
    hide EncodeIndices, EncodeAttributes, EncodeTimes, EncodeObjects, LittleEndian, FromLittleEndian, ToInt64;
    var a, b, c, d, w := EncodeIndices(fe), EncodeAttributes(fe), EncodeTimes(fe), EncodeObjects(fe), EncodeEntry(fe);
    IndicesRoundTrip(fe); AttributesRoundTrip(fe); TimesRoundTrip(fe); ObjectsRoundTrip(fe);
    Within(w, [], a, b + c + fe.md5 + d, 0, 4); Within(w, [], a, b + c + fe.md5 + d, 4, 8);
    Within(w, [], a, b + c + fe.md5 + d, 8, 12); Within(w, [], a, b + c + fe.md5 + d, 12, 16);
    Within(w, a, b, c + fe.md5 + d, 0, 2); Within(w, a, b, c + fe.md5 + d, 6, 8);
    assert w[18] == b[2] && w[20] == b[4] && w[21] == b[5];
    Within(w, a + b, c, fe.md5 + d, 0, 8); Within(w, a + b, c, fe.md5 + d, 8, 16);
    assert w[40..56] == fe.md5;
    Within(w, a + b + c + fe.md5, d, [], 0, 4); Within(w, a + b + c + fe.md5, d, [], 4, 8);
    Within(w, a + b + c + fe.md5, d, [], 8, 12);
  }

  /** The 68 bytes of an entry, field after field. */
  lemma EntryLayout(fe: FileEntry)
    requires |fe.md5| == 16
    ensures var w := EncodeEntry(fe);
            && |w| == 68
            && w[0..16] == LittleEndian(4, fe.nameIndex) + LittleEndian(4, fe.pathIndex)
                           + LittleEndian(4, fe.userIndex) + LittleEndian(4, fe.groupIndex)
            && w[16..24] == LittleEndian(2, fe.mode) + [fe.compression, 0, fe.fileType, fe.rollingHashBits]
                            + LittleEndian(2, fe.objectCount)
            && w[24..40] == LittleEndian(8, fe.size) + LittleEndian(8, fe.mtime)
            && w[40..56] == fe.md5
            && w[56..68] == LittleEndian(4, fe.offset) + LittleEndian(4, fe.packLength)
                            + LittleEndian(4, fe.objectIdIndex)
  {
    hide LittleEndian, EncodeEntry;
    EntryParts(fe);
  }

  lemma EntryParts(fe: FileEntry)
    requires |fe.md5| == 16
    ensures var w := EncodeEntry(fe);
            && |w| == 68 && w[0..16] == EncodeIndices(fe) && w[16..24] == EncodeAttributes(fe)
            && w[24..40] == EncodeTimes(fe) && w[40..56] == fe.md5 && w[56..68] == EncodeObjects(fe)
  {
    hide EncodeIndices, EncodeAttributes, EncodeTimes, EncodeObjects;
    var a, b, c, d, w := EncodeIndices(fe), EncodeAttributes(fe), EncodeTimes(fe), EncodeObjects(fe), EncodeEntry(fe);
    Within(w, [], a, b + c + fe.md5 + d, 0, 16);
    Within(w, a, b, c + fe.md5 + d, 0, 8);
    Within(w, a + b, c, fe.md5 + d, 0, 16);
    Within(w, a + b + c, fe.md5, d, 0, 16);
    Within(w, a + b + c + fe.md5, d, [], 0, 12);
    assert a[0..16] == a && b[0..8] == b && c[0..16] == c && fe.md5[0..16] == fe.md5 && d[0..12] == d;
  }

  lemma Within(w: seq<byte>, front: seq<byte>, part: seq<byte>, rest: seq<byte>, i: nat, j: nat)
    requires w == front + part + rest && i <= j <= |part|
    ensures w[|front| + i..|front| + j] == part[i..j]
  {
  }

  // ----- saving -----

  function EncodedFiles(files: Entries<FileEntry>): (r: seq<seq<byte>>)
    ensures |r| == |files|
  {
    seq(|files|, k requires 0 <= k < |files| => EncodeEntry(files[k].1))
  }

  function Header(fileCount: nat, bufferSize: nat, idCount: nat): (s: seq<byte>)
    ensures |s| == 12
  {
    LittleEndian(4, fileCount) + LittleEndian(4, (bufferSize + 3) / 4) + LittleEndian(4, idCount)
  }

  /** Snapshot::save, for a string buffer whose size is a multiple of four. */
  function Saved(st: State): seq<byte> {
    Header(|st.files|, |st.buffer|, |st.objectIds|) + st.buffer + Flatten(st.objectIds)
    + Flatten(EncodedFiles(st.files))
  }

  // ----- loading -----

  function ChopIds(s: seq<byte>, n: nat): (ids: seq<ObjectId>)
    requires |s| == ID_LENGTH * n
    ensures |ids| == n
  {
    if n == 0 then [] else ChopIds(s[..ID_LENGTH * (n - 1)], n - 1) + [s[ID_LENGTH * (n - 1)..]]
  }

  /** The loop over entries: each is filed under its parent, a slash and its name; a later entry
      under the same key replaces an earlier one. */
  function LoadEntries(buffer: seq<byte>, files: Entries<FileEntry>, s: seq<byte>,
                       n: nat): Result<Entries<FileEntry>, Error>
    decreases n
  {
    if n == 0 then Ok(files)
    else if |s| < ENTRY_LENGTH then Err(ShortRead)
    else
      var fe := DecodeEntry(s[..ENTRY_LENGTH]);
      match (IndexToString(buffer, ToInt32(fe.pathIndex)), IndexToString(buffer, ToInt32(fe.nameIndex)))
      case (Ok(parent), Ok(name)) =>
        LoadEntries(buffer, Assign(files, Joined(parent, name), fe), s[ENTRY_LENGTH..], n - 1)
      case _ => Err(IndexOutOfBound)
  }

  /** Snapshot::load: the buffer and the ids are replaced, table and files are added to. */
  function Loaded(base: State, s: seq<byte>): Result<State, Error> {
    if |s| < 12 then Err(ShortRead)
    else LoadBody(base, FromLittleEndian(s[0..4]), FromLittleEndian(s[4..8]) * 4 % 0x1_0000_0000,
                  FromLittleEndian(s[8..12]), s[12..])
  }

  function LoadBody(base: State, numFiles: nat, tableSize: nat, numObjects: nat, s: seq<byte>): Result<State, Error> {
    if |s| < tableSize then Err(ShortRead)
    else
      var buffer, rest := s[..tableSize], s[tableSize..];
      if |rest| < ID_LENGTH * numObjects then Err(ShortRead)
      else
        match LoadEntries(buffer, base.files, rest[ID_LENGTH * numObjects..], numFiles)
        case Err(e) => Err(e)
        case Ok(files) =>
          var ids := ChopIds(rest[..ID_LENGTH * numObjects], numObjects);
          Ok(State(ParseTable(base.table, buffer, 0), buffer, ids, files))
  }

  // ----- what any bytes load as -----

  /** The bytes of entry k, if they are all there. */
  predicate Present(s: seq<byte>, k: nat) {
    68 * k + 68 <= |s|
  }

  function EntryBytes(s: seq<byte>, k: nat): (w: seq<byte>)
    requires Present(s, k)
    ensures |w| == 68
  {
    s[68 * k..68 * k + 68]
  }

  /** Both of its path's strings are in the buffer, at indices that are not taken for negative. */
  predicate Usable(buffer: seq<byte>, w: seq<byte>)
    requires |w| == 68
  {
    && FromLittleEndian(w[0..4]) < |buffer| && FromLittleEndian(w[0..4]) < 0x8000_0000
    && FromLittleEndian(w[4..8]) < |buffer| && FromLittleEndian(w[4..8]) < 0x8000_0000
  }

  ghost predicate AllUsable(buffer: seq<byte>, s: seq<byte>, n: nat) {
    forall k :: 0 <= k < n ==> Present(s, k) && Usable(buffer, EntryBytes(s, k))
  }

  /** The key an entry is filed under. */
  function KeyAt(buffer: seq<byte>, s: seq<byte>, k: nat): Str
    requires Present(s, k) && Usable(buffer, EntryBytes(s, k))
  {
    SpelledPath(buffer, DecodeEntry(EntryBytes(s, k)))
  }

  lemma UsableExactly(buffer: seq<byte>, w: seq<byte>)
    requires |w| == 68
    ensures var fe := DecodeEntry(w);
            Usable(buffer, w)
            <==> IndexToString(buffer, ToInt32(fe.pathIndex)).Ok? && IndexToString(buffer, ToInt32(fe.nameIndex)).Ok?
    ensures var fe := DecodeEntry(w);
            Usable(buffer, w) ==>
              && fe.pathIndex < |buffer| && fe.nameIndex < |buffer|
              && IndexToString(buffer, ToInt32(fe.pathIndex)) == Ok(CString(buffer[fe.pathIndex..]))
              && IndexToString(buffer, ToInt32(fe.nameIndex)) == Ok(CString(buffer[fe.nameIndex..]))
  {
    hide FromLittleEndian, CString, Pow;
    PowersOf256();
    FromLittleEndianBound(w[0..4]);
    FromLittleEndianBound(w[4..8]);
  }

  /** The loop, with the first entry taken off. */
  lemma LoadFirst(buffer: seq<byte>, files: Entries<FileEntry>, s: seq<byte>, n: nat)
    requires n > 0 && Present(s, 0)
    ensures Usable(buffer, EntryBytes(s, 0)) ==>
      LoadEntries(buffer, files, s, n)
      == LoadEntries(buffer, Assign(files, KeyAt(buffer, s, 0), DecodeEntry(EntryBytes(s, 0))), s[68..], n - 1)
    ensures !Usable(buffer, EntryBytes(s, 0)) ==> LoadEntries(buffer, files, s, n) == Err(IndexOutOfBound)
  {
    hide DecodeEntry, Assign, IndexToString, CString, Usable, ToInt32;
    assert EntryBytes(s, 0) == s[..68];
    UsableExactly(buffer, EntryBytes(s, 0));
  }

  lemma RestOfEntries(buffer: seq<byte>, s: seq<byte>)
    requires Present(s, 0)
    ensures forall k: nat :: Present(s[68..], k) <==> Present(s, k + 1)
    ensures forall k: nat :: Present(s[68..], k) ==> EntryBytes(s[68..], k) == EntryBytes(s, k + 1)
    ensures forall n: nat :: AllUsable(buffer, s, n + 1) ==> AllUsable(buffer, s[68..], n)
  {
    hide Usable;
  }

  /** Which error an entry that cannot be loaded gives: it is cut off, or its path is not in the
      buffer. Without such an entry the loop succeeds. */
  lemma {:induction false} LoadEntriesAnswers(buffer: seq<byte>, files: Entries<FileEntry>, s: seq<byte>, n: nat,
                                              k: nat)
    requires k <= n && AllUsable(buffer, s, k)
    ensures k == n ==> LoadEntries(buffer, files, s, n).Ok?
    ensures k < n && !Present(s, k) ==> LoadEntries(buffer, files, s, n) == Err(ShortRead)
    ensures k < n && Present(s, k) && !Usable(buffer, EntryBytes(s, k)) ==>
      LoadEntries(buffer, files, s, n) == Err(IndexOutOfBound)
    decreases n
  {
    hide Usable, LoadEntries, EntryBytes, DecodeEntry, Assign;
    if n == 0 || !Present(s, 0) {
      LoadNothing(buffer, files, s, n);
    } else {
      LoadFirst(buffer, files, s, n);
      if k > 0 {
        assert Usable(buffer, EntryBytes(s, 0));
        RestOfEntries(buffer, s);
        LoadEntriesAnswers(buffer, Assign(files, KeyAt(buffer, s, 0), DecodeEntry(EntryBytes(s, 0))), s[68..],
                           n - 1, k - 1);
      }
    }
  }

  lemma LoadNothing(buffer: seq<byte>, files: Entries<FileEntry>, s: seq<byte>, n: nat)
    requires n == 0 || !Present(s, 0)
    ensures LoadEntries(buffer, files, s, n) == if n == 0 then Ok(files) else Err(ShortRead)
  {
  }

  /** What is found after the loop: the last entry under a key, or else what was there before. */
  lemma {:induction false} LoadEntriesFinds(buffer: seq<byte>, files: Entries<FileEntry>, s: seq<byte>, n: nat,
                                            key: Str, j: int)
    requires Sorted(files) && AllUsable(buffer, s, n) && -1 <= j < n
    requires forall k :: j < k < n ==> KeyAt(buffer, s, k) != key
    requires j >= 0 ==> KeyAt(buffer, s, j) == key
    ensures LoadEntries(buffer, files, s, n).Ok? && Sorted(LoadEntries(buffer, files, s, n).value)
    ensures Find(LoadEntries(buffer, files, s, n).value, key)
         == if j >= 0 then Some(DecodeEntry(EntryBytes(s, j))) else Find(files, key)
    decreases n
  {
    hide Usable, LoadEntries, EntryBytes, DecodeEntry, Assign, Find, SpelledPath, Sorted;
    if n == 0 {
      LoadNothing(buffer, files, s, n);
    } else {
      LoadFirst(buffer, files, s, n);
      assert Present(s, 0) && Usable(buffer, EntryBytes(s, 0));
      var first, fe := KeyAt(buffer, s, 0), DecodeEntry(EntryBytes(s, 0));
      AssignSorted(files, first, fe);
      FindAssign(files, first, fe, key);
      RestOfEntries(buffer, s);
      forall k | 0 <= k < n - 1
        ensures KeyAt(buffer, s[68..], k) == KeyAt(buffer, s, k + 1)
      {
        assert AllUsable(buffer, s[68..], n - 1);
      }
      LoadEntriesFinds(buffer, Assign(files, first, fe), s[68..], n - 1, key, Max(j - 1, -1));
    }
  }

  lemma {:induction false} ChopIdsAt(s: seq<byte>, n: nat, k: nat)
    requires |s| == ID_LENGTH * n && k < n
    ensures 32 * k + 32 <= |s| && ChopIds(s, n)[k] == s[32 * k..32 * k + 32]
    decreases n
  {
    if k < n - 1 {
      ChopIdsAt(s[..ID_LENGTH * (n - 1)], n - 1, k);
      assert s[..ID_LENGTH * (n - 1)][32 * k..32 * k + 32] == s[32 * k..32 * k + 32];
    }
  }

  /** What any bytes load as: three counts, the string buffer, the ids and the entries in turn. */
  lemma LoadedAnswers(base: State, s: seq<byte>)
    ensures |s| < 12 ==> Loaded(base, s) == Err(ShortRead)
    ensures |s| >= 12 ==>
      var numFiles, size, numIds :=
        FromLittleEndian(s[0..4]), FromLittleEndian(s[4..8]) * 4 % 0x1_0000_0000, FromLittleEndian(s[8..12]);
      var ids, entries := 12 + size, 12 + size + 32 * numIds;
      && (|s| < entries ==> Loaded(base, s) == Err(ShortRead))
      && (|s| >= entries ==>
            match LoadEntries(s[12..ids], base.files, s[entries..], numFiles)
            case Err(e) => Loaded(base, s) == Err(e)
            case Ok(files) =>
              && Loaded(base, s).Ok? && Loaded(base, s).value.files == files
              && Loaded(base, s).value.buffer == s[12..ids]
              && Loaded(base, s).value.table == ParseTable(base.table, s[12..ids], 0)
              && |Loaded(base, s).value.objectIds| == numIds
              && forall k :: 0 <= k < numIds ==>
                   Loaded(base, s).value.objectIds[k] == s[ids + 32 * k..ids + 32 * k + 32])
  {
    hide FromLittleEndian, LoadEntries, ParseTable, ChopIds;
    if |s| >= 12 {
      var numFiles, size, numIds :=
        FromLittleEndian(s[0..4]), FromLittleEndian(s[4..8]) * 4 % 0x1_0000_0000, FromLittleEndian(s[8..12]);
      var ids, entries := 12 + size, 12 + size + 32 * numIds;
      var body := s[12..];
      if |s| >= entries {
        assert body[..size] == s[12..ids] && body[size..] == s[ids..];
        var rest := s[ids..];
        assert rest[32 * numIds..] == s[entries..];
        forall k | 0 <= k < numIds
          ensures ids + 32 * k + 32 <= |s|
          ensures ChopIds(rest[..32 * numIds], numIds)[k] == s[ids + 32 * k..ids + 32 * k + 32]
        {
          ChopIdsAt(rest[..32 * numIds], numIds, k);
          assert rest[..32 * numIds][32 * k..32 * k + 32] == s[ids + 32 * k..ids + 32 * k + 32];
        }
      }
    }
  }

  // ----- round trip -----

  /** Sizes and fields that the format can hold. */
  ghost predicate Fits(st: State) {
    && |st.files| < 0x1_0000_0000 && |st.buffer| < 0x8000_0000 && |st.objectIds| < 0x1_0000_0000
    && AllInRange(st.files)
  }

  lemma {:induction false} ChopFlattened(ids: seq<ObjectId>)
    ensures |Flatten(ids)| == ID_LENGTH * |ids| && ChopIds(Flatten(ids), |ids|) == ids
    decreases |ids|
  {
    if ids != [] {
      var front, last := ids[..|ids| - 1], ids[|ids| - 1];
      ChopFlattened(front);
      assert Flatten(ids) == Flatten(front) + last;
      assert (Flatten(front) + last)[..ID_LENGTH * |front|] == Flatten(front);
      assert (Flatten(front) + last)[ID_LENGTH * |front|..] == last;
      assert ids == front + [last];
    }
  }

  /** The files of a snapshot as loading files them again, starting from `base`. */
  function Refiled(base: Entries<FileEntry>, files: Entries<FileEntry>): Entries<FileEntry>
    decreases |files|
  {
    if files == [] then base
    else Refiled(Assign(base, LoadedKey(files[0].0), files[0].1), files[1..])
  }

  ghost predicate KeysJoin(buffer: seq<byte>, files: Entries<FileEntry>) {
    forall i :: 0 <= i < |files| ==>
      var fe := files[i].1;
      && fe.pathIndex < |buffer| && fe.nameIndex < |buffer|
      && SpelledPath(buffer, fe) == LoadedKey(files[i].0)
  }

  ghost predicate AllInRange(files: Entries<FileEntry>) {
    forall i :: 0 <= i < |files| ==> InRange(files[i].1)
  }

  lemma HeadAndTail(buffer: seq<byte>, files: Entries<FileEntry>)
    requires KeysJoin(buffer, files) && AllInRange(files) && files != []
    ensures KeysJoin(buffer, files[1..]) && AllInRange(files[1..])
    ensures var fe := files[0].1;
            && InRange(fe) && fe.pathIndex < |buffer| && fe.nameIndex < |buffer|
            && SpelledPath(buffer, fe) == LoadedKey(files[0].0)
  {
    hide InRange, LoadedKey, CString, Joined;
  }

  lemma {:induction false} LoadEncoded(buffer: seq<byte>, base: Entries<FileEntry>, files: Entries<FileEntry>)
    requires |buffer| < 0x8000_0000 && KeysJoin(buffer, files) && AllInRange(files)
    ensures LoadEntries(buffer, base, Flatten(EncodedFiles(files)), |files|) == Ok(Refiled(base, files))
    decreases |files|
  {
    hide *;
    if files == [] {
      NothingToLoad(buffer, base);
      return;
    }
    HeadAndTail(buffer, files);
    EncodedHead(files);
    LoadStep(buffer, base, files[0].0, files[0].1, Flatten(EncodedFiles(files[1..])), |files|);
    LoadEncoded(buffer, Assign(base, LoadedKey(files[0].0), files[0].1), files[1..]);
    RefiledHead(base, files);
  }

  lemma NothingToLoad(buffer: seq<byte>, base: Entries<FileEntry>)
    ensures LoadEntries(buffer, base, Flatten(EncodedFiles([])), 0) == Ok(base) && Refiled(base, []) == base
  {
  }

  lemma RefiledHead(base: Entries<FileEntry>, files: Entries<FileEntry>)
    requires files != []
    ensures Refiled(base, files) == Refiled(Assign(base, LoadedKey(files[0].0), files[0].1), files[1..])
  {
  }

  lemma LoadStep(buffer: seq<byte>, base: Entries<FileEntry>, key: Str, fe: FileEntry, rest: seq<byte>, n: nat)
    requires |buffer| < 0x8000_0000 && InRange(fe) && n > 0
    requires fe.pathIndex < |buffer| && fe.nameIndex < |buffer|
    requires SpelledPath(buffer, fe) == LoadedKey(key)
    ensures LoadEntries(buffer, base, EncodeEntry(fe) + rest, n)
         == LoadEntries(buffer, Assign(base, LoadedKey(key), fe), rest, n - 1)
  {
    hide EncodeEntry, DecodeEntry, InRange, Assign, LoadedKey, CString, Joined;
    EntryRoundTrip(fe);
    var s := EncodeEntry(fe) + rest;
    assert s[..ENTRY_LENGTH] == EncodeEntry(fe) && s[ENTRY_LENGTH..] == rest;
  }

  lemma EncodedHead(files: Entries<FileEntry>)
    requires files != []
    ensures Flatten(EncodedFiles(files)) == EncodeEntry(files[0].1) + Flatten(EncodedFiles(files[1..]))
  {
    hide EncodeEntry;
    var e := EncodeEntry(files[0].1);
    assert EncodedFiles(files) == [e] + EncodedFiles(files[1..]);
    FlattenAppend([e], EncodedFiles(files[1..]));
    FlattenSnoc([], e);
    assert [] + e == e && [] + [e] == [e];
  }

  lemma SavedHeader(st: State)
    requires Fits(st) && |st.buffer| % 4 == 0
    ensures var s := Saved(st);
            && |s| >= 12 && FromLittleEndian(s[0..4]) == |st.files|
            && FromLittleEndian(s[4..8]) * 4 % 0x1_0000_0000 == |st.buffer|
            && FromLittleEndian(s[8..12]) == |st.objectIds|
            && s[12..] == st.buffer + Flatten(st.objectIds) + Flatten(EncodedFiles(st.files))
  {
    hide Flatten, EncodedFiles, LittleEndian, FromLittleEndian;
    var h, s := Header(|st.files|, |st.buffer|, |st.objectIds|), Saved(st);
    var rest := st.buffer + Flatten(st.objectIds) + Flatten(EncodedFiles(st.files));
    assert s == h + rest;
    Number(4, |st.files|); Number(4, (|st.buffer| + 3) / 4); Number(4, |st.objectIds|);
    Within(s, [], h, rest, 0, 4); Within(s, [], h, rest, 4, 8); Within(s, [], h, rest, 8, 12);
    assert h[0..4] == LittleEndian(4, |st.files|) && h[4..8] == LittleEndian(4, (|st.buffer| + 3) / 4);
    assert h[8..12] == LittleEndian(4, |st.objectIds|);
  }

  /** Loading the bytes of a save into a fresh snapshot gives back the string buffer, the object
      ids and every entry, refiled; and the table finds the strings where they were. */
  lemma SaveLoadRoundTrip(st: State, strs: seq<Str>)
    requires Inv(st, strs) && Fits(st)
    ensures Loaded(Empty(), Saved(st))
         == Ok(State(ParseTable(map[], st.buffer, 0), st.buffer, st.objectIds, Refiled([], st.files)))
  {
    hide Fits, EncodedFiles, Header, EntryOk, Flatten, ParseTable, LoadEntries, Refiled;
    LayoutAligned(strs);
    SavedHeader(st);
    var ids, files := Flatten(st.objectIds), Flatten(EncodedFiles(st.files));
    var body := st.buffer + ids + files;
    assert body[..|st.buffer|] == st.buffer && body[|st.buffer|..] == ids + files;
    ChopFlattened(st.objectIds);
    assert (ids + files)[..|ids|] == ids && (ids + files)[|ids|..] == files;
    FilesLoad(st, strs);
  }

  lemma FilesLoad(st: State, strs: seq<Str>)
    requires Inv(st, strs) && Fits(st)
    ensures LoadEntries(st.buffer, [], Flatten(EncodedFiles(st.files)), |st.files|) == Ok(Refiled([], st.files))
  {
    LoadEncoded(st.buffer, [], st.files);
  }
}
