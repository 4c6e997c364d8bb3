/** What holds of snapshots over whole runs, across save and load, and of subpath listings. */
module SnapshotProperties {
  import opened Bytes
  import opened OrderedMap
  import opened StringTable
  import opened Paths
  import opened SnapshotModel
  import opened SnapshotFormat

  // ----- refiling -----

  lemma {:induction false} RefiledSorted(base: Entries<FileEntry>, files: Entries<FileEntry>)
    requires Sorted(base)
    ensures Sorted(Refiled(base, files))
    decreases |files|
  {
    if files != [] {
      AssignSorted(base, LoadedKey(files[0].0), files[0].1);
      RefiledSorted(Assign(base, LoadedKey(files[0].0), files[0].1), files[1..]);
    }
  }

  /** The last entry, in key order, that loading files under a given key. */
  function LastUnder(files: Entries<FileEntry>, key: Str): Option<FileEntry> {
    if files == [] then None
    else if LoadedKey(files[|files| - 1].0) == key then Some(files[|files| - 1].1)
    else LastUnder(files[..|files| - 1], key)
  }

  lemma {:induction false} RefiledAppend(base: Entries<FileEntry>, a: Entries<FileEntry>, b: Entries<FileEntry>)
    ensures Refiled(base, a + b) == Refiled(Refiled(base, a), b)
    decreases |a|
  {
    if a == [] {
      assert a + b == b;
    } else {
      assert (a + b)[1..] == a[1..] + b;
      RefiledAppend(Assign(base, LoadedKey(a[0].0), a[0].1), a[1..], b);
    }
  }

  /** Which entry is found under a key after a load. */
  lemma {:induction false} RefiledFinds(files: Entries<FileEntry>, key: Str)
    ensures Find(Refiled([], files), key) == LastUnder(files, key)
    decreases |files|
  {
    if files != [] {
      hide LoadedKey, Find, Assign;
      var front, last := files[..|files| - 1], files[|files| - 1];
      RefiledFinds(front, key);
      assert files == front + [last];
      var one: Entries<FileEntry> := [last];
      RefiledAppend([], front, one);
      RefiledSorted([], front);
      assert one[1..] == [];
      assert Refiled(Refiled([], front), one) == Assign(Refiled([], front), LoadedKey(last.0), last.1);
      FindAssign(Refiled([], front), LoadedKey(last.0), last.1, key);
    }
  }

  /** No path without a slash sits beside the same path behind a slash. */
  ghost predicate NoMerge(files: Entries<FileEntry>) {
    forall i, j :: 0 <= i < j < |files| ==> LoadedKey(files[i].0) != LoadedKey(files[j].0)
  }

  /** Two different paths share a loaded key exactly when one is the other behind a slash. */
  lemma KeysShared(p: Str, q: Str)
    ensures p != q && LoadedKey(p) == LoadedKey(q)
       <==> (SLASH !in p && q == [SLASH] + p) || (SLASH !in q && p == [SLASH] + q)
  {
    if SLASH !in p && SLASH !in q && LoadedKey(p) == LoadedKey(q) {
      assert p == LoadedKey(p)[1..] == q;
    }
    assert SLASH in [SLASH] + p && SLASH in [SLASH] + q;
    if q == [SLASH] + p { assert |q| != |p|; }
    if p == [SLASH] + q { assert |q| != |p|; }
  }

  /** A load files two entries of a sound snapshot under one key exactly when the path of one is
      the other's behind a slash. */
  lemma MergeExactly(st: State, strs: seq<Str>, i: nat, j: nat)
    requires Inv(st, strs) && i < j < |st.files|
    ensures EntryOk(strs, |st.objectIds|, st.files[i].0, st.files[i].1)
    ensures EntryOk(strs, |st.objectIds|, st.files[j].0, st.files[j].1)
    ensures var p, q := st.files[i].0, st.files[j].0;
            SpelledPath(st.buffer, st.files[i].1) == SpelledPath(st.buffer, st.files[j].1)
            <==> (47 !in p && q == [47] + p) || (47 !in q && p == [47] + q)
  {
    hide Interned, Layout, Denotes, LoadedKey, Less, SpelledPath;
    KeysShared(st.files[i].0, st.files[j].0);
    LessIrreflexive(st.files[i].0);
  }

  /** Canonical relative paths never merge. */
  lemma RelativePathsDoNotMerge(files: Entries<FileEntry>)
    requires Sorted(files) && forall i :: 0 <= i < |files| ==> files[i].0 == [] || files[i].0[0] != SLASH
    ensures NoMerge(files)
  {
    forall i, j | 0 <= i < j < |files|
      ensures LoadedKey(files[i].0) != LoadedKey(files[j].0)
    {
      LessIrreflexive(files[i].0);
      KeysShared(files[i].0, files[j].0);
    }
  }

  ghost function Elements(s: seq<Str>): set<Str> {
    set x | x in s
  }

  ghost predicate Distinct(s: seq<Str>) {
    forall i, j :: 0 <= i < j < |s| ==> s[i] != s[j]
  }

  lemma ElementsSnoc(s: seq<Str>, x: Str)
    ensures Elements(s + [x]) == Elements(s) + {x}
    ensures Distinct(s + [x]) <==> Distinct(s) && x !in Elements(s)
  {
    var t := s + [x];
    assert forall i :: 0 <= i < |s| ==> t[i] == s[i];
    assert t[|s|] == x;
  }

  lemma {:induction false} DistinctCount(s: seq<Str>)
    ensures |Elements(s)| <= |s|
    ensures |Elements(s)| == |s| <==> Distinct(s)
    decreases |s|
  {
    hide Distinct, Elements;
    if s == [] {
      NoElements();
    } else {
      var front, last := s[..|s| - 1], s[|s| - 1];
      DistinctCount(front);
      ElementsSnoc(front, last);
      assert s == front + [last];
      if last in Elements(front) {
        assert Elements(s) == Elements(front);
      }
    }
  }

  lemma NoElements()
    ensures Elements([]) == {} && Distinct([])
  {
  }

  function KeysOf(files: Entries<FileEntry>): seq<Str> {
    seq(|files|, k requires 0 <= k < |files| => files[k].0)
  }

  function LoadedKeys(files: Entries<FileEntry>): seq<Str> {
    seq(|files|, k requires 0 <= k < |files| => LoadedKey(files[k].0))
  }

  lemma KeysDistinct(files: Entries<FileEntry>)
    requires Sorted(files)
    ensures Distinct(KeysOf(files))
  {
    forall i, j | 0 <= i < j < |files|
      ensures KeysOf(files)[i] != KeysOf(files)[j]
    {
      LessIrreflexive(files[i].0);
    }
  }

  lemma {:induction false} LastUnderSome(files: Entries<FileEntry>, key: Str)
    ensures LastUnder(files, key).Some? <==> key in LoadedKeys(files)
    decreases |files|
  {
    hide LoadedKey;
    if files != [] {
      var front := files[..|files| - 1];
      LastUnderSome(front, key);
      assert LoadedKeys(files) == LoadedKeys(front) + [LoadedKey(files[|files| - 1].0)];
    }
  }

  lemma RefiledKeys(files: Entries<FileEntry>)
    ensures Sorted(Refiled([], files)) && Elements(KeysOf(Refiled([], files))) == Elements(LoadedKeys(files))
  {
    hide LoadedKey, Refiled, LastUnder, Find;
    var r := Refiled([], files);
    RefiledSorted([], files);
    forall k: Str
      ensures k in KeysOf(r) <==> k in LoadedKeys(files)
    {
      RefiledFinds(files, k);
      LastUnderSome(files, k);
      FindExactly(r, k);
      assert k in KeysOf(r) <==> exists i :: 0 <= i < |r| && r[i].0 == k by {
        assert forall i :: 0 <= i < |r| ==> KeysOf(r)[i] == r[i].0;
      }
    }
  }

  /** No file is lost in a save and load exactly when no two paths share a loaded key. */
  lemma NoFileLostExactly(files: Entries<FileEntry>)
    ensures |Refiled([], files)| <= |files|
    ensures |Refiled([], files)| == |files| <==> NoMerge(files)
  {
    hide LoadedKey, Refiled;
    var r := Refiled([], files);
    RefiledKeys(files);
    KeysDistinct(r);
    DistinctCount(KeysOf(r));
    DistinctCount(LoadedKeys(files));
    assert NoMerge(files) <==> Distinct(LoadedKeys(files)) by {
      assert forall i :: 0 <= i < |files| ==> LoadedKeys(files)[i] == LoadedKey(files[i].0);
    }
  }

  lemma {:induction false} LastUnderFinds(files: Entries<FileEntry>, i: nat)
    requires NoMerge(files) && i < |files|
    ensures LastUnder(files, LoadedKey(files[i].0)) == Some(files[i].1)
    decreases |files|
  {
    if i < |files| - 1 {
      LastUnderFinds(files[..|files| - 1], i);
    }
  }

  /** Without merging, every entry is found again, unchanged, under its loaded key. */
  lemma EveryFileFoundAgain(files: Entries<FileEntry>, i: nat)
    requires NoMerge(files) && i < |files|
    ensures Find(Refiled([], files), LoadedKey(files[i].0)) == Some(files[i].1)
  {
    LastUnderFinds(files, i);
    RefiledFinds(files, LoadedKey(files[i].0));
  }

  // ----- runs -----

  lemma {:induction false} LastUnderIsEntry(files: Entries<FileEntry>, key: Str)
    requires LastUnder(files, key).Some?
    ensures exists i :: 0 <= i < |files| && LoadedKey(files[i].0) == key && files[i].1 == LastUnder(files, key).value
    decreases |files|
  {
    hide LoadedKey;
    var last := files[|files| - 1];
    if LoadedKey(last.0) != key {
      var front := files[..|files| - 1];
      LastUnderIsEntry(front, key);
      var i :| 0 <= i < |front| && LoadedKey(front[i].0) == key && front[i].1 == LastUnder(front, key).value;
      assert files[i] == front[i];
    }
  }

  lemma LoadedKeyTwice(k: Str)
    ensures LoadedKey(LoadedKey(k)) == LoadedKey(k)
  {
    assert ([SLASH] + k)[0] == SLASH;
  }

  /** A snapshot loaded from a save satisfies the invariant for the same list of strings, and
      files every entry under the path its strings spell. */
  lemma LoadKeepsInv(st: State, strs: seq<Str>)
    requires Inv(st, strs) && Fits(st)
    ensures Loaded(Empty(), Saved(st)).Ok?
    ensures var st' := Loaded(Empty(), Saved(st)).value;
            && Inv(st', strs) && st'.buffer == st.buffer && st'.objectIds == st.objectIds
            && st'.files == Refiled([], st.files)
            && forall i :: 0 <= i < |st'.files| ==> LoadedKey(st'.files[i].0) == st'.files[i].0
  {
    hide Interned, Layout, EntryOk, ParseTable, LoadedKey, Loaded, Saved, Fits;
    SaveLoadRoundTrip(st, strs);
    ParseRebuilds(st.table, strs);
    var r := Refiled([], st.files);
    RefiledSorted([], st.files);
    forall i | 0 <= i < |r|
      ensures EntryOk(strs, |st.objectIds|, r[i].0, r[i].1) && LoadedKey(r[i].0) == r[i].0
    {
      FindExactly(r, r[i].0);
      assert (r[i].0, r[i].1) in r;
      RefiledFinds(st.files, r[i].0);
      LastUnderIsEntry(st.files, r[i].0);
      var j :| 0 <= j < |st.files| && LoadedKey(st.files[j].0) == r[i].0 && st.files[j].1 == r[i].1;
      LoadedKeyTwice(st.files[j].0);
      SameEntryOk(strs, |st.objectIds|, st.files[j].0, r[i].0, r[i].1);
    }
  }

  lemma SameEntryOk(strs: seq<Str>, n: nat, k: Str, k': Str, fe: FileEntry)
    requires EntryOk(strs, n, k, fe) && LoadedKey(k) == LoadedKey(k')
    ensures EntryOk(strs, n, k', fe)
  {
  }

  datatype Op = Add(path: Str, meta: Meta, ids: seq<ObjectId>) | Delete(path: Str) | SaveAndLoad

  /** Arguments are C strings, paths rejoin, and what is saved fits the format. */
  ghost predicate Legal(st: State, op: Op) {
    match op
    case Add(path, meta, _) => Rejoins(path) && NoNul(path) && NoNul(meta.user) && NoNul(meta.group)
    case Delete(_) => true
    case SaveAndLoad => Fits(st)
  }

  /** One operation; a rejected one changes nothing. */
  function Apply(st: State, op: Op): State {
    match op
    case Add(path, meta, ids) =>
      (match AddFileEntry(st, path, meta, ids) case Ok(st') => st' case Err(_) => st)
    case Delete(path) => DeleteFileEntry(st, path)
    case SaveAndLoad =>
      (match Loaded(Empty(), Saved(st)) case Ok(st') => st' case Err(_) => st)
  }

  function Run(st: State, ops: seq<Op>): State
    decreases |ops|
  {
    if ops == [] then st else Run(Apply(st, ops[0]), ops[1..])
  }

  ghost predicate LegalRun(st: State, ops: seq<Op>)
    decreases |ops|
  {
    ops == [] || (Legal(st, ops[0]) && LegalRun(Apply(st, ops[0]), ops[1..]))
  }

  lemma ApplyKeepsInv(st: State, strs: seq<Str>, op: Op) returns (strs': seq<Str>)
    requires Inv(st, strs) && Legal(st, op)
    ensures strs <= strs' && Inv(Apply(st, op), strs') && st.objectIds <= Apply(st, op).objectIds
  {
    hide Inv, Fits, Loaded, Saved, StrsAfterAdd, InsertString;
    strs' := strs;
    match op {
      case Add(path, meta, ids) =>
        if |ids| <= MAX_OBJECTS {
          AddKeepsInv(st, strs, path, meta, ids);
          strs' := StrsAfterAdd(st, strs, path, meta);
        }
      case Delete(path) =>
        DeleteKeepsInv(st, strs, path);
      case SaveAndLoad =>
        LoadKeepsInv(st, strs);
    }
  }

  /** The invariant holds throughout every run, and neither strings nor object ids ever move. */
  lemma {:induction false} RunKeepsInv(st: State, strs: seq<Str>, ops: seq<Op>) returns (strs': seq<Str>)
    requires Inv(st, strs) && LegalRun(st, ops)
    ensures strs <= strs' && Inv(Run(st, ops), strs') && st.objectIds <= Run(st, ops).objectIds
    decreases |ops|
  {
    hide Inv, Legal, Apply;
    if ops == [] {
      strs' := strs;
    } else {
      var mid := ApplyKeepsInv(st, strs, ops[0]);
      strs' := RunKeepsInv(Apply(st, ops[0]), mid, ops[1..]);
    }
  }

  /** Every snapshot that adds, deletes, saves and loads can make of an empty one is sound, and
      can be saved without reading past its buffer. */
  lemma EveryReachableSnapshot(ops: seq<Op>) returns (strs: seq<Str>)
    requires LegalRun(Empty(), ops)
    ensures Inv(Run(Empty(), ops), strs) && |Run(Empty(), ops).buffer| % 4 == 0
  {
    InvEmpty();
    strs := RunKeepsInv(Empty(), [], ops);
    LayoutAligned(strs);
  }

  // ----- what fits the format -----

  /** Attributes that fit the widths they are saved with. */
  predicate MetaFits(meta: Meta) {
    && meta.mode < 0x1_0000 && meta.size < 0x1_0000_0000_0000_0000
    && -0x8000_0000_0000_0000 <= meta.mtime < 0x8000_0000_0000_0000 && |meta.md5| == MD5_LENGTH
    && meta.offset < 0x1_0000_0000 && meta.packLength < 0x1_0000_0000
  }

  lemma InsertGrows(table: map<Str, nat>, buffer: seq<byte>, s: Str)
    ensures |InsertString(table, buffer, s).1| <= |buffer| + |s| + 4
  {
  }

  lemma AddGrows(st: State, path: Str, meta: Meta, ids: seq<ObjectId>)
    requires |ids| <= MAX_OBJECTS
    ensures |AddFileEntry(st, path, meta, ids).value.buffer|
         <= |st.buffer| + 2 * |path| + |meta.user| + |meta.group| + 16
  {
    hide InsertString, FileName, ParentPath;
    PartsShort(path);
    var (t1, b1, name) := InsertString(st.table, st.buffer, FileName(path));
    InsertGrows(st.table, st.buffer, FileName(path));
    var (t2, b2, parent) := InsertString(t1, b1, ParentPath(path));
    InsertGrows(t1, b1, ParentPath(path));
    var (t3, b3, user) := InsertString(t2, b2, meta.user);
    InsertGrows(t2, b2, meta.user);
    InsertGrows(t3, b3, meta.group);
  }

  /** What fits the format still does after an add that leaves room: a test before the call. */
  lemma AddFits(st: State, strs: seq<Str>, path: Str, meta: Meta, ids: seq<ObjectId>)
    requires Inv(st, strs) && Fits(st) && MetaFits(meta) && |ids| <= MAX_OBJECTS
    requires NoNul(path) && NoNul(meta.user) && NoNul(meta.group)
    requires |st.files| + 1 < 0x1_0000_0000 && |st.objectIds| + |ids| < 0x1_0000_0000
    requires |st.buffer| + 2 * |path| + |meta.user| + |meta.group| + 16 < 0x8000_0000
    ensures Fits(AddFileEntry(st, path, meta, ids).value)
  {
    hide InsertString, FileName, ParentPath, Interned, Layout, EntryOk, NoNul, CString;
    AddGrows(st, path, meta, ids);
    NewEntrySpells(st, strs, path, meta, ids);
    var st', fe := AddFileEntry(st, path, meta, ids).value, EntryOf(st, path, meta, |ids|);
    assert InRange(fe);
    assert forall i :: 0 <= i < |st'.files| ==> st'.files[i] in st.files || st'.files[i] == (path, fe);
  }

  lemma LoadFits(st: State, strs: seq<Str>)
    requires Inv(st, strs) && Fits(st)
    ensures Loaded(Empty(), Saved(st)).Ok? && Fits(Loaded(Empty(), Saved(st)).value)
  {
    hide Inv, Loaded, Saved, LoadedKey, InRange, Refiled, Find, LastUnder;
    LoadKeepsInv(st, strs);
    var r := Refiled([], st.files);
    NoFileLostExactly(st.files);
    RefiledSorted([], st.files);
    forall i | 0 <= i < |r|
      ensures InRange(r[i].1)
    {
      FindExactly(r, r[i].0);
      assert (r[i].0, r[i].1) in r;
      RefiledFinds(st.files, r[i].0);
      LastUnderIsEntry(st.files, r[i].0);
    }
  }

  // ----- a file lost in a save and load -----

  const PLAIN_META := Meta([], [], 0, 0, 0, 0, 0, 0, ZeroBytes(MD5_LENGTH), 0, 0)

  /** A file added under a bare name, saved, loaded, and added again. */
  function AddedTwice(): seq<Op> {
    [Add([102], PLAIN_META, []), SaveAndLoad, Add([102], PLAIN_META, [])]
  }

  lemma AddPlain(st: State, strs: seq<Str>, path: Str)
    requires Inv(st, strs) && Fits(st) && |st.files| <= 1 && |st.buffer| < 1000 && |path| < 10
    requires Rejoins(path) && NoNul(path)
    ensures var op := Add(path, PLAIN_META, []);
            && Legal(st, op) && Fits(Apply(st, op)) && |Apply(st, op).buffer| < |st.buffer| + 40
            && Inv(Apply(st, op), StrsAfterAdd(st, strs, path, PLAIN_META))
            && Apply(st, op).files == Insert(st.files, path, EntryOf(st, path, PLAIN_META, 0))
  {
    hide Inv, Fits, InsertString, StrsAfterAdd, Insert;
    FitsIds(st);
    AddGrows(st, path, PLAIN_META, []);
    AddFits(st, strs, path, PLAIN_META, []);
    AddKeepsInv(st, strs, path, PLAIN_META, []);
  }

  lemma FitsIds(st: State)
    requires Fits(st)
    ensures |st.objectIds| < 0x1_0000_0000
  {
  }

  lemma BareNameStates(fe: FileEntry, again: FileEntry)
    ensures Insert([], [102], fe) == [([102], fe)]
    ensures Refiled([], [([102], fe)]) == [([SLASH, 102], fe)]
    ensures Insert([([SLASH, 102], fe)], [102], again) == [([SLASH, 102], fe), ([102], again)]
    ensures Refiled([], [([SLASH, 102], fe), ([102], again)]) == [([SLASH, 102], again)]
  {
    var none: Entries<FileEntry> := [];
    var one, two := [([SLASH, 102], fe)], [([SLASH, 102], fe), ([102], again)];
    assert LoadedKey([102]) == [SLASH, 102] && LoadedKey([SLASH, 102]) == [SLASH, 102];
    assert Less([SLASH, 102], [102]) && !Less([SLASH, 102], [SLASH, 102]);
    assert LowerBound(one, [102]) == 1 by { assert one[1..] == none; }
    assert Assign([], [SLASH, 102], fe) == one;
    assert [([102], fe)][1..] == none && two[1..] == [([102], again)] && [([102], again)][1..] == none;
    assert Assign(one, [SLASH, 102], again) == [([SLASH, 102], again)];
    assert Refiled(one, [([102], again)]) == Refiled([([SLASH, 102], again)], none);
    assert Refiled(none, two) == Refiled(one, two[1..]);
  }

  /** A run that loses an entry: the bare name and the same name behind a slash are two entries
      before the second save, and one after it is loaded. */
  lemma MergeLosesEntry()
    ensures LegalRun(Empty(), AddedTwice() + [SaveAndLoad])
    ensures Run(Empty(), AddedTwice()).files != [] && |Run(Empty(), AddedTwice()).files| == 2
    ensures |Run(Empty(), AddedTwice() + [SaveAndLoad]).files| == 1
  {
    hide Inv, Fits, Legal, Apply, Insert, Refiled, EntryOf, StrsAfterAdd;
    var add := Add([102], PLAIN_META, []);
    InvEmpty();
    EmptyFits();
    var s1 := Apply(Empty(), add);
    AddPlain(Empty(), [], [102]);
    var fe := EntryOf(Empty(), [102], PLAIN_META, 0);
    BareNameStates(fe, fe);
    var strs1 := StrsAfterAdd(Empty(), [], [102], PLAIN_META);
    var s2 := Apply(s1, SaveAndLoad);
    SavePlain(s1, strs1);
    var s3 := Apply(s2, add);
    AddPlain(s2, strs1, [102]);
    BareNameStates(fe, EntryOf(s2, [102], PLAIN_META, 0));
    var strs3 := StrsAfterAdd(s2, strs1, [102], PLAIN_META);
    var s4 := Apply(s3, SaveAndLoad);
    SavePlain(s3, strs3);
    FourSteps(Empty(), add, SaveAndLoad, add, SaveAndLoad);
  }

  lemma EmptyFits()
    ensures Fits(Empty()) && Empty().files == [] && Empty().buffer == []
  {
  }

  lemma SavePlain(st: State, strs: seq<Str>)
    requires Inv(st, strs) && Fits(st)
    ensures Legal(st, SaveAndLoad) && Fits(Apply(st, SaveAndLoad)) && Inv(Apply(st, SaveAndLoad), strs)
    ensures Apply(st, SaveAndLoad).files == Refiled([], st.files) && Apply(st, SaveAndLoad).buffer == st.buffer
  {
    hide Inv, Fits, Loaded, Saved, Refiled;
    LoadKeepsInv(st, strs);
    LoadFits(st, strs);
  }

  lemma FourSteps(st: State, a: Op, b: Op, c: Op, d: Op)
    requires Legal(st, a) && Legal(Apply(st, a), b) && Legal(Apply(Apply(st, a), b), c)
    requires Legal(Apply(Apply(Apply(st, a), b), c), d)
    ensures LegalRun(st, [a, b, c]) && Run(st, [a, b, c]) == Apply(Apply(Apply(st, a), b), c)
    ensures LegalRun(st, [a, b, c] + [d]) && Run(st, [a, b, c] + [d]) == Apply(Apply(Apply(Apply(st, a), b), c), d)
  {
    hide Legal, Apply;
    var s1, s2 := Apply(st, a), Apply(Apply(st, a), b);
    var s3 := Apply(s2, c);
    var none: seq<Op> := [];
    assert [a, b, c][1..] == [b, c] && [b, c][1..] == [c] && [c][1..] == none;
    assert [a, b, c] + [d] == [a, b, c, d];
    assert [a, b, c, d][1..] == [b, c, d] && [b, c, d][1..] == [c, d] && [c, d][1..] == [d] && [d][1..] == none;
    assert Run(s3, []) == s3 && Run(s2, [c]) == s3 && Run(s1, [b, c]) == s3;
    assert LegalRun(s3, []) && LegalRun(s2, [c]) && LegalRun(s1, [b, c]);
    assert LegalRun(Apply(s3, d), []) && LegalRun(s3, [d]) && LegalRun(s2, [c, d]) && LegalRun(s1, [b, c, d]);
    assert Run(s3, [d]) == Apply(s3, d) && Run(s2, [c, d]) == Apply(s3, d) && Run(s1, [b, c, d]) == Apply(s3, d);
  }

  /** Whatever is done later, an entry's strings and object ids stay what they were. */
  lemma EntryStaysTheSame(st: State, strs: seq<Str>, ops: seq<Op>, i: nat)
    requires Inv(st, strs) && LegalRun(st, ops) && i < |st.files|
    ensures var st', fe := Run(st, ops), st.files[i].1;
            && SameString(st.buffer, st'.buffer, fe.nameIndex) && SameString(st.buffer, st'.buffer, fe.pathIndex)
            && SameString(st.buffer, st'.buffer, fe.userIndex) && SameString(st.buffer, st'.buffer, fe.groupIndex)
            && fe.objectIdIndex + fe.objectCount <= |st.objectIds| <= |st'.objectIds|
            && EntryIds(st', fe) == EntryIds(st, fe)
            && |st'.buffer| % 4 == 0
  {
    hide Layout, Denotes, Joined, CString, Run, LegalRun, Interned, LoadedKey;
    var strs' := RunKeepsInv(st, strs, ops);
    var st', fe := Run(st, ops), st.files[i].1;
    var more := strs'[|strs|..];
    assert strs' == strs + more;
    assert EntryOk(strs, |st.objectIds|, st.files[i].0, fe);
    InternedNoNul(st'.table, strs');
    DenotesStable(strs, more, fe.nameIndex);
    DenotesStable(strs, more, fe.pathIndex);
    DenotesStable(strs, more, fe.userIndex);
    DenotesStable(strs, more, fe.groupIndex);
    LayoutAligned(strs');
    SameSlice(st.objectIds, st'.objectIds, fe.objectIdIndex, fe.objectIdIndex + fe.objectCount);
  }

  /** The index denotes the same string in both buffers. */
  predicate SameString(before: seq<byte>, after: seq<byte>, idx: nat) {
    idx < |before| && idx < |after| && CString(after[idx..]) == CString(before[idx..])
  }

  lemma SameSlice<T>(s: seq<T>, t: seq<T>, a: nat, b: nat)
    requires s <= t && a <= b <= |s|
    ensures s[a..b] == t[a..b]
  {
    assert t == s + t[|s|..];
  }

  // ----- listing a subpath -----

  function StripSlashes(p: Str): (r: Str)
    ensures r <= p && (r == [] || r[|r| - 1] != 47) && forall k :: |r| <= k < |p| ==> p[k] == 47
  {
    if p != [] && p[|p| - 1] == SLASH then StripSlashes(p[..|p| - 1]) else p
  }

  /** The loop's test on one path: a prefix that ends at the end or at a slash. */
  predicate Continues(search: Str, path: Str) {
    search <= path && (search == [] || |path| == |search| || path[|search|] == SLASH)
  }

  /** The entries visited, as the index where the loop stops. */
  function StopAt(files: Entries<FileEntry>, search: Str, i: nat): (j: nat)
    requires i <= |files|
    ensures i <= j <= |files|
    ensures forall k :: i <= k < j ==> Continues(search, files[k].0)
    ensures j < |files| ==> !Continues(search, files[j].0)
    decreases |files| - i
  {
    if i < |files| && Continues(search, files[i].0) then StopAt(files, search, i + 1) else i
  }

  /** The path itself, or a path under it. */
  predicate Beneath(search: Str, path: Str) {
    search == [] || path == search || search + [47] <= path
  }

  lemma ContinuesIsBeneath(search: Str, path: Str)
    ensures Continues(search, path) <==> Beneath(search, path)
  {
    if search + [SLASH] <= path {
      assert path[..|search|] == (search + [SLASH])[..|search|] == search;
      assert path[|search|] == (search + [SLASH])[|search|];
    }
    if Continues(search, path) && |path| > |search| && search != [] {
      assert path[..|search| + 1] == search + [SLASH];
    }
    if Continues(search, path) && |path| == |search| {
      assert path[..|search|] == path;
    }
  }

  /** Where a path at or above `search` stands in the order: the path itself, continuations by a
      byte below the slash, paths beneath it, and everything else. */
  function Rank(search: Str, path: Str): nat {
    if !(search <= path) then 3
    else if |path| == |search| then 0
    else if path[|search|] < SLASH then 1
    else if path[|search|] == SLASH then 2
    else 3
  }

  lemma RankTail(search: Str, path: Str)
    requires search != [] && path != [] && search[0] == path[0]
    ensures Rank(search, path) == Rank(search[1..], path[1..])
  {
    assert search <= path <==> search[1..] <= path[1..] by {
      if search[1..] <= path[1..] {
        assert forall k :: 1 <= k < |search| ==> search[k] == search[1..][k - 1] == path[1..][k - 1] == path[k];
      }
      if search <= path {
        assert forall k :: 0 <= k < |search| - 1 ==> search[1..][k] == search[k + 1] == path[k + 1] == path[1..][k];
      }
    }
  }

  /** The map's order visits the ranks in turn. */
  lemma {:induction false} RankMonotone(search: Str, a: Str, b: Str)
    requires Less(a, b) && !Less(a, search)
    ensures Rank(search, a) <= Rank(search, b)
    ensures Rank(search, b) != 0
    decreases |search|
  {
    if search != [] {
      if a[0] == search[0] && b[0] == search[0] {
        RankTail(search, a);
        RankTail(search, b);
        RankMonotone(search[1..], a[1..], b[1..]);
      } else {
        assert !(search <= b);
      }
    } else if a == [] {
      assert search <= b;
    }
  }

  /** Whether some stored path continues the search by a byte below the slash. */
  ghost predicate Intruded(files: Entries<FileEntry>, search: Str) {
    exists i :: 0 <= i < |files| && Rank(search, files[i].0) == 1
  }

  ghost predicate HasDescendant(files: Entries<FileEntry>, search: Str) {
    exists i :: 0 <= i < |files| && search + [47] <= files[i].0
  }

  lemma RankOfDescendant(search: Str, path: Str)
    ensures search + [SLASH] <= path <==> Rank(search, path) == 2
  {
    var t := search + [SLASH];
    if t <= path {
      assert path[..|search|] == t[..|search|] == search;
      assert path[|search|] == t[|search|];
    }
    if Rank(search, path) == 2 {
      assert path[..|search| + 1] == t;
    }
  }

  lemma {:induction false} PrefixNotAbove(search: Str, path: Str)
    requires search <= path
    ensures !Less(path, search)
    decreases |search|
  {
    if search != [] {
      assert path[0] == search[0] && search[1..] <= path[1..];
      PrefixNotAbove(search[1..], path[1..]);
    }
  }

  /** A listing visits only the subpath itself or entries beneath it; and it visits all of them
      exactly when no stored path continues the subpath with a byte below the slash, or nothing
      lies beneath the subpath anyway. */
  lemma ListingComplete(files: Entries<FileEntry>, search: Str)
    requires Sorted(files)
    ensures var i := LowerBound(files, search);
            var j := StopAt(files, search, i);
            && (forall k :: i <= k < j ==> Beneath(search, files[k].0))
            && ((forall k :: 0 <= k < |files| && Beneath(search, files[k].0) ==> i <= k < j)
                <==> search == [] || !Intruded(files, search) || !HasDescendant(files, search))
  {
    var i := LowerBound(files, search);
    var j := StopAt(files, search, i);
    forall k | 0 <= k < |files|
      ensures Continues(search, files[k].0) <==> Beneath(search, files[k].0)
      ensures Beneath(search, files[k].0) ==> i <= k
      ensures search != [] ==> (Beneath(search, files[k].0) <==> Rank(search, files[k].0) in {0, 2})
      ensures search + [SLASH] <= files[k].0 <==> Rank(search, files[k].0) == 2
    {
      ContinuesIsBeneath(search, files[k].0);
      RankOfDescendant(search, files[k].0);
      if Beneath(search, files[k].0) {
        PrefixNotAbove(search, files[k].0);
      }
    }
    if search == [] {
      assert j == |files|;
    } else {
      ListingStops(files, search, i, j);
    }
  }

  lemma ListingStops(files: Entries<FileEntry>, search: Str, i: nat, j: nat)
    requires Sorted(files) && search != [] && i == LowerBound(files, search) && j == StopAt(files, search, i)
    requires forall k :: 0 <= k < |files| ==> (Continues(search, files[k].0) <==> Rank(search, files[k].0) in {0, 2})
    ensures (forall k :: 0 <= k < |files| && Rank(search, files[k].0) in {0, 2} ==> i <= k < j)
       <==> !Intruded(files, search) || !(exists k :: 0 <= k < |files| && Rank(search, files[k].0) == 2)
  {
    forall k | 0 <= k < i
      ensures Rank(search, files[k].0) == 3
    {
      if search <= files[k].0 {
        PrefixNotAbove(search, files[k].0);
      }
    }
    forall a, b | i <= a < b < |files|
      ensures Rank(search, files[a].0) <= Rank(search, files[b].0) && Rank(search, files[b].0) != 0
    {
      AtLeast(files, search, a);
      RankMonotone(search, files[a].0, files[b].0);
    }
  }

  lemma AtLeast(files: Entries<FileEntry>, search: Str, a: nat)
    requires Sorted(files) && LowerBound(files, search) <= a < |files|
    ensures !Less(files[a].0, search)
  {
    AboveLowerBound(files, search, a);
    LessIrreflexive(search);
    if Less(files[a].0, search) && Less(search, files[a].0) {
      LessTransitive(search, files[a].0, search);
    }
  }
}
