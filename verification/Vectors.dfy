/** Initialisation vectors over whole runs: every object is sealed under numbers drawn for it alone. */
module FreshVectors {
  import opened Bytes
  import opened CipherStreams
  import opened Envelope
  import opened SnapshotModel
  import opened SnapshotFormat
  import opened RepositoryModel
  import opened PackModel
  import opened BackupRuns

  /** Something sealed: its compression type and its bytes. */
  type Piece = (byte, seq<byte>)

  /** Pieces sealed one after another, from the n-th vector on. */
  function SealedPieces(keys: Keys, n: nat, pieces: seq<Piece>): (r: seq<seq<byte>>)
    ensures |r| == |pieces|
  {
    seq(|pieces|, k requires 0 <= k < |pieces| => Seal(keys.codec, pieces[k].0, keys.ivs(n + k), pieces[k].1))
  }

  /** The bytes are sealed pieces, one for every number from `first` up to `end`. */
  ghost predicate SealedUnder(keys: Keys, first: nat, end: nat, bytes: seq<byte>) {
    exists pieces: seq<Piece> :: first + |pieces| == end && bytes == Flatten(SealedPieces(keys, first, pieces))
  }

  /** The one path that an operation may store something under, and how many vectors that takes. */
  function Target(keys: Keys, op: StoreOp): (string, nat) {
    match op
    case BlockUpload(ct, block) => (DataPath(BlockId(keys, ct, block)), 1)
    case PackWrite(files) => (PackPath(keys, files), |files|)
    case SnapshotCommit(name, _) => (SnapshotPath(name), 1)
  }

  lemma OneSealed(keys: Keys, n: nat, ct: byte, data: seq<byte>)
    ensures SealedUnder(keys, n, n + 1, Seal(keys.codec, ct, keys.ivs(n), data))
  {
    hide Seal, Flatten;
    var s := Seal(keys.codec, ct, keys.ivs(n), data);
    assert SealedPieces(keys, n, [(ct, data)]) == [s];
    OnePart(s);
  }

  lemma PackSealed(keys: Keys, n: nat, files: seq<PackFile>)
    ensures SealedUnder(keys, n, n + |files|, Flatten(SealedFiles(keys, n, files)))
  {
    hide Seal, Flatten;
    var pieces := seq(|files|, k requires 0 <= k < |files| => (files[k].meta.compression, files[k].data));
    assert SealedPieces(keys, n, pieces) == SealedFiles(keys, n, files);
  }

  /** An operation changes nothing, or it stores one object, sealed under the vectors it draws. */
  lemma StepSeals(keys: Keys, st: Store, op: StoreOp)
    ensures var st', path, n := ApplyToStore(keys, st, op), Target(keys, op).0, Target(keys, op).1;
            || st' == st
            || (&& path in st'.objects && st'.objects == st.objects[path := st'.objects[path]]
                && st'.drawn == st.drawn + n && SealedUnder(keys, st.drawn, st'.drawn, st'.objects[path]))
  {
    hide Seal, DataPath, SnapshotPath, Saved, BlockId, PackMessage, SealedFiles, Flatten, SealedUnder;
    match op {
      case BlockUpload(ct, block) => OneSealed(keys, st.drawn, ct, block);
      case PackWrite(files) => PackSealed(keys, st.drawn, files);
      case SnapshotCommit(_, snapshot) => OneSealed(keys, st.drawn, LZMA2, Saved(snapshot));
    }
  }

  /** Which vectors each object of a run is sealed under. */
  type Ranges = map<string, (nat, nat)>

  /** Objects with a range are sealed under it, the others were there before; and no number drawn
      before or for another object is in a range. */
  ghost predicate Apart(keys: Keys, st: Store, now: Store, ranges: Ranges) {
    && st.drawn <= now.drawn
    && (forall path :: path in now.objects ==>
          if path in ranges then
            && st.drawn <= ranges[path].0 <= ranges[path].1 <= now.drawn
            && SealedUnder(keys, ranges[path].0, ranges[path].1, now.objects[path])
          else path in st.objects && now.objects[path] == st.objects[path])
    && (forall p, q :: p in ranges && q in ranges && p != q ==>
          ranges[p].1 <= ranges[q].0 || ranges[q].1 <= ranges[p].0)
    && forall path :: path in ranges ==> path in now.objects
  }

  lemma StepKeepsApart(keys: Keys, st: Store, now: Store, op: StoreOp, ranges: Ranges) returns (ranges': Ranges)
    requires Apart(keys, st, now, ranges)
    ensures Apart(keys, st, ApplyToStore(keys, now, op), ranges')
  {
    hide ApplyToStore, SealedUnder, Target;
    StepSeals(keys, now, op);
    var next, path := ApplyToStore(keys, now, op), Target(keys, op).0;
    ranges' := if next == now then ranges else ranges[path := (now.drawn, next.drawn)];
  }

  /** No vector is used twice in a run, nor is one that was drawn before it. */
  lemma {:induction false} VectorsFresh(keys: Keys, st: Store, ops: seq<StoreOp>) returns (ranges: Ranges)
    ensures Apart(keys, st, StoreRun(keys, st, ops), ranges)
    decreases |ops|
  {
    hide ApplyToStore, Apart;
    if ops == [] {
      ranges := map[];
      NoneDrawn(keys, st);
    } else {
      var front := VectorsFresh(keys, st, ops[..|ops| - 1]);
      ranges := StepKeepsApart(keys, st, StoreRun(keys, st, ops[..|ops| - 1]), ops[|ops| - 1], front);
    }
  }

  lemma NoneDrawn(keys: Keys, st: Store)
    ensures Apart(keys, st, st, map[])
  {
    hide SealedUnder;
  }

  /** An object sealed under one vector carries it after its MAC of 32 bytes. */
  lemma CarriesVector(keys: Keys, n: nat, bytes: seq<byte>)
    requires keys.Lawful() && SealedUnder(keys, n, n + 1, bytes)
    ensures |bytes| >= 48 && bytes[32..48] == keys.ivs(n)
  {
    hide Flatten, Compressed, Codec.Lawful;
    var pieces: seq<Piece> :| n + |pieces| == n + 1 && bytes == Flatten(SealedPieces(keys, n, pieces));
    var s := Seal(keys.codec, pieces[0].0, keys.ivs(n), pieces[0].1);
    assert SealedPieces(keys, n, pieces) == [s];
    OnePart(s);
    SealCarries(keys, pieces[0].0, n, pieces[0].1);
  }

  lemma SealCarries(keys: Keys, ct: byte, n: nat, data: seq<byte>)
    requires keys.Lawful()
    ensures var s := Seal(keys.codec, ct, keys.ivs(n), data);
            |s| >= 48 && s[32..48] == keys.ivs(n)
  {
    hide Compressed, Cipher.Lawful;
    var iv := keys.ivs(n);
    var body := iv + keys.codec.cipher.Encrypt(iv, Compressed(keys.codec, ct, data));
    assert body[..16] == iv;
    assert (keys.codec.mac(body) + body)[32..48] == body[..16];
  }

  /** Where vectors do not repeat by themselves, no two objects of one vector each have the same. */
  lemma VectorsDiffer(keys: Keys, st: Store, now: Store, ranges: Ranges, p: string, q: string)
    requires keys.Lawful() && Apart(keys, st, now, ranges) && p in ranges && q in ranges && p != q
    requires forall m, n :: keys.ivs(m) == keys.ivs(n) ==> m == n
    requires ranges[p].1 == ranges[p].0 + 1 && ranges[q].1 == ranges[q].0 + 1
    ensures |now.objects[p]| >= 48 && |now.objects[q]| >= 48
    ensures now.objects[p][32..48] != now.objects[q][32..48]
  {
    hide SealedUnder, Keys.Lawful;
    CarriesVector(keys, ranges[p].0, now.objects[p]);
    CarriesVector(keys, ranges[q].0, now.objects[q]);
  }

  // ----- backups -----

  /** What one step of a backup does to the store. */
  function StoreOps(op: BackupOp): seq<StoreOp> {
    match op
    case Blocks(_, meta, blocks) =>
      seq(|blocks|, k requires 0 <= k < |blocks| => BlockUpload(meta.compression, blocks[k]))
    case Pack(files) => [PackWrite(files)]
    case Elsewhere(op) => [op]
  }

  function AllStoreOps(ops: seq<BackupOp>): seq<StoreOp> {
    if ops == [] then [] else AllStoreOps(ops[..|ops| - 1]) + StoreOps(ops[|ops| - 1])
  }

  lemma {:induction false} StoreRunAppend(keys: Keys, st: Store, a: seq<StoreOp>, b: seq<StoreOp>)
    ensures StoreRun(keys, st, a + b) == StoreRun(keys, StoreRun(keys, st, a), b)
    decreases |b|
  {
    hide ApplyToStore;
    if b == [] {
      assert a + b == a;
    } else {
      assert (a + b)[..|a + b| - 1] == a + b[..|b| - 1];
      StoreRunAppend(keys, st, a, b[..|b| - 1]);
    }
  }

  lemma OneStoreOp(keys: Keys, st: Store, op: StoreOp)
    ensures StoreRun(keys, st, [op]) == ApplyToStore(keys, st, op)
  {
    hide ApplyToStore;
    assert [op][..0] == [];
    assert StoreRun(keys, st, [op][..0]) == st;
  }

  lemma {:induction false} UploadIsRun(keys: Keys, st: Store, path: seq<byte>, meta: Meta, blocks: seq<seq<byte>>)
    ensures UploadBlocks(keys, st, meta.compression, blocks)
         == StoreRun(keys, st, StoreOps(BackupOp.Blocks(path, meta, blocks)))
    decreases |blocks|
  {
    hide UploadBlock;
    if blocks != [] {
      var front := blocks[..|blocks| - 1];
      UploadIsRun(keys, st, path, meta, front);
      var all := StoreOps(BackupOp.Blocks(path, meta, blocks));
      assert all[..|all| - 1] == StoreOps(BackupOp.Blocks(path, meta, front));
    }
  }

  lemma StepIsRun(keys: Keys, b: Backup, op: BackupOp)
    ensures BackupStep(keys, b, op).store == StoreRun(keys, b.store, StoreOps(op))
  {
    hide UploadBlocks, AddFileEntry, WithEntries, BlockIds, Entered, PackStore, StoreRun, StoreOps, PackMessage;
    match op {
      case Blocks(path, meta, blocks) => UploadIsRun(keys, b.store, path, meta, blocks);
      case Pack(files) => PackOps(files); OneStoreOp(keys, b.store, PackWrite(files));
      case Elsewhere(other) => ElsewhereOps(other); OneStoreOp(keys, b.store, other);
    }
  }

  lemma PackOps(files: seq<PackFile>)
    ensures StoreOps(BackupOp.Pack(files)) == [PackWrite(files)]
  {
  }

  lemma ElsewhereOps(op: StoreOp)
    ensures StoreOps(Elsewhere(op)) == [op]
  {
  }

  /** A backup does to the store what the run of all its operations does. */
  lemma {:induction false} BackupIsStoreRun(keys: Keys, b: Backup, ops: seq<BackupOp>)
    ensures BackupRun(keys, b, ops).store == StoreRun(keys, b.store, AllStoreOps(ops))
    decreases |ops|
  {
    hide BackupStep, StoreOps;
    if ops != [] {
      var front := ops[..|ops| - 1];
      BackupIsStoreRun(keys, b, front);
      StepIsRun(keys, BackupRun(keys, b, front), ops[|ops| - 1]);
      StoreRunAppend(keys, b.store, AllStoreOps(front), StoreOps(ops[|ops| - 1]));
    }
  }

  /** Nor is a vector used twice in a backup and the commit after it. */
  lemma BackupVectorsFresh(keys: Keys, b: Backup, ops: seq<BackupOp>, name: string) returns (ranges: Ranges)
    ensures var done := BackupRun(keys, b, ops);
            Apart(keys, b.store, Commit(keys, done.store, name, done.snapshot), ranges)
  {
    hide Apart, BackupRun, StoreRun, AllStoreOps, Commit;
    var done := BackupRun(keys, b, ops);
    BackupIsStoreRun(keys, b, ops);
    var before := VectorsFresh(keys, b.store, AllStoreOps(ops));
    ranges := StepKeepsApart(keys, b.store, done.store, SnapshotCommit(name, done.snapshot), before);
    CommitIsStep(keys, done.store, name, done.snapshot);
  }

  lemma CommitIsStep(keys: Keys, st: Store, name: string, snapshot: State)
    ensures ApplyToStore(keys, st, SnapshotCommit(name, snapshot)) == Commit(keys, st, name, snapshot)
  {
    hide Commit;
  }
}
