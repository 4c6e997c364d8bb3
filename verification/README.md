# A verified model of the backup engine and of the protocols under it

The program is an encrypting, deduplicating backup tool. It cuts files into content-defined
blocks, stores every block once under a keyed hash, packs small files into shared objects, and
records everything in a binary snapshot from which files are restored later. Its SSH back end
rests on a vendored libssh, and a vendored Boost supplies exact rationals. This project models
five parts of it and proves what they are for:

1. **Backup engine.** `RollingHash.dfy` and `Chunker.dfy` cut files; `Base32.dfy` names objects;
   `OrderedMap.dfy`, `StringTable.dfy`, `Paths.dfy`, `SnapshotModel.dfy`, `SnapshotFormat.dfy`,
   `SnapshotProperties.dfy` and `Snapshot.dfy` are the snapshot, its bytes and its index;
   `RepositoryModel.dfy` and `Repository.dfy` are the store, upload and download; `PackModel.dfy`
   and `Pack.dfy` are packs and the program's backup loop; `BackupRuns.dfy` is about whole backups
   and everything done to the store around them, and `Vectors.dfy` about the initialisation vectors
   they draw.
2. **Streams.** `Streams.dfy`, `CipherStreams.dfy` and `Envelope.dfy`: the adaptors that carry the
   bytes, and the sealed form (MAC, initialisation vector, ciphertext) of every object.
3. **SSH channel flow control.** `ChannelModel.dfy` (one end as a value), `ChannelProtocol.dfy`
   (two ends, two FIFO connections, every interleaving) and `Channel.dfy` (the object updated in
   place), for protocol version 2, section 5.2 of RFC 4254.
4. **SSH buffer.** `SshBuffer.dfy` and `SshPack.dfy`, with the data types of section 5 of RFC 4251.
5. **Exact rationals.** `Rational.dfy`, on `Numbers.dfy` and `Arithmetic.dfy`.

`Bytes.dfy` holds the shared vocabulary. `dafny verify dfyconfig.toml` checks everything.

## How the model is built

Objects that the program updates in place are classes whose methods run the program's loops; each
method is proved equal to a function on values, and the laws are proved of those functions, over
all inputs and all runs. Errors are results; the few inputs excluded are named at the end.

- `Streams.Source` stands for any input stream: what it holds, a cursor, and reads that may be
  short anywhere unless `eager`. Adaptors are proved over every pattern of short reads. In place of
  the class hierarchy, a decoder takes a plain stream or a range of one (`AnyStream`), and a sealed
  file is passed on into a pack as a `Source` with the same bytes and cursor (`View`).
- The cipher, the MAC, the keyed hash, MD5 and the compressor are function parameters. Hypotheses:
  decryption undoes encryption and never takes output back however its input is cut; a MAC has 32
  bytes; decompression undoes compression; no two messages in use have the same hash, where the
  messages of packs are different from those of blocks. Random initialisation vectors come from an
  arbitrary function of how many have been drawn.
- `std::map` is a strictly sorted sequence of pairs; the data store is a map from paths to bytes.
- 64-bit and 32-bit wrap-around, signed conversions and truncations are written out where the
  program relies on them or meets them.
- Paths are taken after normalisation, and taken apart as boost::filesystem does on POSIX systems.
  Paths added to a snapshot are those that a load joins again, which every normalised relative path
  is; the exact condition is `Paths.RejoinsExactly`.
- A blocking channel call is given the packets that arrive while it waits; when they run out it
  gives up, as on a timeout.

## Where the program falls short of the obvious claim

Each of these is a lemma that gives the exact condition or a concrete case.

- A pack found already stored leaves the pack lengths of its entries unset and their offsets equal
  to file counts: its files are all restored, for all values of the unset memory, exactly when the
  pack was not there (`PackModel.PackRestoresExactly`); packing the same data again is enough to
  meet the failing case (`PackModel.SamePackAgain`).
- Packs and blocks share one namespace: a pack of one file that begins with its own compression type
  makes the block of that file twice, but for the first byte, download as the file, which is wrong
  unless the file has one byte (`PackModel.PackShadowsBlock`; the exact overlap is
  `PackModel.PackMessageIsBlockMessage`).
- An empty file has no blocks if the small-file limit is zero (`BackupEngine.NoBlocksExactly`). It
  then cannot be downloaded, unless a later entry adds an object id; no other file fails so
  (`BackupRuns.WholeBackup`, `BackupRuns.LastIdsExactly`, `Packs.BackUpAndRestoreAll`). Nor can a file
  be downloaded whose first object id is numbered 2^31 or more (`BackupRuns.WholeBackup`,
  `BackupRuns.EndToEnd`).
- A bare name comes back behind a slash, and merges with an entry already stored under that name
  (`SnapshotProperties.MergeExactly`, `SnapshotProperties.NoFileLostExactly`; a run that loses an
  entry so: `SnapshotProperties.MergeLosesEntry`). An absolute path directly under the root, which
  the backup never adds, would come back behind a second slash (`Paths.RootDoesNotRejoin`).
- A subpath listing is incomplete exactly when a stored path continues the subpath with a byte below
  the slash and something lies beneath it (`SnapshotProperties.ListingComplete`; a snapshot with such
  a listing: `SnapshotStore.ListingMisses`).
- A decoded Base32 string is encoded back to itself exactly if its spare bits are zero
  (`Base32.EncodeDecode`; one that is not: `Base32.SpareBitsLost`).
- When an SSH buffer grows for 2^31 or more unread bytes, it records the size of its array modulo
  2^32, which is zero; the queue stays right, the recorded size does not
  (`SshBuffers.SshBuffer.AddData`, `SshBuffers.SshBuffer.PrependData`; the smallest case:
  `SshBuffers.ForgetSize`).
- A read of 2^31 bytes or more beyond what is buffered does not make the window large enough for it
  (`ChannelModel.ReadBeginGrows`).
- The maximum block size is sure to hold only where it is at least 4096 and 65535 blocks of it cover
  the file, because a larger minimum goes before it (`BackupEngine.FileBlocksBounded`).

Code and comments disagree in three places, where the model follows the code:
`thirdparty/libssh/src/buffer.c:135` says "greater or equal" of a loop that looks for strictly
greater; `libnebula/RollingHash.cpp:34` speaks of a modulus of 2^64-1 for arithmetic modulo 2^64;
`libnebula/Repository.cpp:442` speaks of 1 MB for a limit of 512000 bytes by default.

## Model

| member | source | states |
|---|---|---|
| `BackupEngine.FileComesBack` | libnebula/Repository.cpp:390-592 | for any sound store and any file whose path is new: cut and upload, add the entry, commit, do anything to the store (uploads, packs, commits under other names), load, download under the loaded key: the file, being the last one added, comes back byte for byte, except exactly when it is empty and the small-file limit is zero, which fails with an index error |
| `BackupRuns.WholeBackup` | libnebula/Repository.cpp:390-690 | a whole backup: any number of files uploaded as blocks (or as no blocks at all) or in new packs into one snapshot, in any order, with anything done to the store in between; then a commit, any later run without a commit to the same name, and a load: every file comes back under its loaded key, with user, group, type, mode, time, size, digest, compression and hash width as taken in, except that the download is an index error exactly when the file has no object ids and no later step adds any, or its first object id is numbered 2^31 or more |
| `BackupRuns.LastIdsExactly` | libnebula/Repository.cpp:663-668 | a file's object ids begin beyond the last one exactly when it has none and no later step of the backup adds any |
| `BackupRuns.IdsCounted` | libnebula/Snapshot.cpp:264-270 | the object ids of a snapshot after a backup are as many as its steps add |
| `BackupRuns.BackupFromNothing` | libnebula/Repository.cpp:390-690 | the same from an empty store and an empty snapshot |
| `BackupRuns.BackupKeeps` | libnebula/Repository.cpp:390-657 | every step of a backup keeps the store invariant, the snapshot invariant and every file taken in before, and takes in its own at the object ids counted so far, files without blocks included |
| `BackupRuns.EndToEnd` | libnebula/Repository.cpp:659-690 | the same for any list of blocks and any number of object ids before it: the download is the blocks joined, or an index error exactly when there are no blocks or the first object id lies beyond the 32-bit signed index range |
| `RepositoryModel.UploadBlockSound` | libnebula/Repository.cpp:363-378 | store invariant: every stored object named by a message in use opens to the (compression, block) pair of that message; kept by an upload, including the "already exists" skip, and nothing stored changes |
| `RepositoryModel.UploadBlocksSound` | libnebula/Repository.cpp:532-569 | after a whole file each of its blocks opens under its id |
| `BackupRuns.StoreRunSound` | libnebula/Repository.cpp:332-378 | the invariant holds over every run of block uploads, pack writes and snapshot commits |
| `BackupRuns.StoreRunKeeps` | libnebula/Repository.cpp:332-378 | no run of any uploads, packs and commits loses or changes a data object |
| `BackupRuns.EveryStoredObject` | libnebula/Repository.cpp:363-378 | in every store that a legal run makes of an empty one, every data object either opens to the block uploaded under its name, or is byte for byte the sealed files of a pack that was written under it |
| `BackupRuns.SnapshotStays` | libnebula/Repository.cpp:332-338 | a committed snapshot survives every run that does not commit to the same name |
| `FreshVectors.VectorsFresh` | libnebula/EncryptedOutputStream.cpp:31-42 | over every run of uploads, packs and commits: each object that is there afterwards either was there before, or is sealed pieces, one for every vector number of a range of its own, and these ranges are disjoint from each other and from all numbers drawn before |
| `FreshVectors.BackupVectorsFresh` | libnebula/EncryptedOutputStream.cpp:31-42 | the same over a whole backup and its commit |
| `FreshVectors.StepSeals` | libnebula/Repository.cpp:332-378 | one operation changes nothing or stores one object, of as many sealed pieces as vectors it draws: one for a block or a snapshot, one for every file of a pack |
| `FreshVectors.VectorsDiffer` | libnebula/EncryptedOutputStream.cpp:31-42 | where the source of vectors does not repeat itself, no two stored blocks or snapshots of a run carry the same vector after their MAC |
| `FreshVectors.BackupIsStoreRun` | libnebula/Repository.cpp:390-657 | a backup does to the store what the run of its block uploads, pack writes and other operations does |
| `RepositoryModel.CommitLoads` | libnebula/Repository.cpp:318-338 | a committed snapshot loads with the same strings, object ids and entries, and satisfies the snapshot invariant |
| `RepositoryModel.LoadAnswers` | libnebula/Repository.cpp:318-330 | what loading a snapshot answers for whatever is stored under its name: not found, rejected content, a malformed index, or the snapshot |
| `RepositoryModel.CommitSound` | libnebula/Repository.cpp:332-338 | a commit touches no data object |
| `RepositoryModel.FetchStored` | libnebula/Repository.cpp:668-687 | fetching the ids of stored blocks gives the blocks joined, in order |
| `RepositoryModel.DownloadStable` | libnebula/Repository.cpp:659-690 | a successful download gives the same bytes whatever is stored later |
| `RepositoryModel.DataPathInjective` | libnebula/Repository.cpp:366 | different object ids are stored under different paths |
| `RepositoryModel.PathsDisjoint` | libnebula/Repository.cpp:337 | no data path is a snapshot path |
| `RepositoryModel.LoneEntryFound` | libnebula/Repository.cpp:663 | an entry that alone loads under its key is the one found under it |
| `RepositoryModel.AddedEntryFound` | libnebula/Repository.cpp:578-591 | an entry added under a new path is found after a save and load, pointing at exactly its own object ids |
| `BackupEngine.FileBlocksSpellFile` | libnebula/Repository.cpp:444-569 | the blocks of a file, small or large, join to the file and never exceed what a 16-bit count holds |
| `BackupEngine.NoBlocksExactly` | libnebula/Repository.cpp:444-569 | a file has no blocks exactly when it is empty and the small-file limit is zero |
| `BackupEngine.FileBlocksByContent` | libnebula/Repository.cpp:444-569 | a small file is one block; a large one is cut in the only way in which every block but the last ends at its end and none ends earlier, where a block ends once it has the least size from 4096 on of which 65535 cover the file, and then where the hash of the last 8192 bytes rolled is divisible by 2^hashBits or the maximum size is reached |
| `BackupEngine.FileBlocksBounded` | libnebula/Repository.cpp:519-569 | no block of a large file exceeds the maximum size or a size of which 65535 cover the file, so none exceeds a maximum of at least 4096 if the file has at most 65535 * 4096 bytes; all but the last have at least 4096 |
| `BackupEngine.Repository.constructor` | libnebula/Repository.cpp:151-163 | a repository over a data store |
| `BackupEngine.Repository.ComputeBlockHMAC` | libnebula/Repository.cpp:340-361 | the id of a block is the keyed hash of the compression type followed by the block |
| `BackupEngine.Repository.PutSealed` | libnebula/Repository.cpp:374-377 | data is stored sealed under the next initialisation vector, which is used up |
| `BackupEngine.Repository.CompressEncryptAndUploadBlock` | libnebula/Repository.cpp:363-378 | stores the block under its name, sealed under the next initialisation vector, which is used up; if something is there already nothing changes |
| `BackupEngine.Repository.UploadInBlocks` | libnebula/Repository.cpp:527-569 | the byte loop over buffered stream and rolling hash uploads exactly the blocks of the chunker specification, collects their ids in order and digests exactly the file |
| `BackupEngine.Feed` | libnebula/Repository.cpp:533-536 | one byte: the hash is rolled only once the block has its minimum size, and the block is cut exactly when the masked hash is zero or the maximum size is reached |
| `BackupEngine.Repository.FinishBlock` | libnebula/Repository.cpp:538-552 | one block is digested, named, uploaded and recorded |
| `BackupEngine.Repository.UploadFile` | libnebula/Repository.cpp:390-592 | the whole effect of an upload on store and snapshot, the short read and the too-many-blocks error included |
| `BackupEngine.UploadIsStep` | libnebula/Repository.cpp:390-592 | an accepted upload is one step of a backup |
| `BackupEngine.UploadedEntry` | libnebula/Repository.cpp:578-591 | after an accepted upload under a new path the entry found has the length that was given, the digest of what was read (of a small file no more than that length), the clamped hash width or zero for a small file, the caller's user, group, type, mode and time, no pack range, and the ids of the file's blocks |
| `BackupEngine.Repository.DownloadFile` | libnebula/Repository.cpp:659-690 | nothing if and only if the path is unknown; otherwise the index error, or what the first object gives that is missing, too short, of a wrong MAC or cannot be decoded, or all objects opened and joined |
| `RepositoryModel.DownloadAnswers` | libnebula/Repository.cpp:659-690 | the same of the specified download, stated without it: unknown path, index error, missing object, short read, wrong MAC, undecodable content, or the joined objects in order |
| `BackupEngine.Repository.FetchObject` | libnebula/Repository.cpp:672-686 | one object through a temporary stream, and for pack entries through a range stream over it, whose own reads and rewinds the decoder makes |
| `BackupEngine.Repository.CommitSnapshot` | libnebula/Repository.cpp:332-338 | stores the saved bytes, compressed and sealed under the next initialisation vector, under the snapshot path |
| `BackupEngine.Repository.LoadSnapshot` | libnebula/Repository.cpp:318-330 | reads back what was committed, or says why not |
| `BackupEngine.BackUpAndRestore` | libnebula/Repository.cpp:318-690 | upload, commit, load and download run one after the other give the bytes of the file, or the index error in the one exceptional case |
| `BackupEngine.DataStore.Exist` | libnebula/DataStore.h:34-37 | whether a path is stored |
| `BackupEngine.DataStore.Get` | libnebula/DataStore.h:39-46 | writes what is stored to a stream, or reports that nothing is |
| `BackupEngine.DataStore.Put` | libnebula/DataStore.h:48-51 | stores everything a stream delivers, replacing what was there |
| `PackModel.PackTiles` | libnebula/Repository.cpp:611-626 | the ranges of a pack below 4 GiB tile the stored object in order, and each range is exactly its file's sealed form |
| `PackModel.NewPackRestores` | libnebula/Repository.cpp:607-652 | every entry of a newly written pack is restored to its file through range, MAC and decoding |
| `PackModel.PackRestoresExactly` | libnebula/Repository.cpp:607-631 | for all values of the uninitialised pack length: every file of the pack is restored if and only if the pack object was not in the store already |
| `PackModel.ExistingPackFails` | libnebula/Repository.cpp:607-652 | concrete failure: the pack exists and memory held a one |
| `PackModel.SamePackAgain` | libnebula/Repository.cpp:601-607 | the failing case is met whenever files with the same data are packed again in the same order |
| `PackModel.PackSound` | libnebula/Repository.cpp:607-631 | a pack keeps the store invariant if its message is not in use as a block message |
| `PackModel.PackMessageIsBlockMessage` | libnebula/Repository.cpp:349-354 | packs and blocks share a namespace: a pack's message is some block's message exactly when it begins with a compression type |
| `PackModel.PackShadowsBlock` | libnebula/Repository.cpp:366-372 | the consequence, for every file d that begins with its own compression type: after a new pack of d alone, the block of d twice but for the first byte is not stored and downloads as d, which is right exactly when d has one byte |
| `BackupRuns.PackEndToEnd` | libnebula/Repository.cpp:594-690 | finalise a new pack, commit, do anything but commit to the same name, load, download any of its files: its bytes come back |
| `PackModel.EntriesFiled` | libnebula/Repository.cpp:634-652 | adding the entries of a pack keeps the snapshot invariant and files every one of them with the pack as its only object |
| `PackModel.FiledIsFound` | libnebula/Repository.cpp:634-652 | each of them is found again under its loaded key |
| `Packs.PackUploadState.constructor` | libnebula/Repository.cpp:95-98 | an empty pack |
| `Packs.PackUploadState.AddFile` | libnebula/Repository.cpp:105-140 | appends a file; its offset is the file count and its pack length is whatever memory held; the data enters the pack hash |
| `Packs.UploadSmallFile` | libnebula/Repository.cpp:444-502 | a small file enters the pack; the pack is finalised exactly when some byte of the file leaves the low 20 bits of the rolling hash zero, and is otherwise ready for the next file |
| `Packs.PackUploadState.Take` | libnebula/Repository.cpp:461-492 | the file is hashed twice, rolled and added; the window carries on from file to file |
| `Packs.BackUpAndRestoreAll` | cli/Main.cpp:311-365 | the whole program: files of any sizes, over any arguments, backed up into a new snapshot, committed, loaded and all downloaded: every file gives its bytes, except that a download is an index error exactly when the small-file limit is zero and this file and all after it are empty |
| `Packs.UploadArguments` | cli/Main.cpp:311-362 | the loop over the arguments, with one pack state: the outcome is the run of the steps that the files come to |
| `Packs.UploadFiles` | cli/Main.cpp:312-361 | one argument: large files are uploaded as blocks and small ones into the pack they share, which is finalised at the end: the outcome is the run of backup steps of the specification |
| `Packs.UploadOne` | libnebula/Repository.cpp:395-592 | one file with a pack at hand: large or small by its length, it becomes the next step of the specification or goes into the pack, and what is left of the run is that of the files after it |
| `Packs.UploadLargeFile` | libnebula/Repository.cpp:503-592 | a large file is one step of the backup |
| `Packs.ProgramTakes` | cli/Main.cpp:311-362 | whatever the sizes of the files, the steps of the program take in every file with its path, bytes and attributes, each exactly once |
| `Packs.UploadTakes` | libnebula/Repository.cpp:472-502 | the same of one argument and what was pending in the pack |
| `Packs.FileRestored` | libnebula/Repository.cpp:390-690 | every file of a backup of these arguments can be downloaded from the committed snapshot as expected, and its entry there has the caller's user, group, type, mode and time, the length and digest of its bytes, and the hash width clamped between its bounds, or zero if it is small |
| `Packs.FilePromised` | libnebula/Repository.cpp:390-690 | for every file there is a promise of the backup that is restored as expected |
| `Packs.RollFile` | libnebula/Repository.cpp:468-476 | the loop that looks for a mark, over a window that carries on from file to file |
| `Packs.MarksExactly` | libnebula/Repository.cpp:468-476 | a file marks the end of a pack exactly if after some byte of it the hash of the last bytes rolled is divisible by 2^20 |
| `Packs.SealFiles` | libnebula/Repository.cpp:608-626 | the streams and the 32-bit offsets and lengths of a new pack |
| `Packs.SealOne` | libnebula/Repository.cpp:617-623 | one sealed file as a stream of its own |
| `Packs.FinalizePack` | libnebula/Repository.cpp:594-657 | writes the pack unless it exists, enters all files and resets the state; does nothing for an empty state |
| `Packs.EnterFiles` | libnebula/Repository.cpp:634-652 | one entry per file, in order |
| `Chunker.BlockBounds` | libnebula/Repository.cpp:520-569 | blocks join to the file; all but the last have at least the minimum size; none exceeds the larger of minimum and maximum; never more than 65535 |
| `Chunker.StepsSound` | libnebula/Repository.cpp:532-554 | the bounds hold at every byte of every run |
| `Chunker.BlocksByContent` | libnebula/Repository.cpp:527-569 | the blocks of a file, stated without the loop: they join to the file, every one but the last ends at its end by its content, and none could have ended earlier |
| `Chunker.OneWayToCut` | libnebula/Repository.cpp:527-569 | there is only one such way to cut a file |
| `Chunker.MinBlockLeast` | libnebula/Repository.cpp:519-525 | the minimum size is the least from 4096 on of which 65535 blocks cover the file |
| `Chunker.Resynchronised` | libnebula/Repository.cpp:530-569 | after a cut the remaining blocks depend only on the rolled window and the remaining input |
| `Chunker.SharedBlockResynchronises` | libnebula/Repository.cpp:530-569 | once two files share one sufficiently long block followed by the same bytes, all later blocks are shared |
| `Chunker.WindowAfterBlock` | libnebula/Repository.cpp:535-536 | after a block with a whole window of rolled bytes, the window is the end of that block, whatever came before |
| `Chunker.StepsIgnoreHistory` | libnebula/Repository.cpp:530-554 | blocks already cut do not influence later ones |
| `Rolling.PowerWrapped` | libnebula/RollingHash.cpp:34-44 | square and multiply on residues gives 33^W modulo 2^64 |
| `Rolling.RollingHash.constructor` | libnebula/RollingHash.cpp:26-83 | the initial hash is that of a window of zeros |
| `Rolling.RollingHash.Roll` | libnebula/RollingHash.cpp:89-97 | the ring slides by one byte and the hash equals the weighted sum over the new window modulo 2^64 |
| `Rolling.SumSlide` | libnebula/RollingHash.cpp:92-94 | sliding a window changes its sum as the update does |
| `Rolling.WrapRoll` | libnebula/RollingHash.cpp:92-94 | the wrapped update agrees with the unwrapped one |
| `Rolling.SlideAllIsSuffix` | libnebula/RollingHash.cpp:89-97 | after any rolls the window is the last W bytes |
| `Base32.Encode` | libnebula/Base32.cpp:39-81 | the streaming encoder writes the RFC 4648 digits of the input; it succeeds exactly when the buffer holds them and the terminator |
| `Base32.Decode` | libnebula/Base32.cpp:83-180 | the group decoder gives the bytes of the digits; exact conditions of success and of both errors |
| `Base32.DecodeGroups` | libnebula/Base32.cpp:102-121 | the loop over whole groups of eight characters |
| `Base32.ReadDigits` | libnebula/Base32.cpp:24-37 | a slice of characters as digits, or none |
| `Base32.DecodeEncode` | libnebula/Base32.cpp:39-180 | decoding an encoding returns the bytes, for every byte string |
| `Base32.EncodeDecode` | libnebula/Base32.cpp:83-180 | encoding a decoded string returns it in lower case exactly when its spare low bits are zero |
| `Base32.SpareBitsLost` | libnebula/Base32.cpp:128-135 | a string that is decoded but not encoded back to itself |
| `Base32.Alphabet` | libnebula/Base32.cpp:39-81 | the 32 characters in order |
| `Base32.AcceptedCharacters` | libnebula/Base32.cpp:24-37 | which characters are digits, in either case |
| `Base32.EncodedValue` | libnebula/Base32.cpp:39-81 | an encoding spells the number the bytes are, followed by fewer than five zero bits |
| `Base32.DecodedValue` | libnebula/Base32.cpp:83-180 | the bytes decoded are the number spelled, without the fewer than five bits at its end |
| `Base32.DecodableExactly` | libnebula/Base32.cpp:83-180 | the lengths that can be decoded are those of encodings |
| `Base32.ObjectNameInjective` | libnebula/Repository.cpp:692-697 | different object ids have different names |
| `Base32.ObjectIdToString` | libnebula/Repository.cpp:692-697 | two characters, a slash and the rest of the 52 |
| `Base32.ObjectNameDecodes` | libnebula/Repository.cpp:692-697 | a name has 53 characters with a slash after the second, and is decoded to the id without it |
| `SnapshotFormat.SaveLoadRoundTrip` | libnebula/Snapshot.cpp:142-229 | loading a save into a fresh snapshot gives back the buffer, the ids and every entry, filed under parent, slash and name |
| `SnapshotFormat.EntryRoundTrip` | libnebula/Snapshot.cpp:170-227 | an entry is read back field by field, negative times included |
| `SnapshotFormat.EntryLayout` | libnebula/Snapshot.cpp:209-227 | the 68 bytes of an entry, field after field |
| `SnapshotFormat.SavedHeader` | libnebula/Snapshot.cpp:146-202 | the three counts and what follows them are read as they were written |
| `SnapshotFormat.ChopFlattened` | libnebula/Snapshot.cpp:163-207 | object ids are cut out of the bytes as they were joined |
| `SnapshotFormat.LoadEncoded` | libnebula/Snapshot.cpp:168-228 | the loop over entries files each one as it was saved |
| `SnapshotFormat.LoadedAnswers` | libnebula/Snapshot.cpp:142-190 | what any bytes load as: a short read, the error of the entry loop, or the buffer, the table of its strings, the ids and the entries at their places |
| `SnapshotFormat.LoadEntriesAnswers` | libnebula/Snapshot.cpp:167-189 | the entry loop over any bytes succeeds if every entry is there and its path in the buffer; otherwise the first that is not gives a short read or an index error |
| `SnapshotFormat.LoadEntriesFinds` | libnebula/Snapshot.cpp:187-188 | after the loop over any bytes the last entry under a key is found, and under other keys what was there before |
| `SnapshotProperties.NoFileLostExactly` | libnebula/Snapshot.cpp:187-188 | no file is lost in a save and load exactly when no two paths share a loaded key |
| `SnapshotProperties.MergeExactly` | libnebula/Snapshot.cpp:187-188 | a load files two entries of a sound snapshot under one key, as their strings spell it, exactly when the path of one is the other's, without a slash, behind a slash |
| `SnapshotProperties.MergeLosesEntry` | libnebula/Snapshot.cpp:187-188 | a legal run from the empty snapshot that loses an entry: a bare name added, saved and loaded, added again, saved and loaded |
| `SnapshotProperties.RelativePathsDoNotMerge` | libnebula/Snapshot.cpp:187-188 | paths that do not begin with a slash never merge |
| `SnapshotProperties.EveryFileFoundAgain` | libnebula/Snapshot.cpp:187-188 | without merging every entry is found unchanged under its loaded key |
| `SnapshotProperties.RefiledFinds` | libnebula/Snapshot.cpp:168-189 | which entry is found under a key after a load: the last that loads under it |
| `SnapshotProperties.LoadKeepsInv` | libnebula/Snapshot.cpp:142-190 | a loaded snapshot satisfies the invariant for the same list of strings |
| `SnapshotProperties.RunKeepsInv` | libnebula/Snapshot.cpp:49-270 | the index invariant over every run of adds of paths that rejoin, deletes and save-and-loads; strings and ids are only ever appended |
| `SnapshotProperties.EveryReachableSnapshot` | libnebula/Snapshot.cpp:49-270 | every snapshot that a legal run makes of an empty one satisfies the invariant and can be saved |
| `SnapshotProperties.AddFits` | libnebula/Snapshot.cpp:197-227 | a test before the call: an add with attributes in range and room left keeps a snapshot within the format |
| `SnapshotProperties.LoadFits` | libnebula/Snapshot.cpp:142-190 | what is loaded from a save fits the format again |
| `SnapshotProperties.EntryStaysTheSame` | libnebula/Snapshot.cpp:49-270 | whatever is done later, the name, parent, user and group and the object ids of an entry stay what they were, and the buffer stays a multiple of four |
| `SnapshotModel.AddKeepsInv` | libnebula/Snapshot.cpp:49-91 | an add keeps the invariant, for new and for repeated paths |
| `SnapshotModel.AddedEntrySays` | libnebula/Snapshot.cpp:68-91 | a new path is found with an entry whose four strings, object ids and attributes are the ones given; an entry already there is kept |
| `SnapshotModel.DescribesLater` | libnebula/Snapshot.cpp:49-91 | what an entry says of its file stays said while strings are appended |
| `SnapshotModel.DeleteKeepsInv` | libnebula/Snapshot.cpp:132-140 | a delete keeps it too |
| `SnapshotModel.DeletedIsGone` | libnebula/Snapshot.cpp:132-140 | a deleted path is not found afterwards, every other path is found as before, and strings and ids stay |
| `SnapshotModel.DenotesStable` | libnebula/Snapshot.cpp:247-262 | an index denotes the same string after anything has been appended |
| `Paths.RejoinsExactly` | libnebula/Snapshot.cpp:75-76 | for every path: the parent and the file name that boost::filesystem makes of it are joined to the path again, or to the path behind a slash if it has none, exactly when it has no slash; or its last slash lies behind its root directory, does not end it and follows no slash other than the root; or it is a host followed by just three slashes |
| `Paths.HostAlone` | thirdparty/boost/libs/filesystem/src/path.cpp:531-555 | a path of two slashes, and a host if any, is all file name and has no parent |
| `Paths.RootDoesNotRejoin` | thirdparty/boost/libs/filesystem/src/path.cpp:319-358 | a path that does not: /f, whose parent is its root, comes back as //f |
| `Paths.TrailingSlashIsDot` | thirdparty/boost/libs/filesystem/src/path.cpp:348-356 | the name of a path with a slash at its end is a dot |
| `StringTable.InsertKeeps` | libnebula/Snapshot.cpp:247-262 | interning keeps buffer and table in step and returns an index of the string |
| `StringTable.InsertAgain` | libnebula/Snapshot.cpp:247-262 | a string is stored once: inserting it again, whatever came between, changes nothing and gives the same index; a new one begins at the end of the buffer and is padded to four bytes |
| `StringTable.IndexDenotes` | libnebula/Snapshot.cpp:231-237 | the C string at an index is the interned string |
| `StringTable.ParseRebuilds` | libnebula/Snapshot.cpp:153-161 | the scan over the loaded buffer finds every non-empty string again at its old index, and nothing that is not there |
| `StringTable.ParseReplaces` | libnebula/Snapshot.cpp:153-161 | scanning a buffer of strings into any table enters the last place of each, and leaves the other strings it knew |
| `StringTable.LayoutAligned` | libnebula/Snapshot.cpp:254-257 | the buffer is always a multiple of four, so that a save does not read past it |
| `OrderedMap.FindInsert` | libnebula/Snapshot.cpp:90 | insert keeps an entry already there |
| `OrderedMap.FindAssign` | libnebula/Snapshot.cpp:188 | assignment replaces it |
| `OrderedMap.FindErase` | libnebula/Snapshot.cpp:136-139 | erase removes one key and no other |
| `OrderedMap.FindExactly` | libnebula/Snapshot.cpp:97-102 | finding is membership |
| `SnapshotProperties.ListingComplete` | libnebula/Snapshot.cpp:113-130 | a listing visits only the subpath or entries beneath it; it visits all of them exactly when no stored path continues the subpath with a byte below the slash, or nothing lies beneath it |
| `SnapshotProperties.RankMonotone` | libnebula/Snapshot.cpp:122-129 | the map order visits the path, its low continuations, its descendants and the rest in turn |
| `SnapshotStore.LoadedListing` | libnebula/Snapshot.cpp:113-130 | on a loaded snapshot the paths compared are the keys, so that the listing is that range of the map |
| `SnapshotStore.SubpathListing` | libnebula/Snapshot.cpp:113-130 | the listing of a subpath as given, with or without slashes at its end, in a loaded snapshot: entries at or beneath it, and all of them unless something lies beneath it and some path goes on from it with a byte below the slash |
| `SnapshotStore.ListingMisses` | libnebula/Snapshot.cpp:122-129 | a loaded snapshot of two paths whose listing visits nothing although one path lies beneath the subpath |
| `SnapshotStore.Snapshot.constructor` | libnebula/Snapshot.cpp:41-43 | an empty snapshot |
| `SnapshotStore.Snapshot.InsertStringTable` | libnebula/Snapshot.cpp:247-262 | the new table, buffer and index |
| `SnapshotStore.Snapshot.AddObjectIds` | libnebula/Snapshot.cpp:264-269 | ids are appended and the first one's index returned |
| `SnapshotStore.Snapshot.AddFileEntry` | libnebula/Snapshot.cpp:49-91 | the new state, or the error for more than 65535 objects with nothing changed |
| `SnapshotStore.Snapshot.DeleteFileEntry` | libnebula/Snapshot.cpp:132-140 | the entry is gone and the rest stays |
| `SnapshotStore.Snapshot.ForEachFileEntry` | libnebula/Snapshot.cpp:113-130 | the entries visited, in order, and whether an index was out of range |
| `SnapshotStore.Snapshot.Save` | libnebula/Snapshot.cpp:192-229 | writes exactly the saved bytes |
| `SnapshotStore.Snapshot.SaveIds` | libnebula/Snapshot.cpp:204-207 | the loop over object ids |
| `SnapshotStore.Snapshot.SaveFiles` | libnebula/Snapshot.cpp:209-228 | the loop over entries |
| `SnapshotStore.WriteEntry` | libnebula/Snapshot.cpp:211-227 | seventeen writes make one encoded entry |
| `SnapshotStore.Snapshot.Load` | libnebula/Snapshot.cpp:142-190 | the loaded state or the error, for every input |
| `SnapshotStore.Snapshot.BuildTable` | libnebula/Snapshot.cpp:153-161 | the scan for strings between runs of zeros |
| `SnapshotStore.ReadIds` | libnebula/Snapshot.cpp:163-166 | the loop that reads object ids |
| `SnapshotStore.Snapshot.ReadFiles` | libnebula/Snapshot.cpp:168-189 | the loop that reads and files entries |
| `SnapshotStore.ReadEntry` | libnebula/Snapshot.cpp:169-185 | seventeen reads make one decoded entry |
| `SnapshotStore.ReadExpected` | libnebula/InputStream.cpp:77-86 | all the bytes asked for, or a short read |
| `Streams.MultiInputStream.constructor` | libnebula/MultiInputStream.cpp:20-30 | several streams, at the start of the first |
| `Streams.MultiInputStream.Read` | libnebula/MultiInputStream.cpp:32-51 | delivers the concatenation of the streams, short only at its end, over streams with any pattern of short reads |
| `Streams.MultiInputStream.Size` | libnebula/MultiInputStream.cpp:53-64 | the length of the concatenation |
| `Streams.MultiInputStream.Rewind` | libnebula/MultiInputStream.cpp:75-83 | back to the beginning |
| `Streams.InputRangeStream.constructor` | libnebula/InputRangeStream.cpp:22-29 | positioned at the offset |
| `Streams.InputRangeStream.Read` | libnebula/InputRangeStream.cpp:31-42 | delivers the slice of the underlying stream, cut short where that ends |
| `Streams.InputRangeStream.Rewind` | libnebula/InputRangeStream.cpp:49-56 | back to the offset |
| `Streams.InputRangeStream.Size` | libnebula/InputRangeStream.cpp:58-61 | the size asked for |
| `Streams.AnyStream.Read` | libnebula/InputStream.h:40 | either kind of stream a decoder may be handed delivers its bytes in order, short only at the end if the underlying stream is |
| `Streams.AnyStream.Rewind` | libnebula/InputStream.h:62 | either kind goes back to its beginning |
| `Streams.BufferedInputStream.constructor` | libnebula/BufferedInputStream.cpp:21-26 | an empty buffer over a stream |
| `Streams.BufferedInputStream.Reload` | libnebula/BufferedInputStream.cpp:28-37 | refills only an empty buffer; false exactly at the end |
| `Streams.BufferedInputStream.Read` | libnebula/BufferedInputStream.cpp:39-61 | the same bytes as the stream, short only at its end |
| `Streams.BufferedInputStream.ReadByte` | libnebula/BufferedInputStream.h:29-35 | the next byte, or zero at the end |
| `Streams.BufferedInputStream.IsEof` | libnebula/BufferedInputStream.h:37-39 | true exactly at the end, without moving the reader's cursor |
| `Streams.TempFileStream.constructor` | libnebula/TempFileStream.cpp:29-33 | an empty stream in memory |
| `Streams.TempFileStream.Write` | libnebula/TempFileStream.cpp:61-80 | appends, spilling to a file when the memory buffer would overflow |
| `Streams.TempFileStream.InputStream` | libnebula/TempFileStream.cpp:82-93 | a stream over everything written, in either storage mode |
| `Streams.MemoryInputStream.constructor` | libnebula/MemoryInputStream.cpp:21-26 | a buffer and a cursor at its start |
| `Streams.MemoryInputStream.Read` | libnebula/MemoryInputStream.cpp:28-42 | the bytes at the cursor, short only at the end |
| `Streams.MemoryInputStream.Skip` | libnebula/MemoryInputStream.cpp:44-50 | moves the cursor, at most to the end |
| `Streams.MemoryInputStream.Rewind` | libnebula/MemoryInputStream.cpp:57-60 | back to the start |
| `Streams.Source.Skip` | libnebula/InputStream.cpp:33-50 | the default skip reads and discards |
| `CipherStreams.EncryptedOutputStream.constructor` | libnebula/EncryptedOutputStream.cpp:24-42 | the initialisation vector is written first |
| `CipherStreams.EncryptedOutputStream.Write` | libnebula/EncryptedOutputStream.cpp:49-71 | what has been written depends only on all the bytes written, not on how they were cut |
| `CipherStreams.EncryptedOutputStream.Close` | libnebula/EncryptedOutputStream.cpp:78-88 | the stream holds the whole encryption |
| `CipherStreams.DecryptedInputStream.constructor` | libnebula/DecryptedInputStream.cpp:21-40 | a decryption of what follows |
| `CipherStreams.DecryptedInputStream.Refill` | libnebula/DecryptedInputStream.cpp:62-84 | one more piece of ciphertext, and the padding exactly once |
| `CipherStreams.DecryptedInputStream.Read` | libnebula/DecryptedInputStream.cpp:47-90 | delivers the plaintext for every sequence of read sizes; fails exactly when it reaches past the last output and the padding is wrong |
| `CipherStreams.DecryptedInputStream.CopyTo` | libnebula/InputStream.cpp:67-75 | copies the whole plaintext, or fails |
| `CipherStreams.DecryptedInputStream.CopyData` | libnebula/InputStream.cpp:67-75 | the loop of the copy |
| `CipherStreams.DecryptsWhatWasEncrypted` | libnebula/DecryptedInputStream.cpp:47-90 | the bytes a decryption delivers over what an encryption wrote are the bytes that went in |
| `CipherStreams.WriteAndRead` | libnebula/EncryptedOutputStream.cpp:49-88 | for every list of pieces written and every list of read sizes, the reads give the written bytes in order, as far as they go |
| `Envelope.OpenSeal` | libnebula/StreamUtils.cpp:76-180 | opening what was sealed returns the data |
| `Envelope.SealLayout` | libnebula/StreamUtils.cpp:76-121 | a sealed form is 32 bytes of MAC over all the rest, 16 bytes of initialisation vector and the encryption of the data, compressed or plain |
| `Envelope.OpenAnswers` | libnebula/StreamUtils.cpp:123-180 | what any stored bytes open to, or which error the first thing wrong with them gives |
| `Envelope.OpenIsAuthenticated` | libnebula/StreamUtils.cpp:129-158 | nothing is decrypted that does not carry the MAC of all the rest |
| `Envelope.CompressEncryptHMAC` | libnebula/StreamUtils.cpp:76-121 | a rewindable stream that delivers exactly the sealed form |
| `Envelope.CompressEncrypt` | libnebula/StreamUtils.cpp:78-93 | initialisation vector and ciphertext in a temporary stream |
| `Envelope.DecompressDecryptHMAC` | libnebula/StreamUtils.cpp:123-180 | one pass to verify, rewind, a second to decode, over a plain stream or a range of one: gives exactly what opening specifies, errors in the order of the checks |
| `Envelope.DecodeStream` | libnebula/StreamUtils.cpp:163-179 | decrypts and decompresses what follows the MAC |
| `Envelope.Drain` | libnebula/StreamUtils.cpp:105-111 | reads a stream to its end in pieces |
| `Envelope.CopyTo` | libnebula/InputStream.cpp:67-75 | copies a stream into an encrypting one |
| `SshBuffers.SshBuffer.constructor` | thirdparty/libssh/src/buffer.c:86-95 | an empty buffer |
| `SshBuffers.PowerAbove` | thirdparty/libssh/src/buffer.c:135-142 | the smallest power of two strictly above what is needed |
| `SshBuffers.SshBuffer.Realloc` | thirdparty/libssh/src/buffer.c:129-162 | the contents are kept and the recorded size is the true one modulo 2^32 |
| `SshBuffers.SshBuffer.Shift` | thirdparty/libssh/src/buffer.c:168-184 | the unread bytes move to the front |
| `SshBuffers.SshBuffer.AddData` | thirdparty/libssh/src/buffer.c:223-247 | appends to the queue, or changes nothing exactly when the write position would reach 2^32; afterwards the recorded size is the true one if and only if the array did not grow and it was, or it grew for less than 2^31 unread bytes |
| `SshBuffers.SshBuffer.PrependData` | thirdparty/libssh/src/buffer.c:381-408 | puts bytes before the queue, or changes nothing exactly when the queue would reach 2^32; the recorded size is true under the same condition |
| `SshBuffers.SshBuffer.PassBytes` | thirdparty/libssh/src/buffer.c:512-527 | eats bytes from the front, all or none |
| `SshBuffers.SshBuffer.GetData` | thirdparty/libssh/src/buffer.c:565-576 | returns bytes from the front, all or none |
| `SshBuffers.SshBuffer.Reinit` | thirdparty/libssh/src/buffer.c:195-208 | empties the queue and shrinks the array to at most 128 bytes |
| `SshBuffers.ForgetSize` | thirdparty/libssh/src/buffer.c:129-162 | adding 2^31 bytes to a new buffer leaves the right queue and a recorded size of zero |
| `SshBuffers.SshBuffer.RestLen` | thirdparty/libssh/src/buffer.c:494-497 | the length of the queue |
| `SshBuffers.SshBuffer.Rest` | thirdparty/libssh/src/buffer.c:466-468 | the front of the queue, left in place |
| `SshBuffers.SshBuffer.HalfUsed` | thirdparty/libssh/src/buffer.c:129-162 | a buffer whose recorded size is true has used at most 2^31 bytes |
| `SshPack.UnpackPacked` | thirdparty/libssh/src/buffer.c:699-1021 | unpacking a queue that begins with packed values returns them and leaves the rest |
| `SshPack.PackUnpacked` | thirdparty/libssh/src/buffer.c:699-1021 | conversely, whatever can be unpacked is what packing those values writes |
| `SshPack.TextBack` | thirdparty/libssh/src/buffer.c:777-785 | text is packed without a length and unpacked as so many raw bytes |
| `SshPack.NothingDecoded` | thirdparty/libssh/src/buffer.c:885-966 | when a letter gets no value, and that a length read stays read |
| `SshPack.Pack` | thirdparty/libssh/src/buffer.c:699-809 | appends the encodings in order; an empty format fails; after a failure a prefix of the encoding is in the buffer |
| `SshPack.PackOne` | thirdparty/libssh/src/buffer.c:725-787 | one value; a C string's length may go in without its bytes |
| `SshPack.Unpack` | thirdparty/libssh/src/buffer.c:854-1021 | takes the values in order; an empty format fails; after a failure what was read stays read |
| `SshPack.GetOne` | thirdparty/libssh/src/buffer.c:885-966 | one value or none |
| `SshPack.GetString` | thirdparty/libssh/src/buffer.c:629-653 | a length-prefixed string; the length is consumed even when the bytes are missing |
| `ChannelProtocol.EveryReachableState` | thirdparty/libssh/src/channels.c:345-567 | in every state reachable by any interleaving, both directions: window conservation; the clamp is never taken; the sender's window does not wrap; every accepted byte is read, buffered or on its way, in order, per stream; packets leave ten bytes of the limit free |
| `ChannelProtocol.RunKeepsInv` | thirdparty/libssh/src/channels.c:345-567 | the invariant over every run |
| `ChannelProtocol.StepKeeps` | thirdparty/libssh/src/channels.c:345-567 | each step of either end keeps it in both directions |
| `ChannelProtocol.DeliverKeepsIn` | thirdparty/libssh/src/channels.c:513-532 | a delivery keeps it, and data fits the window |
| `ChannelProtocol.DeliverKeepsOut` | thirdparty/libssh/src/channels.c:464 | a window adjustment does not overflow |
| `ChannelProtocol.SendKeeps` | thirdparty/libssh/src/channels.c:1264-1335 | a packet of a write keeps it |
| `ChannelProtocol.GrantKeeps` | thirdparty/libssh/src/channels.c:356-387 | growing a window, or leaving it, keeps both directions |
| `ChannelProtocol.BeginKeeps` | thirdparty/libssh/src/channels.c:2668-2672 | growing the window before a read keeps it |
| `ChannelProtocol.TakeKeeps` | thirdparty/libssh/src/channels.c:2698-2702 | handing out buffered bytes keeps both directions |
| `ChannelProtocol.EndKeeps` | thirdparty/libssh/src/channels.c:2695-2713 | taking data and growing the window keeps it |
| `ChannelProtocol.FinishKeeps` | thirdparty/libssh/src/channels.c:1065-1097 | the end of file keeps it: no data follows |
| `ChannelProtocol.EndOfFileIsComplete` | thirdparty/libssh/src/channels.c:2695-2697 | at the end of file with empty buffers everything ever accepted has been read |
| `ChannelProtocol.ReachableWriteCompletes` | thirdparty/libssh/src/channels.c:345-567 | progress: from every state that any interleaving reaches, for any data on either stream, there is a legal continuation after which the writer has accepted all of it and the other end has read everything ever accepted, on both streams |
| `ChannelProtocol.WriteCompletes` | thirdparty/libssh/src/channels.c:345-567 | the same from every state of the invariant, whatever its windows, buffers and messages on their way |
| `ChannelProtocol.TakeIn` | thirdparty/libssh/src/channels.c:470-540 | an end can always take in and read everything on its way to it, without touching the other end but for grants |
| `ChannelProtocol.OpenWindow` | thirdparty/libssh/src/channels.c:2668-2711 | from every state the writer's window can be opened |
| `ChannelProtocol.NoWindowDeadlock` | thirdparty/libssh/src/channels.c:2668-2711 | with nothing on its way and the sender's window closed, the receiver's is closed too, and its next read sends a grant of at least WINDOWBASE before it waits |
| `ChannelProtocol.WriteIsRun` | thirdparty/libssh/src/channels.c:1264-1335 | a blocking write with the deliveries it handles is a run of the system |
| `ChannelProtocol.ReadIsRun` | thirdparty/libssh/src/channels.c:2627-2714 | so is a blocking read |
| `ChannelModel.WriteSendsPrefix` | thirdparty/libssh/src/channels.c:1203-1350 | a write sends exactly the bytes it reports, in order, on its own stream, in packets of at least one byte that leave ten bytes of the limit free; it stops short only with the window closed and nothing arriving |
| `ChannelModel.ChunkBounds` | thirdparty/libssh/src/channels.c:1265-1289 | the size of a packet is positive and the largest that data, window and the packet limit less ten allow; below a limit of ten the subtraction wraps |
| `ChannelModel.FirstPacket` | thirdparty/libssh/src/channels.c:1264-1331 | through an open window the first packet goes out at once and carries the least of data, window and limit less ten |
| `ChannelModel.ClosedWindow` | thirdparty/libssh/src/channels.c:1271-1283 | through a closed window a message is handled first, or the write gives up |
| `ChannelModel.FullPackets` | thirdparty/libssh/src/channels.c:1264-1331 | with a window for all the data a write waits for nothing, and every packet but the last carries the limit less ten |
| `ChannelModel.ReadBeginGrows` | thirdparty/libssh/src/channels.c:2668-2672 | the window is made large enough for the count asked for, by a grant of exactly what is missing to the larger of that and 1280000, sent if and only if it was not large enough; from 2^31 missing bytes on only 1280000 is seen to |
| `ChannelModel.ReadEndGrows` | thirdparty/libssh/src/channels.c:2695-2711 | a read takes the first bytes up to the count, and makes a window below 640000 1280000, except at the end of the stream |
| `ChannelModel.WaitsUntilReady` | thirdparty/libssh/src/channels.c:2674-2694 | a read handles messages up to the first moment at which a byte is buffered or the end known, and no further |
| `ChannelModel.WireRoundTrip` | thirdparty/libssh/src/channels.c:1291-1315 | the packet as packed, a length and raw bytes, is received as one string with the same payload |
| `ChannelModel.WireBytes` | thirdparty/libssh/src/channels.c:1291-1315 | the bytes of a data packet, with its type 94 or 95 |
| `Channels.Channel.constructor` | thirdparty/libssh/src/channels.c:79-118 | a channel with empty buffers |
| `Channels.Channel.GrowWindow` | thirdparty/libssh/src/channels.c:345-394 | announces what is missing to the larger of the minimum and WINDOWBASE, if anything is |
| `Channels.Channel.RcvChangeWindow` | thirdparty/libssh/src/channels.c:437-467 | adds to the remote window modulo 2^32 |
| `Channels.Channel.RcvData` | thirdparty/libssh/src/channels.c:470-540 | buffers the payload, whenever the buffer takes it, and shrinks or clamps the window |
| `Channels.Channel.RcvEof` | thirdparty/libssh/src/channels.c:569-595 | notes the end of file |
| `Channels.Channel.Handle` | thirdparty/libssh/src/channels.c:437-595 | dispatches a message to its handler, whenever the buffer takes its data |
| `Channels.Channel.WriteCommon` | thirdparty/libssh/src/channels.c:1203-1350 | rejects data of 2^31 bytes and more and writes after the end of file; otherwise packets, windows and return value of the specified loop, each packet leaving ten bytes of the limit free |
| `Channels.Channel.WriteAll` | thirdparty/libssh/src/channels.c:1264-1344 | the loop itself, waiting while the window is closed |
| `Channels.Channel.SendPacket` | thirdparty/libssh/src/channels.c:1265-1331 | one packet of a write |
| `Channels.Channel.ReadTimeout` | thirdparty/libssh/src/channels.c:2627-2714 | grow, wait, take and grow again, as specified |
| `Channels.Channel.StartRead` | thirdparty/libssh/src/channels.c:2654-2672 | the growth before the wait, so that buffer and window together hold the count asked for |
| `Channels.Channel.Ready` | thirdparty/libssh/src/channels.c:2566-2574 | whether the wait is over |
| `Channels.Channel.FinishRead` | thirdparty/libssh/src/channels.c:2695-2713 | what is taken, and the growth after it |
| `Channels.Channel.TakeBuffered` | thirdparty/libssh/src/channels.c:2698-2702 | the first bytes of a buffer, at most the count, and what is left |
| `Channels.Channel.SendEof` | thirdparty/libssh/src/channels.c:1065-1097 | sends the end of file and closes the writing side |
| `RationalArithmetic.CompareExpansions` | thirdparty/boost/boost/rational.hpp:413-495 | the continued-fraction comparison terminates and decides num1*den2 < num2*den1, all signs and the early exit included |
| `RationalArithmetic.FloorDivide` | thirdparty/boost/boost/rational.hpp:428-441 | truncated division and the loop that makes the remainder non-negative |
| `RationalArithmetic.SumIsNormalised` | thirdparty/boost/boost/rational.hpp:284-297 | the proof sketched in the source: dividing by gcd(t, g) alone normalises the sum |
| `RationalArithmetic.ProductIsNormalised` | thirdparty/boost/boost/rational.hpp:333-345 | cancelling crosswise leaves a normalised product |
| `RationalArithmetic.NormalFormUnique` | thirdparty/boost/boost/rational.hpp:523-527 | a normalised fraction is determined by its value |
| `RationalArithmetic.EqualsIsNumericEquality` | thirdparty/boost/boost/rational.hpp:523-527 | memberwise equality decides equality of numbers |
| `RationalArithmetic.IsNormalizedExactly` | thirdparty/boost/boost/rational.hpp:248-252 | the constant-expression test accepts exactly the normal forms |
| `RationalArithmetic.InnerGcdIsGcd` | thirdparty/boost/boost/rational.hpp:232-234 | the recursive gcd on signed remainders |
| `RationalArithmetic.Rational.constructor` | thirdparty/boost/boost/rational.hpp:154 | normalises its arguments |
| `RationalArithmetic.Rational.Normalize` | thirdparty/boost/boost/rational.hpp:545-578 | normal form of the same number; a zero denominator is rejected |
| `RationalArithmetic.Rational.AddAssign` | thirdparty/boost/boost/rational.hpp:279-310 | the exact sum in normal form, also when the operand is the object itself |
| `RationalArithmetic.Rational.SubAssign` | thirdparty/boost/boost/rational.hpp:314-330 | the exact difference in normal form |
| `RationalArithmetic.Rational.Accumulate` | thirdparty/boost/boost/rational.hpp:299-310 | the body shared by both |
| `RationalArithmetic.Rational.MulAssign` | thirdparty/boost/boost/rational.hpp:333-345 | the exact product in normal form |
| `RationalArithmetic.Rational.DivAssign` | thirdparty/boost/boost/rational.hpp:348-374 | the exact quotient in normal form; a zero divisor is rejected and changes nothing |
| `RationalArithmetic.Rational.Less` | thirdparty/boost/boost/rational.hpp:413-495 | the numerical order |
| `RationalArithmetic.Rational.LessThanInt` | thirdparty/boost/boost/rational.hpp:498-513 | the order against an integer |
| `RationalArithmetic.Rational.GreaterThanInt` | thirdparty/boost/boost/rational.hpp:516-519 | and the converse order |

## Left out

- Cipher, HMAC, PBKDF2, MD5 and LZMA internals, the key file and passwords: foreign code, abstract here.
- The file, S3 and SSH data stores, file streams and file information: input and output.
- `listSnapshots`, `compactRepository`, `changePassword`: listing and key management, not part of the restore path.
- The command line, progress callbacks and cancellation: user interface.
- The floating-point estimate of the hash width (libnebula/Repository.cpp:515): an arbitrary integer, clamped as the code clamps it.
- The list of file extensions that are not compressed, and path normalisation: the caller supplies the compression type and the normalised path.
- The rolling hash's table drawn from the key by a cipher: an arbitrary table of 256 unsigned 32-bit numbers.
- Mutexes, secure zeroing, allocation failure, file shredding.
- An entry whose object ids would lie outside the vector: undefined in the program; the invariant excludes it, and `DownloadFile` requires it excluded.
- SnapshotStore.Snapshot.Load: says nothing of the snapshot's state after a failed load, which callers discard; and where the last string of the buffer has no terminating zero, which no save produces, the program reads past the buffer (libnebula/Snapshot.cpp:156-160, 230-236) and the model takes the string to end with the buffer.
- Width of in-memory indices and counts in a snapshot: unbounded until saved; that they fit the format is a hypothesis of saving.
- `BufferedInputStream::size`, `canRewind` and closing of streams: they would add only easy members.
- `buffer_pass_bytes_end`: beyond the unread length it can put the write position below the read position.
- `buffer_add_buffer`, `buffer_get_mpint`, bignums in formats, null pointers, argument counts and the canary of pack and unpack: plumbing around the modelled loops.
- SshPack.Pack: does not say exactly when packing fails near 4 GiB, because that depends on array growth in between; it is never below 2^32 bytes used.
- Data callbacks (thirdparty/libssh/src/channels.c:541-563), channel opening, requests and closing, protocol version 1, key re-exchange and session errors: only the data path of an open channel is modelled.
- Channels.Channel.RcvData: requires the write position to stay below 2^32 with the new data, because otherwise the program frees the buffer and the stream is lost; so does `Channels.Channel.Handle`. The hypothesis of a delivery in `ChannelProtocol`, and of the calls that wait, is that less than 2^31 bytes are unread.
- Channels.Channel.WriteCommon: requires a remote packet limit other than 10, because with that limit the loop sends empty packets for ever.
- SnapshotModel.AddKeepsInv: does not ask about a path that does not rejoin (the condition is proved to be exact); entries under such a path are left out of the snapshot's laws.
- Mixed-mode arithmetic of rationals with integers, input and output of rationals: simpler cases of what is proved.
- base64, crc32, the other Boost headers, the LZMA helpers, authentication, agent, bind and configuration code of libssh.
