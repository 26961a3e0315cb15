# A verified model of the boa_idb storage engine

This project models the filesystem backend of boa_idb in Dafny: the write-ahead log, commit, replay, compaction and
reopening over files that may fail or stop at any step, undo-log transactions with nested requests, the lazy merge
cursor, and the keyset paging of the SQLite cursor. Every method is proved against a specification that does not
follow its loop: parsers and serializers for the codecs, an automaton for recovery, a stack of full snapshots for the
undo log, the sorted merged set for the cursor, and the history of committed states for the database.

Code that changes things in place is a class or a method with a loop; encodings, orders and meanings are functions.
`dafny verify dfyconfig.toml` checks the whole project.

## How it fits together

- `Bytes`, `Codec`: machine words, little-endian fields, CRC-32C, and parsers that are inverse to encoders.
- `Wal`, `WalRecovery`, `WalPacker`: the log's frames, recovery of whole transactions from any bytes, the greedy packer.
- `Keys`, `MergeWalk`, `Cursor`: byte order in both directions, the merge of a committed map with an overlay, the cursor.
- `Meta`, `Segment`: metadata, manifest and segment encodings with their decoders.
- `State`, `Savepoints`, `Txn`: the database's content, the snapshot-stack model, the transaction object that refines it.
- `Plain`, `Requests`: a plain database without overlays or logs, which a transaction reads as after any script; what one
  whole transaction asks for, and that overlay, patched metadata and merge together make exactly that of the content.
- `Apply`, `Commit`: replay of frames, the commit payload, and that the two commute.
- `Disk`: the file map with a schedule of faults. Every operation may work, report an error (an append may leave part
  of its bytes), or stop the machine before or after its effect. A crash may cut any log between its synced length and
  its end, and may bring back any earlier version of the metadata file.
- `Generation`, `History`, `Database`: one published generation of files, the history of committed states, and the open
  database. `Kept` is the invariant that holds after every file operation of every run: the files hold the generation,
  the generation's states are the end of the history, and every promise (a Strict or schema-changing commit that
  returned success) is on stable storage. `Live` adds that memory and log are in step; `Stable` says that opening may
  bring the metadata file up to date. A run may stop at any file operation, lose power, or lose only its process, which
  leaves the files, unsynced bytes included, to the next one. After an unsafe healing (see below) the log is in debt: it
  counts as synced, the file system keeps apart how much of it really is (`FileSystem.Real`), and only a sync pays.
- `Limits`: whole runs from an empty disk that show where the engine does less than it is meant to.
- `SqlitePaging`, `SegmentGuards`: paging over an abstract ordered result; segment files and who holds them.

## What the proofs found

- Backward walks without an upper bound are blind to a source that also holds entries of a higher store or index id,
  because the peek stops at the foreign id. `Cursor.HiddenStoreCounterexample` gives an input;
  `Cursor.PlainWalkIsComplete` and `Cursor.BackwardUniqueIsComplete` give the exact condition. A closed upper limit
  does not help an index walk, whose bound helper only uses an open one.
- A backward seek to an index key leaves out the very group it names, but for an empty primary key, since its floor is
  the group's smallest possible entry: `Cursor.BackwardIndexSeekSkipsGroup`, with an input in
  `Cursor.SkippedGroupExample`.
- Rolling a request back restores the key generators as they read, not the pending map: undoing a first
  `key_gen_set` re-inserts the merged value. `Txn.FsTxn.AbandonRequest` gives the map that is left, which is the old one
  if and only if the transaction is read-only or every store the request set was pending already. So a transaction
  that only rolled a request back is quiet exactly when the request set no generator (`Limits.AbandonedIsQuiet`);
  `Limits.RolledBackStillCommits` is a commit of such a transaction that writes a generator and the metadata.
- Opening brings the metadata file up to date with the whole log, synced or not. When a process dies between the append
  and the sync of a commit, the next one may so write metadata of a transaction that a later power loss takes away.
  `Generation.HealsSafely` decides from the files whether that is harmless: there is a segment, or the synced part of
  the log replaces the metadata (or the metadata is still the empty one) and every generator the metadata shows is
  stored by then or shows the first value. `Generation.HealsSafelyMeans` states it over the generation's states.
  `Database.FsDatabase.Open` keeps the invariant if and only if that holds or nothing was written; otherwise
  (`Generation.UnsafeMisopens`) some crash leaves files that open to other content than their log holds: a metadata
  change without its transaction, or a generator value of a transaction that is gone. `Limits.HealedTooEarly` is a run
  that ends in no state of its history, `Limits.LostGeneratorExample` a log and a metadata file of the second kind.
  Until a power loss nothing is gone: the files as they are still open to the last state
  (`Database.FsDatabase.OpensToTheLast`), and the first sync of the log, by a Strict or schema-changing commit, a flush or
  a compaction, makes them safe again (`Limits.HealedThenFlushed`).
- A jump of the SQLite cursor panics when a page on the way makes the buffer longer than 512 rows while the target is
  still past it: the drop is then asked for more rows than there are. `SqlitePaging.SqliteCursor.Step` has the exact
  condition; single steps, and targets within 512 rows of the first buffered one, never panic.
  `SqlitePaging.JumpOverAThousand` is an input.

SQLite paging would stop early at a full page of equal rows with more after it (`SqlitePaging.PagingIsComplete`); the
schema's primary keys exclude it (`SqlitePaging.UniqueRowsPage`), so this is no failure of the code.

## Assumptions

- One open handle, and writers run one after another, from begin to commit.
- Of the checksum the proofs use only that a flipped bit changes it.
- Lengths and counts fit the 32-bit fields they are cast to (`Commit.Encodable`, `Segment.ValFits`); the maximum frame
  payload is at most `MAX_FRAME_PAYLOAD`; a compaction starts with file numbers below 2^64 - 1; a whole SQLite walk is
  over fewer than 2^64 rows.
- The truncate after a failed commit fails only when the machine stops. An atomic write fails only before its rename.
- A replaced file is seen after a crash either whole or not at all. What survives a power loss is on stable storage.
- A truncation is on stable storage at once, although it is never synced. A frame that was synced, and then cut off
  because the metadata could not be written, could otherwise be back after a power loss.
- Reading a file that is there works.

## Model

| member | source | states |
|---|---|---|
| Bytes.WordRoundTrip | crates/boa_idb_fs/src/wal.rs:377-383 | little-endian words read back as the value written, at 2, 4 and 8 bytes |
| Bytes.LittleEndian | crates/boa_idb_fs/src/wal.rs:377-383 | the least significant byte comes first |
| Bytes.FlippedBitShows | crates/boa_idb_fs/src/wal.rs:138-142 | a message with one bit flipped has another checksum |
| Codec.ParseBytes32Inverts | crates/boa_idb_fs/src/segment.rs:181-193 | a length-prefixed byte string reads back, with any bytes after it left over |
| Codec.Reader.Take | crates/boa_idb_fs/src/segment.rs:205-213 | taking n bytes answers exactly when n bytes are left, and leaves the rest |
| Wal.VarintInverts | crates/boa_idb_fs/src/wal.rs:564-592 | LEB128 of any 64-bit value reads back whatever follows it |
| Wal.WriteVarint | crates/boa_idb_fs/src/wal.rs:564-575 | the shifting loop writes the recursive base-128 digits |
| Wal.ReadVarint | crates/boa_idb_fs/src/wal.rs:578-592 | the loop reads what the parser reads, failing on the same inputs, with the 64-bit shift limit and wrap-around |
| Wal.VarintLen | crates/boa_idb_fs/src/wal.rs:316-324 | the counted length is the serialized length |
| Wal.OpRoundTrip | crates/boa_idb_fs/src/wal.rs:432-562 | every operation of every kind decodes to itself, leaving any trailing bytes |
| Wal.EncodeOp | crates/boa_idb_fs/src/wal.rs:432-479 | the encoder writes the kind byte and the body that the parser inverts |
| Wal.OpEncodedLen | crates/boa_idb_fs/src/wal.rs:335-354 | the predicted length of an operation is its serialized length |
| Wal.PayloadRoundTrip | crates/boa_idb_fs/src/wal.rs:482-562 | a payload decodes to the list of operations it was made from |
| Wal.PayloadIsExact | crates/boa_idb_fs/src/wal.rs:482-562 | a payload with anything behind it is refused |
| Wal.KindIsRead | crates/boa_idb_fs/src/wal.rs:497-560 | an operation is read only behind its own kind byte |
| Wal.DecodeOps | crates/boa_idb_fs/src/wal.rs:482-562 | the decoding loop accepts and rejects exactly what the payload parser does, on arbitrary bytes |
| Wal.FrameRoundTrip | crates/boa_idb_fs/src/wal.rs:106-152 | a frame followed by any bytes decodes to that frame and its exact length, if and only if its payload is within the format's limit |
| Wal.TornFrame | crates/boa_idb_fs/src/wal.rs:114-152 | every proper non-empty prefix of a frame is reported as torn, whatever its bytes |
| Wal.DecodedMeans | crates/boa_idb_fs/src/wal.rs:114-152 | on arbitrary bytes, exactly what is taken for a frame: magic number, length within the limit and the input, a stored word that is the checksum of everything before it, and a payload that decodes |
| Wal.CorruptFrame | crates/boa_idb_fs/src/wal.rs:135-142 | a body with any word but its checksum behind it is a checksum defect, whatever follows |
| Wal.FlippedFrame | crates/boa_idb_fs/src/wal.rs:135-142 | a frame with one flipped bit in its body, outside the length, is no frame |
| Wal.DecodeFrameLocal | crates/boa_idb_fs/src/wal.rs:114-152 | decoding a frame depends only on the bytes it consumes |
| Wal.EncodeFrameLimited | crates/boa_idb_fs/src/wal.rs:366-385 | encodes the frame, or reports the payload size exactly when it exceeds the limit |
| WalRecovery.RecoverCommittedFrames | crates/boa_idb_fs/src/wal.rs:161-225 | the one-pass scan finds what repeatedly splitting off whole transactions finds |
| WalRecovery.RecoveredIsAccepted | crates/boa_idb_fs/src/wal.rs:161-225 | on arbitrary bytes the recovered prefix spells exactly the recovered frames, and they are whole groups of the grammar CONTINUES* COMMIT with one sequence number each |
| WalRecovery.RecoveredIsLongest | crates/boa_idb_fs/src/wal.rs:161-225 | no longer prefix of the bytes spells whole groups |
| WalRecovery.RecoverThenAppend | crates/boa_idb_fs/src/database.rs:102-109 | bytes after the recovered prefix never change it: whatever is appended there is recovered after the old frames |
| WalRecovery.TruncateIsFixedPoint | crates/boa_idb_fs/src/database.rs:107-109 | recovering the truncated log changes nothing |
| WalRecovery.TxnCut | crates/boa_idb_fs/src/wal.rs:161-225 | a transaction cut anywhere yields no frame of it; a whole one yields all of it |
| WalRecovery.WholeWithinIsMaximal | crates/boa_idb_fs/src/wal.rs:161-225 | the transactions counted as lying within n bytes fit in n bytes, and one more would not |
| WalRecovery.CrashRecoversWholeTransactions | crates/boa_idb_fs/src/wal.rs:161-225 | crash atomicity: a log of transactions cut at any byte recovers exactly the transactions wholly before the cut, with the prefix length at the end of the last one |
| WalRecovery.AppendAfterRecovery | crates/boa_idb_fs/src/wal.rs:161-225 | a transaction appended at the end of the valid prefix of any bytes is recovered as its own transaction and nothing more |
| WalRecovery.RecoveryStops | crates/boa_idb_fs/src/wal.rs:208-220 | recovery ends before the transaction that breaks off in bytes that are no frame, with none of its frames |
| WalRecovery.CorruptionStopsRecovery | crates/boa_idb_fs/src/wal.rs:208-220 | a wrong checksum in any frame ends recovery before its transaction, whatever follows |
| WalRecovery.FlippedBitStopsRecovery | crates/boa_idb_fs/src/wal.rs:208-220 | so does one flipped bit |
| WalPacker.GroupOps | crates/boa_idb_fs/src/wal.rs:254-300 | the one-pass grouping with its running length is the greedy split; it fails at the first operation that no frame can hold |
| WalPacker.EncodeTxnFramesLimited | crates/boa_idb_fs/src/wal.rs:238-313 | succeeds if and only if every operation fits a frame alone; writes the frames of the greedy split |
| WalPacker.FitsAloneMeans | crates/boa_idb_fs/src/wal.rs:265-285 | an operation fits alone exactly when a payload of only it is within the limit |
| WalPacker.PackPartitions | crates/boa_idb_fs/src/wal.rs:254-300 | the groups are non-empty, each within the payload limit, and flatten back to the operations in order |
| WalPacker.PackIsFewest | crates/boa_idb_fs/src/wal.rs:254-300 | no order-preserving split into groups within the limit has fewer frames |
| WalPacker.TxnFramesAreATxn | crates/boa_idb_fs/src/wal.rs:238-313 | the frames are CONTINUES up to one final COMMIT, one sequence number, and carry the operations in order |
| WalPacker.PackedTxnRecovers | crates/boa_idb_fs/src/wal.rs:161-313 | what the packer appends to a recovered log is recovered after the frames already there |
| Keys.BytesLessMeans | crates/boa_idb_core/src/key/range.rs:57-76 | one string is before another exactly when, after common bytes, it ends or has the smaller byte |
| Keys.ContainsMeans | crates/boa_idb_core/src/key/range.rs:57-76 | a limit itself is in the range exactly when closed, and nothing beyond it is |
| Keys.SortedLists | crates/boa_idb_fs/src/cursor.rs:264-313 | the ordered listing of a key set is strictly ordered in the walking direction and lists exactly the set |
| Keys.DescendingIsReverse | crates/boa_idb_fs/src/cursor.rs:264-313 | the descending listing is the ascending one reversed |
| MergeWalk.PeekIsNearest | crates/boa_idb_fs/src/cursor.rs:264-313 | a peek answers the nearest key the source can still deliver in its scope, and nothing once a foreign id comes first |
| MergeWalk.ReachStep | crates/boa_idb_fs/src/cursor.rs:327-418 | moving a source past its nearest key takes away exactly that key |
| MergeWalk.ExamineStep | crates/boa_idb_fs/src/cursor.rs:327-418 | one pass of the loop removes one key from the unvisited part of the sources and from nothing else; a live one in range is the next row, and a key past the far limit means there is none left |
| MergeWalk.PickIsNearest | crates/boa_idb_fs/src/cursor.rs:327-380 | the picked key is the nearest of both sources, the overlay winning a tie |
| MergeWalk.JumpStep | crates/boa_idb_fs/src/cursor.rs:698-715 | jumping below a group removes exactly the rows of that group and what came before it |
| Cursor.FsCursor.AdvanceStore | crates/boa_idb_fs/src/cursor.rs:327-418 | the loop ends, and shows the first remaining live record or none when none remains |
| Cursor.FsCursor.AdvanceIndex | crates/boa_idb_fs/src/cursor.rs:594-696 | the same for index walks, plain and unique in both directions |
| Cursor.FsCursor.YieldUniqueDescGroup | crates/boa_idb_fs/src/cursor.rs:702-715 | the row shown for a group is its smallest live entry, and nothing of the group remains |
| Cursor.FsCursor.GroupMin | crates/boa_idb_fs/src/cursor.rs:748-809 | the smallest live primary key of the merged group |
| Cursor.FsCursor.Seek | crates/boa_idb_fs/src/cursor.rs:826-859 | positions both sources; in a store it stands on the nearest record at or past the key, or is exhausted exactly when there is none |
| Cursor.FsCursor.Step | crates/boa_idb_fs/src/cursor.rs:861-871 | moves count rows on, or past the end exactly when fewer are left |
| Cursor.CollectRange | crates/boa_idb_core/src/engine/ops_store.rs:161-176 | seek and single steps until there is no more give every row of the walk, in order, with its key, primary key and value |
| Cursor.FirstRows | crates/boa_idb_fs/src/cursor.rs:158-207 | the rows of a walk over the whole range are exactly the entries of the merged map in range that an unhidden source holds |
| Cursor.PlainWalkIsComplete | crates/boa_idb_fs/src/cursor.rs:158-313 | a plain walk in either direction delivers every merged entry of the range if and only if each is held by a source that is not hidden |
| Cursor.WalkYields | crates/boa_idb_fs/src/cursor.rs:594-696 | an unhidden walk yields each merged entry once, or exactly the smallest entry of each index key for the unique directions |
| Cursor.ForwardIsUnhidden | crates/boa_idb_fs/src/cursor.rs:158-178 | forward walks are never hidden, whatever other stores and indexes hold |
| Cursor.ForwardWalkCounts | crates/boa_idb_fs/src/txn.rs:741-851 | a plain forward walk has exactly as many rows as the count over the same source and range |
| Cursor.BackwardIsReverseOfForward | crates/boa_idb_fs/src/cursor.rs:698-809 | PrevUnique yields the pairs of NextUnique in reverse order, and Prev those of Next, as section 6.7 of the Indexed Database API asks |
| Cursor.BackwardUniqueIsComplete | crates/boa_idb_fs/src/cursor.rs:698-809 | a backward unique walk yields every group if and only if some visible entry lies in or above each group |
| Cursor.HiddenStoreCounterexample | crates/boa_idb_fs/src/cursor.rs:182-207 | two stores, one record each: an unbounded backward walk over the first yields nothing |
| Cursor.SeekRows | crates/boa_idb_fs/src/cursor.rs:838-856 | the rows from a seek: in a store the records at or past the key; in an index the entries at or past the pair; for a key alone, forward from its group on, backward below it |
| Cursor.EntriesAre | crates/boa_idb_fs/src/cursor.rs:264-420 | what a walk is about: the merged records of the store, or the merged entries of the index, within the range |
| Txn.WalksWhatItSees | crates/boa_idb_fs/src/txn.rs:818-850 | a cursor over a transaction walks the records and entries the transaction reads |
| Txn.RowIsWhatItSees | crates/boa_idb_fs/src/cursor.rs:315-420 | a store row is the record; an index row has the entry's keys and the value of the record its primary key names |
| Cursor.BackwardIndexSeekSkipsGroup | crates/boa_idb_fs/src/cursor.rs:474-494 | a backward seek to an index key leaves its own group out, but for an empty primary key |
| Cursor.SkippedGroupExample | crates/boa_idb_fs/src/cursor.rs:474-494 | an index with one entry and a backward seek to its key that finds nothing |
| Meta.MetaRoundTrip | crates/boa_idb_fs/src/meta.rs:148-197 | metadata with nested stores, indexes, key paths and UTF-16 names decodes to the value encoded |
| Meta.EncodeMeta | crates/boa_idb_fs/src/meta.rs:148-161 | the encoding loops write the bytes that round trip |
| Meta.DecodeMeta | crates/boa_idb_fs/src/meta.rs:164-197 | the reader loops accept and reject exactly what the metadata grammar does, trailing bytes included |
| Meta.MetaIsMarked | crates/boa_idb_fs/src/meta.rs:164-198 | metadata is read only behind its magic number and version |
| Meta.MetaIsExact | crates/boa_idb_fs/src/meta.rs:164-198 | metadata with anything behind it is refused |
| Meta.UnsealMeans | crates/boa_idb_fs/src/meta.rs:64-76 | sealed bytes are read exactly when their last word is the checksum of what is before it |
| Meta.ManifestRoundTrip | crates/boa_idb_fs/src/meta.rs:47-111 | a manifest decodes to the value encoded, behind its checksum |
| Meta.ManifestIsMarked | crates/boa_idb_fs/src/meta.rs:64-112 | a manifest is read only with its checksum, magic number and version in place |
| Meta.ManifestIsExact | crates/boa_idb_fs/src/meta.rs:64-112 | nothing may stand between the list and the checksum |
| Meta.EncodeManifest | crates/boa_idb_fs/src/meta.rs:47-61 | the loop writes the manifest body and its checksum |
| Meta.DecodeManifest | crates/boa_idb_fs/src/meta.rs:64-111 | the fixed offsets and the loop decode exactly the manifest grammar, on arbitrary bytes |
| Segment.SegmentRoundTrip | crates/boa_idb_fs/src/segment.rs:22-119 | a segment decodes to its number and the whole content it was made from |
| Segment.SegmentIsMarked | crates/boa_idb_fs/src/segment.rs:60-120 | a segment is read only with its checksum, magic number and version in place, and gives its own number and counter |
| Segment.TailIsExact | crates/boa_idb_fs/src/segment.rs:60-120 | nothing may stand behind a segment's lists |
| Segment.ItemsRebuild | crates/boa_idb_fs/src/segment.rs:39-52 | a listing of a map's entries in any order rebuilds the map |
| Segment.EncodeSegment | crates/boa_idb_fs/src/segment.rs:22-57 | an error exactly without metadata; otherwise bytes that read back as the content when all lengths fit |
| Segment.DecodeSegment | crates/boa_idb_fs/src/segment.rs:60-119 | the reader loops accept and reject exactly what the segment grammar does |
| Savepoints.SlotRestores | crates/boa_idb_fs/src/txn.rs:192-200 | the three-valued slot logged before a write or a removal restores the pending map exactly |
| Savepoints.UnwindsAfterLog | crates/boa_idb_fs/src/txn.rs:574-594 | logging the inverse of a change keeps the snapshot of every open request |
| Savepoints.UnwindsAfterMerge | crates/boa_idb_fs/src/txn.rs:374-390 | merging a committed request's log into its parent keeps the parent's snapshot |
| Savepoints.RangeDeletedInSteps | crates/boa_idb_fs/src/txn.rs:624-692 | the two sweeps of a range deletion leave a tombstone for every committed record in range and no pending-only record there, and count what was live |
| Savepoints.RangeDeletedReads | crates/boa_idb_fs/src/txn.rs:624-692 | a range deletion removes exactly the effective records in range and leaves every other slot as it was |
| Savepoints.PrimaryDeletedLeavesNone | crates/boa_idb_fs/src/txn.rs:930-954 | deleting by primary key leaves no merged entry for it in that index and every other entry as it was |
| Savepoints.RollbackRestores | fuzz/fuzz_targets/fuzz_stateful_txn.rs:72-78 | for every well-nested script with any data operations inside, rolling its request back restores the whole state as it was, inner requests committed or not |
| Savepoints.CommitKeeps | fuzz/fuzz_targets/fuzz_stateful_txn.rs:68-70 | committing the request keeps what the script did and closes just its savepoint |
| Plain.RunReads | fuzz/fuzz_targets/fuzz_stateful_txn.rs:17-96 | after any script, overlay, tombstones and savepoints read as a plain database with snapshots does, refusals included |
| Plain.CheckReads | crates/boa_idb_fs/src/txn.rs:550-595 | the reasons for a refusal, the key quota among them, can be told from what is read |
| Plain.DataReads | crates/boa_idb_fs/src/txn.rs:550-954 | one operation is refused for what is there, and otherwise changes what is read as on a plain map or set |
| Plain.ReplayIsPlain | crates/boa_idb_fs/src/apply.rs:20-68 | a logged operation replays as the request it comes from |
| Savepoints.RunKeepsQuota | crates/boa_idb_fs/src/txn.rs:152-156 | no script takes a transaction that starts within its key limit over it, at any savepoint it can return to |
| Savepoints.RunKeepsUnique | crates/boa_idb_fs/src/txn.rs:875-907 | if every insertion into an index checks, no script gives an index key a second live primary key, at any savepoint it can return to |
| Txn.FsTxn.BeginRequest | crates/boa_idb_fs/src/txn.rs:368-372 | pushes a full snapshot in the model |
| Txn.FsTxn.CommitRequest | crates/boa_idb_fs/src/txn.rs:374-390 | drops the innermost snapshot in the model; an error exactly when none is open |
| Txn.FsTxn.RollbackRequest | crates/boa_idb_fs/src/txn.rs:392-430 | restores the innermost snapshot in the model, the key count with it |
| Txn.FsTxn.Put | crates/boa_idb_fs/src/txn.rs:550-595 | refused for scope, mode, an existing key or the quota, as what is there decides; otherwise the records read as before with this value at this key |
| Txn.FsTxn.Get | crates/boa_idb_fs/src/txn.rs:597-601 | the value of the merged record map that the transaction stands for |
| Txn.FsTxn.DeleteRecord | crates/boa_idb_fs/src/txn.rs:603-622 | the records read as before without the key; answers whether it was there |
| Txn.FsTxn.DeleteRange | crates/boa_idb_fs/src/txn.rs:624-692 | the records read as before without those of the range; answers how many these were |
| Txn.FsTxn.Clear | crates/boa_idb_fs/src/txn.rs:694-739 | the records read as before without those of the store |
| Txn.FsTxn.Count | crates/boa_idb_fs/src/txn.rs:741-816 | the number of merged entries of the source in the range |
| Txn.CountLive | crates/boa_idb_fs/src/txn.rs:745-812 | committed entries the overlay keeps plus entries only the overlay has are all the merged entries, each counted once |
| Txn.FsTxn.KeyGenSet | crates/boa_idb_fs/src/txn.rs:863-873 | the generator reads as set and the others as before; undone by its merged old value |
| Txn.FsTxn.FindIndexEntries | crates/boa_idb_fs/src/txn.rs:220-251 | finds exactly the live primary keys under an index key in the merged view |
| Txn.FsTxn.IndexPut | crates/boa_idb_fs/src/txn.rs:875-907 | refused exactly when uniqueness is asked for and another entry has the index key; otherwise the entries read as before with this one |
| Txn.FsTxn.IndexDelete | crates/boa_idb_fs/src/txn.rs:909-928 | the entries read as before without this one |
| Txn.FsTxn.IndexDeleteByPrimary | crates/boa_idb_fs/src/txn.rs:930-954 | the entries read as before without those of the primary key |
| Txn.FsTxn.SetVersion | crates/boa_idb_fs/src/txn.rs:432-441 | only in a version change; nothing but the version and the dirty mark changes |
| Txn.FsTxn.CreateStore | crates/boa_idb_fs/src/txn.rs:443-464 | a fresh id, one more store at the generator's start value |
| Txn.FsTxn.RunScript | fuzz/fuzz_targets/fuzz_stateful_txn.rs:17-96 | the undo log refines the snapshot stack: after any script the object stands for what the model reaches, with its key count equal to the effective records minus the committed ones |
| Txn.FsTxn.AbandonRequest | crates/boa_idb/src/driver.rs:3130-3177 | a request rolled back leaves pending records, pending entries and key count exactly as they were, and generators as they read; the pending generators gain the merged value of every store the request set, and are unchanged if and only if read-only or all of those were pending |
| Apply.PerformFrames | crates/boa_idb_fs/src/apply.rs:9-18 | the loops replay every operation of every frame and raise the sequence counter, or fail exactly on metadata that does not decode |
| Apply.CounterIsBeyond | crates/boa_idb_fs/src/apply.rs:9-18 | after replay the sequence counter has not fallen and is beyond every frame's number |
| Apply.ReplayedMeta | crates/boa_idb_fs/src/apply.rs:46-68 | a replayed generator shows on the first store of its id and nowhere else |
| Apply.MetaKeyGensAre | crates/boa_idb_fs/src/database.rs:92-100 | the first store of each id decides which generator is taken over from the metadata |
| Apply.FramesAreTheirOps | crates/boa_idb_fs/src/apply.rs:9-18 | replaying a transaction does not depend on how it was packed into frames |
| Apply.FramesUnder | crates/boa_idb_fs/src/database.rs:92-100 | replay over generators defaulted from metadata is replay without them, over them |
| Apply.FramesFromAnyMeta | crates/boa_idb_fs/src/apply.rs:66-68 | once a log replaces the metadata, the version replay started from does not matter |
| Apply.CoveredIsHarmless | crates/boa_idb_fs/src/database.rs:92-100 | the generators taken over from metadata cannot be seen when the metadata shows no value that is not stored |
| Commit.MergedKeeps | crates/boa_idb_fs/src/txn.rs:338-364 | uniqueness of an index survives the commit, and the committed key count is the effective one the quota was checked on |
| Commit.PatchOne | crates/boa_idb_fs/src/txn.rs:323-328 | setting pending generators one after another shows each on the first store of its id, in any order |
| Commit.BuildCommitPayload | crates/boa_idb_fs/src/txn.rs:286-336 | one operation for each pending change, and the patched metadata last exactly when schema or generators changed |
| Commit.PayloadFitsMeans | crates/boa_idb_fs/src/txn.rs:286-336 | whatever the order of the maps, every operation of the payload fits a frame if and only if every pending change and the patched metadata do |
| Commit.ApplyPendingToState | crates/boa_idb_fs/src/txn.rs:338-364 | memory becomes what the transaction's merged reads showed |
| Commit.PayloadReplays | crates/boa_idb_fs/src/txn.rs:286-364 | applying the payload's operations to the database gives what the commit makes of it in memory |
| Commit.CommitReplays | crates/boa_idb_fs/src/txn.rs:286-364 | commit and replay commute: the frames of the payload, however packed, replay to the committed records, entries, generators, metadata and sequence counter |
| Requests.AppliedReads | crates/boa_idb_fs/src/txn.rs:286-364 | a committed transaction makes of a content exactly what its script makes of the plain database, with the schema asked for, the generators it set shown on it, and the next sequence number |
| Requests.IdleChangesNothing | crates/boa_idb_fs/src/txn.rs:956-975 | a request with nothing to write, or a read-only one, has changed nothing that is read |
| Requests.WithStoresAdds | crates/boa_idb_fs/src/txn.rs:443-464 | the stores asked for, in order, each under the id that comes next, at the first generator value |
| Requests.WithStoresKeeps | crates/boa_idb_fs/src/txn.rs:443-464 | new stores leave the name, version and old stores alone, and the id counter goes on by their number, wrapping |
| Requests.PendingIs | crates/boa_idb_fs/src/txn.rs:286-336 | the transaction object holds the pending changes of its request |
| Disk.FileSystem.AtomicWrite | crates/boa_idb_fs/src/atomic.rs:9-38 | all of the replacement or none of it, wherever it fails or stops, with a sync between the write and the rename and one after; without faults it works |
| Disk.FileSystem.Append | crates/boa_idb_fs/src/atomic.rs:41-53 | on success all bytes, synced if asked; otherwise some prefix of them; without faults it succeeds |
| Disk.FileSystem.TruncateWal | crates/boa_idb_fs/src/atomic.rs:56-59 | the log cut to the length, or nothing when the machine stops first |
| Disk.FileSystem.Count | crates/boa_idb_fs/src/atomic.rs:41-53 | counting a whole log as synced changes nothing about what is on stable storage; the difference is owed |
| Generation.CrashKeeps | crates/boa_idb_fs/src/database.rs:73-119 | no crash takes the files away from their generation |
| Generation.RestoresExactly | crates/boa_idb_fs/src/database.rs:85-106 | in the first generation, replay of some transactions from given metadata ends in the content after them if and only if they replace the metadata, or it is the empty one, and it shows no generator value they do not store |
| Generation.StateRestores | crates/boa_idb_fs/src/database.rs:85-106 | the metadata a transaction left behind is one from which replay up to it ends right |
| Generation.OpeningRefuses | crates/boa_idb_fs/src/database.rs:73-90 | a missing or corrupt manifest, a segment that is missing, corrupt or of another number, or corrupt metadata is refused |
| Generation.OpeningStarts | crates/boa_idb_fs/src/database.rs:79-100 | replay starts from the segment alone, or from the metadata file, or from empty metadata, with the generators the content does not store taken from the metadata |
| Generation.OpenFinds | crates/boa_idb_fs/src/database.rs:73-119 | opening finds the manifest, a base and the end of the whole transactions, no synced one missing, and ends in the state after exactly those |
| Generation.CrashThenLoad | crates/boa_idb_fs/src/database.rs:73-119 | whatever a crash leaves of a generation opens to the content after exactly the transactions the log still holds whole, every synced one among them |
| Generation.Appending | crates/boa_idb_fs/src/txn.rs:983-995 | while a transaction is being appended, at every byte, the files hold the generation with it |
| Generation.LogCutBack | crates/boa_idb_fs/src/txn.rs:987-1003 | cutting a failed append off again restores the generation and its log bytes |
| Generation.CurrentSwitches | crates/boa_idb_fs/src/meta.rs:128-145 | the rename of CURRENT publishes the next generation: whole segment, empty log, manifest naming both |
| Generation.HealsSafelyMeans | crates/boa_idb_fs/src/database.rs:102-119 | the check on the files holds if and only if the metadata of the last transaction in the log restores the last one on stable storage |
| Generation.UnsafeMisopens | crates/boa_idb_fs/src/database.rs:117-119 | metadata on disk that does not restore the synced transactions: the crash that takes the rest of the log opens to their sequence number with other content |
| Generation.UnchangedIsSafe | crates/boa_idb_fs/src/database.rs:117-119 | when no unsynced transaction changed the metadata, healing is safe |
| Generation.ChangedCanBeSafe | crates/boa_idb_fs/src/database.rs:117-119 | that is not needed: once a synced transaction has replaced the metadata, an unsynced one may change all of it but the stores |
| History.HealingRuins | crates/boa_idb_fs/src/database.rs:117-119 | writing metadata that does not restore what is synced ends the invariant, and some crash then misopens |
| History.HealingOnCredit | crates/boa_idb_fs/src/database.rs:117-119 | but for the sync of the log, healing with the metadata of its last transaction keeps the invariant |
| History.CrashKeepsHistory | crates/boa_idb_fs/src/database.rs:73-119 | a crash keeps generation and history, and healing after it is safe |
| History.MendableIsSafe | crates/boa_idb_fs/src/database.rs:117-119 | a running database may be closed, or its process die between operations, and be opened again safely |
| History.CommitExtends | crates/boa_idb_fs/src/txn.rs:956-1014 | a commit's frames extend the generation by one transaction whose replay is the state memory takes |
| History.CompactionOutcome | crates/boa_idb_fs/src/compact.rs:65-126 | whichever generation a compaction leaves on disk, the whole history is before it |
| History.OpenKeeps | crates/boa_idb_fs/src/database.rs:102-109 | truncating to what was recovered leaves a generation and a history that end with the recovered state, before and after the cut, and does not change whether healing is safe |
| History.EveryCrashIsLost | crates/boa_idb_fs/src/atomic.rs:41-53 | every crash is some choice of cuts and metadata version, so the power losses of a run are all of them |
| Database.FsDatabase.LogTxn | crates/boa_idb_fs/src/txn.rs:983-995 | every frame of the transaction, or the old log bytes, or (stopped) a generation that holds either; without faults every frame |
| Database.FsDatabase.StageNext | crates/boa_idb_fs/src/compact.rs:76-90 | the old generation stays while the segment and the empty log are written; on success both are there |
| Database.FsDatabase.PublishNext | crates/boa_idb_fs/src/compact.rs:83-97 | stopped or failed between any two steps the files hold the old generation or the whole new one; without faults the new one |
| Database.FsDatabase.Reclaim | crates/boa_idb_fs/src/compact.rs:98-109 | exactly the superseded segments that nobody holds go, without faults; no other segment changes |
| Database.FsDatabase.Publish | crates/boa_idb_fs/src/compact.rs:70-109 | memory switches to the new generation exactly when it is published, with fresh counters; otherwise nothing in memory changes; without faults it is published |
| Database.FsDatabase.CompactNow | crates/boa_idb_fs/src/compact.rs:65-126 | content and history unchanged at every stop; success, which is certain without faults, puts all of the history on stable storage and the metadata file in line; memory's generation is the published one, without debt |
| Database.FsDatabase.MaybeCompact | crates/boa_idb_fs/src/compact.rs:49-62 | at either threshold it compacts: empty log, a segment, fresh counters and everything on stable storage; below both nothing changes |
| Database.FsDatabase.Record | crates/boa_idb_fs/src/txn.rs:962-1003 | one state more in the history with its promise, or an error that leaves log bytes, memory and history as they were; the quota error exactly when some operation fits no frame, and without faults no other; a synced one pays the log's debt |
| Database.FsDatabase.RecordFrames | crates/boa_idb_fs/src/txn.rs:980-1003 | the frames of a transaction on disk with the state in the history, or the generation as it was, or, when stopped, in doubt |
| Database.FsDatabase.Commit | crates/boa_idb_fs/src/txn.rs:956-1014 | success appends the committed state to the history and to memory, promised when Strict or schema-changing, with the metadata file in line when it changed; an error leaves log bytes, state and history; a stop leaves the transaction in doubt and nothing else; the quota error exactly when some pending change fits no frame, and without faults success otherwise; a promised one leaves the log without debt |
| Database.FsDatabase.Finish | crates/boa_idb_fs/src/txn.rs:1005-1014 | the counters grow by the bytes and the one group, and the thresholds decide whether a compaction follows |
| History.CounterReaches | crates/boa_idb_fs/src/txn.rs:1005-1010 | the saturating counters reach a threshold exactly when the sum does |
| Database.FsDatabase.Flush | crates/boa_idb_fs/src/database.rs:190-196 | success, which is certain without faults, puts the whole history on stable storage and pays the log's debt |
| Database.FsDatabase.Create | crates/boa_idb_fs/src/database.rs:58-77 | stopped at any step there is still no database, or a whole empty one |
| Database.FsDatabase.ReadBase | crates/boa_idb_fs/src/database.rs:79-100 | the loops load exactly the segments, metadata and defaulted generators that loading is specified to find |
| Database.FsDatabase.Open | crates/boa_idb_fs/src/database.rs:42-132 | without faults it always succeeds; it opens the end of a prefix of the history that holds everything on stable storage; the files stay a generation's, and the invariant holds, if and only if healing was safe or did not write; if not, some crash now leaves files that open to other content than their log holds, and only the sync of the log is missing |
| Database.FsDatabase.Heal | crates/boa_idb_fs/src/database.rs:117-119 | on success the metadata file reads as the content's metadata; the generation stays when that restores what is synced, and otherwise something was written exactly when the file changed |
| Database.FsDatabase.OnCredit | crates/boa_idb_fs/src/database.rs:117-119 | after an unsafe healing the invariant holds with the log counted as synced, what is on stable storage being the same |
| Database.FsDatabase.RecoversFromAnyCrash | crates/boa_idb_fs/src/database.rs:73-119 | at every moment the files as they are, and without debt every crash image of them, open to a state of the history no older than the last promise |
| Database.FsDatabase.OpensToTheLast | crates/boa_idb_fs/src/database.rs:73-119 | the files of an open database, in debt or not, open to the last state of the history |
| Database.FsDatabase.PowerLoss | crates/boa_idb_fs/src/database.rs:42-132 | keeps the history, and healing after it is safe, unless the log is in debt and the cut is below what it counted |
| Database.FsDatabase.Transact | crates/boa_idb_fs/src/database.rs:159-187 | an aborted transaction, or one outside the limits, leaves no trace; a committed one makes of content and memory exactly what it asks for, in script and schema, and adds nothing when there is nothing to write; the quota error exactly when some change fits no frame; without faults it does not fail |
| Database.FsDatabase.Prepare | crates/boa_idb_fs/src/database.rs:159-187 | the prepared transaction holds the pending changes, the schema and the dirty mark of its request |
| Database.FsDatabase.PerformOpen | crates/boa_idb_fs/src/database.rs:159-201 | an event on an open database does without faults exactly what it is for |
| Database.FsDatabase.CutLog | crates/boa_idb_fs/src/database.rs:102-109 | the log is cut to the recovered transactions or the machine stopped; whether healing is safe is the same before and after |
| Database.FsDatabase.ProcessDeath | crates/boa_idb_fs/src/database.rs:42-132 | the process goes and the files stay, unsynced bytes unsynced; if it died between operations, reopening is safe |
| Database.FsDatabase.Reopen | crates/boa_idb_fs/src/database.rs:42-132 | opening keeps the invariant, in debt exactly when it healed unsafely and otherwise no more than before |
| Database.FsDatabase.Perform | crates/boa_idb_fs/src/database.rs:42-201 | one event keeps the invariant unless it is a power loss that takes what a log in debt counted; debt comes only from a reopening that heals unsafely, and that only from a process that died inside an operation; a flush without faults ends it |
| Database.FsDatabase.Run | crates/boa_idb_fs/src/database.rs:42-201 | over every run of transactions, compactions, flushes, closes, stops at any file operation, power losses, process deaths and reopens, every content in the history is what some transaction asked for of the one before it, what was on stable storage is never lost, every promise is kept and the invariant holds, except that a power loss may end the run while the log is in debt; without faults an open database ends in what its transactions, one after another, make of it |
| Database.NewDatabase | crates/boa_idb_fs/src/database.rs:42-132 | on an empty disk without faults the database opens, running, as the first generation with the empty content |
| Limits.AbandonedIsQuiet | crates/boa_idb_fs/src/txn.rs:423-428 | a transaction that only rolled a request back has nothing to write if and only if it is read-only or the request set no generator |
| Limits.RolledBackStillCommits | crates/boa_idb_fs/src/txn.rs:423-428 | from an empty disk: one generator set and rolled back, and the commit adds a state that differs in its sequence number only, and writes the metadata |
| Limits.HealedTooEarly | crates/boa_idb_fs/src/database.rs:117-119 | from an empty disk: a version change appended, the process dead in the sync, a reopening, and a crash image that opens to no state of the history |
| Limits.HealedThenFlushed | crates/boa_idb_fs/src/database.rs:190-196 | the same run with a flush after the reopening: a crash could have misopened before it, and the full invariant holds after |
| Limits.LostGeneratorExample | crates/boa_idb_fs/src/database.rs:92-119 | a synced log that replaces the metadata, and healed metadata that still brings back the generator value of a lost transaction |
| SqlitePaging.ResultHas | crates/boa_idb_sqlite/src/cursor.rs:300-396 | a seek is about all rows, those at or past the key, or those at or past the pair |
| SqlitePaging.ResumesAt | crates/boa_idb_sqlite/src/cursor.rs:700-756 | resuming at the anchor re-reads exactly the anchor's run of rows and then continues, though it drops the seek predicates |
| SqlitePaging.PageAdvances | crates/boa_idb_sqlite/src/cursor.rs:426-487 | a page brings new rows exactly while there are rows to reach, and never overshoots them |
| SqlitePaging.PagingIsComplete | crates/boa_idb_sqlite/src/cursor.rs:402-487 | paging reaches every row if and only if no full page of equal rows has anything after it |
| SqlitePaging.UniqueRowsPage | crates/boa_idb_sqlite/src/cursor.rs:402-487 | with unique rows paging reaches them all |
| SqlitePaging.SqliteCursor.Push | crates/boa_idb_sqlite/src/cursor.rs:402-477 | buffering the next row keeps the window, the anchor at its last row and the count at the length of the run of equal rows before it |
| SqlitePaging.SqliteCursor.FetchNextPage | crates/boa_idb_sqlite/src/cursor.rs:426-487 | the buffer stays a window of the result that drops no unvisited row and holds at most 512 rows; rows are added exactly when more can be reached; the drop panics exactly when the page ends more than 512 rows on and before the position |
| SqlitePaging.SqliteCursor.Seek | crates/boa_idb_sqlite/src/cursor.rs:546-583 | stands on the first row of the narrowed result, or is exhausted exactly when there is none |
| SqlitePaging.FirstLongWithin | crates/boa_idb_sqlite/src/cursor.rs:479-485 | the page end beyond the bound exists exactly when more than 512 rows can be reached from the first buffered one, and is at most 128 over |
| SqlitePaging.SqliteCursor.Step | crates/boa_idb_sqlite/src/cursor.rs:585-596 | a step by any count moves to that row of the result, or is exhausted exactly past the end, or panics exactly when the first page end beyond the bound is before the target |
| SqlitePaging.LongJump | crates/boa_idb_sqlite/src/cursor.rs:479-485 | right after a seek over more than 512 unique rows, every jump of more than 640 panics |
| SqlitePaging.JumpOverAThousand | crates/boa_idb_sqlite/src/cursor.rs:479-485 | two thousand records and a jump over a thousand |
| SqlitePaging.Walk | crates/boa_idb_sqlite/src/cursor.rs:530-596 | a walk by single steps is the unpaged result: every reachable row once, in order, with its value, for each shape and direction |
| SegmentGuards.Handle.BeginReadOnly | crates/boa_idb_fs/src/state.rs:178-195 | a snapshot shares the published segments |
| SegmentGuards.Handle.DropSnapshot | crates/boa_idb_fs/src/state.rs:121-132 | exactly the superseded segments that nobody else holds lose their file |
| SegmentGuards.Handle.Compact | crates/boa_idb_fs/src/compact.rs:71-109 | the new number belongs to no live segment; superseded files go exactly when nobody holds them |
| SegmentGuards.Handle.Run | crates/boa_idb_fs/src/state.rs:77-132 | in every run each published segment and each one a live snapshot holds has its file, and these are the ones the events say |
| SegmentGuards.LastOfMore | crates/boa_idb_fs/src/state.rs:121-132 | dropping references one at a time removes a file exactly with the last reference |

## Left out

- MemoryTxn and MemoryCursor: the same undo log, deletions and merge walk without log and quota; the transaction and cursor models cover their algorithms, not their re-reading of committed rows between steps.
- Other schema operations (deleting and renaming stores and indexes, creating indexes): they edit the metadata list and set the dirty mark; they would add only easy members. Metadata edits are not part of the undo log, in the source or here.
- Txn.FsTxn.KeyGenSet: generator values are opaque 64-bit patterns, not floating-point numbers.
- Database.FsDatabase.Open: the lock file, directory creation and read errors are not modelled.
- Database.FsDatabase.Commit: excludes outcomes whose lengths do not fit, or file numbers that have run out; the error of an append that fails for other reasons than the machine stopping carries no detail.
- Disk.FileSystem.AtomicWrite: temporary file names and contents are not kept, and an error in the directory sync after the rename is taken not to happen.
- File names: `CURRENT` holds a manifest number here, not the text of a file name; number formatting and the path checks on it are left out.
- Disk.FileSystem.TruncateWal: an error of `set_len` while the machine keeps running is taken not to happen, and the cut to be on stable storage at once.
- Commit.BuildCommitPayload: metadata whose lengths exceed their 32-bit fields, which the source would cast, is excluded.
- Database.FsDatabase.PublishNext: states whose lengths exceed their 32-bit fields are excluded.
- Database.FsDatabase.Publish: the same, and file numbers at 2^64 - 1, where the source's increment saturates.
- Database.FsDatabase.CompactNow: excludes what `Publish` does.
- Database.FsDatabase.Record: excludes metadata whose lengths exceed their 32-bit fields.
- Database.FsDatabase.Transact: does nothing where the outcome's lengths would not fit or file numbers have run out; the source commits with cast lengths.
- Database.FsDatabase.MaybeCompact: excludes what `Publish` does.
- SegmentGuards.Handle.Compact: excludes the segment number 2^64 - 1, where the source's increment saturates.
- SqlitePaging.Walk: SQL text, grouping with the smallest primary key, joins that drop orphans and external blob values are behind the abstract ordered result.
- SegmentGuards.Handle.DropGuard: removing a file is taken to work.
- Listing databases by peeking at metadata and log (`load_meta_with_wal`), storage estimates and the snapshot meter: easy members over the same parts.
- Several open handles, overlapping writers and I/O errors after a rename: outside what the code promises.
- Script bindings, event dispatch, SQL execution, connection pools, blob files and tooling.
