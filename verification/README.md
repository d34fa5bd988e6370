# Storage engine, event loop core and message codec

The app's pods contain three self-contained pieces of C and C++ whose behaviour is intricate: the
LevelDB storage engine, the core of libuv, and the nanopb protobuf codec. The Dafny modules here
model them and prove what they promise. `dafny verify dfyconfig.toml` checks everything.

## What is modelled

LevelDB (`DbFormat`, `InternalKey`, `MemTable`, `Coding`, `DBIter`, `Compaction`, `Snapshot`,
`SkipList`, `WriteBatch`, `Log*`, `Recovery`, `MemTableReads`, `GroupCommit`, `Background`,
`WriteQueue`, `WriteProgress`, `WriteRoom`, `WriteSync`, `ReadPath`, `StoreSystem`, `StoreFormats`). The store keeps many
versions of a key; what a snapshot sees of a set of entries is defined once (`DbFormat.Lookup`,
`DbFormat.View`), and the cursor, the memtable, compaction and the layered read path are proved to
agree with it. The log writer and reader are modelled byte by byte, and recovery on top of them.
The write queue, the read path and the skip list are state machines whose steps interleave in
every way. In the write queue every call to Write has its own program counter, and the mutex, the
wait loop, the branches of `MakeRoomForWrite`, the signals and the removal of each writer are steps,
and so are the rounds of the background thread; `StoreSystem` runs it together with the read path and
proves that nothing else is needed to keep writers apart.

libuv (`ThreadPool*`, `Queue`, `Heap`, `Timer`, `Punycode*`, `Inet*`). The heap is the pointer-linked one;
its nodes carry a ghost slot number that the proofs use and the code does not. The worker pool is
a state machine over critical sections, waits and callbacks.

nanopb (`PbWire`, `PbMessage`, `PbIter`, `PbEncode`, `PbDecodeSpec`, `PbDecode`, `PbRoundTrip`,
`PbUnknown`, `PbGrammar`, `PbMeaning`). Descriptors and messages are values; streams, the field iterator and both coders
are imperative.

Where the source changes state in place, the model is a class or a method with a loop, and its
contract ties the new state to a function of the old one; the lemmas are about those functions.

## What the proofs show about the code

- Compaction does change reads when an internal key does not parse: the unparsable key resets the
  drop state, so a value may survive whose deletion mark is dropped. `Compaction.ReadsPreservedIff`
  gives the exact condition and `Compaction.CorruptKeyUncovers` an input.
- With the largest sequence number as the smallest snapshot, the number that stands for no earlier
  entry hides every entry, and compaction drops all that parses (`Compaction.LastSnapshotLosesReads`);
  the theorem covers that case with its own exact condition.
- A write that waits for a compaction is always signalled in the end, except when the database is
  being closed: the thread then ends without making room, and the call waits for good
  (`WriteProgress.NeverStuck`, `WriteProgress.ClosingStrands`).
- A null batch asks for a memtable switch, but one that waits behind a batch is taken into its group
  and returns without a switch of its own (`GroupCommit.GroupIsLongest`); only one that leads gets it
  (`WriteRoom.NullBatchSwitches`).
- A sync reaches the current log file only: records of the log before it that were not synced are not
  brought to disk (`WriteQueue.Apply`, `WriteSync.SyncedIsOnDisk`).
- A damaged block may go unnoticed, but only if the first lost fragment looks like one the writer did
  not finish, or like space set aside and never written (`LogDamage.SilentIff`).
- `uv__run_timers` does not return when every callback ends by starting an open timer to be due at
  once (`Timers.DueAtOnceNeverReturns`); for callbacks that restart one timer it returns exactly with
  a positive timeout before the end of the clock (`Timers.RestartingReturnsIff`), and in general when
  such starts stop at some point (`Timers.RunExists`).
- Encoded names are not quite injective: an ASCII label that spells an encoding gets the same name
  as the label encoded (`PunycodeDecode.NamesCollideIff`).
- The 32-bit varint decoder of nanopb keeps its bit position in eight bits, so digits far behind land at
  low positions again (`PbWire.WrappedDigit`). Up to 37 bytes what it accepts is right, and for every
  greater length it accepts something wrong (`PbWire.LowWordIff`).
- After a failed append the log may hold a torn record with whole ones behind it, and the failed
  batch keeps its sequence numbers; only a failed sync stops later writes.
- Some tests in the source can never succeed: the exhausted inner iterator in `DBIter::Next`
  (db_iter.cc lines 154-158), the root test for the last node in `heap_remove` (heap-inl.h lines
  189-191), the run of seven zero words in `inet_ntop6` (inet.c line 130), and the changed size of
  a submessage in nanopb (pb_encode.c lines 761-762) as long as no callback field is involved.

## Model

| member | source | states |
|---|---|---|
| DBIterator.DBIter.Next | RollingPaper/Pods/leveldb-library/db/db_iter.cc:141-166 | from a valid cursor in either direction, moves to the least key of the snapshot's view above the current one (or becomes invalid when there is none) and yields that key's value |
| DBIterator.DBIter.Prev | RollingPaper/Pods/leveldb-library/db/db_iter.cc:200-225 | from a valid cursor in either direction, moves to the greatest key of the view below the current one and yields its value, or becomes invalid when there is none |
| DBIterator.DBIter.Seek | RollingPaper/Pods/leveldb-library/db/db_iter.cc:269-281 | moves to the least key of the view that is not below the target and yields its value, from any state of the cursor |
| DBIterator.DBIter.SeekToFirst | RollingPaper/Pods/leveldb-library/db/db_iter.cc:283-292 | moves to the least key of the view and yields its value |
| DBIterator.DBIter.SeekToLast | RollingPaper/Pods/leveldb-library/db/db_iter.cc:294-299 | moves to the greatest key of the view and yields its value |
| DBIterator.DBIter.FindNextUserEntry | RollingPaper/Pods/leveldb-library/db/db_iter.cc:168-198 | stops at the first live entry at or after its start past the skip key, and is invalid exactly when there is none |
| DBIterator.DBIter.FindPrevUserEntry | RollingPaper/Pods/leveldb-library/db/db_iter.cc:227-267 | stops at the last live entry at or before its start; the saved key and value are that entry's |
| DBIterator.LiveIsSeen | RollingPaper/Pods/leveldb-library/db/db_iter.cc:168-198 | an entry that is a visible value with no visible entry of its key before it is what a read at the snapshot returns |
| DBIterator.SeenIsLive | RollingPaper/Pods/leveldb-library/db/db_iter.cc:168-198 | conversely every key the snapshot shows has such an entry in the sorted run |
| DBIterator.DBIter.LeastLive | RollingPaper/Pods/leveldb-library/db/db_iter.cc:168-198 | the position a forward scan finds is the least key of the view in the range searched |
| InternalKeys.ParsesIff | RollingPaper/Pods/leveldb-library/db/dbformat.h:165-175 | a byte string parses to a key exactly when it is that key's encoding and the sequence number is in range, so encoding and parsing are inverse to each other |
| InternalKeys.CompareIsOrder | RollingPaper/Pods/leveldb-library/db/dbformat.cc:51-67 | on encoded keys the comparator orders by user key upwards and by packed sequence number and type downwards |
| InternalKeys.TagOf | RollingPaper/Pods/leveldb-library/db/dbformat.cc:14-23 | an encoded key ends in the packed tag and its user key can be cut off again |
| MemTables.MemTable.Add | RollingPaper/Pods/leveldb-library/db/memtable.cc:75-98 | inserts exactly the one encoded entry and keeps the table sorted by internal key |
| MemTables.MemTable.Get | RollingPaper/Pods/leveldb-library/db/memtable.cc:100-134 | answers with the newest entry of the key that the snapshot sees, value or deletion, and reports a miss exactly when it sees none |
| MemTables.SeekMeetsNewest | RollingPaper/Pods/leveldb-library/db/memtable.cc:100-120 | the first entry not before (key, snapshot, largest type) is the newest visible one, if any is visible |
| MemTables.LookupKeyKey | RollingPaper/Pods/leveldb-library/db/dbformat.cc:121-138 | the lookup key is a length-prefixed internal key with the largest type, as the table's comparator reads it |
| MemTableReads.TableAnswer | RollingPaper/Pods/leveldb-library/db/memtable.cc:100-134 | a Get on the table's bytes gives the answer the read path takes from the table's entries |
| MemTableReads.RecoverAndGet | RollingPaper/Pods/leveldb-library/db/db_impl.cc:412-453 | recovering a log cut anywhere and reading across the recovered tables, youngest first, answers every Get before the first lost batch as all batches ever logged do, unless a table write fails |
| MemTableReads.GetAcross | RollingPaper/Pods/leveldb-library/db/version_set.cc:281-420 | the first table with an answer, from the youngest on, gives the answer of all tables together |
| MemTableReads.Fill | RollingPaper/Pods/leveldb-library/db/write_batch.cc:112-130 | entries inserted in the order of the log make a valid table with exactly these entries |
| MemTableReads.LostBatchesAreUnread | RollingPaper/Pods/leveldb-library/db/db_impl.cc:412-453 | losing the end of the log changes no read at a snapshot before the first lost batch |
| Coding.FixedRoundTrip | RollingPaper/Pods/leveldb-library/util/coding.cc:9-45 | fixed-width integers decode to what was encoded |
| Coding.VarintRoundTrip | RollingPaper/Pods/leveldb-library/util/coding.cc:47-79 | a 32-bit varint decodes to its value and leaves what follows it |
| Coding.GetVarintIff | RollingPaper/Pods/leveldb-library/util/coding.cc:103-137 | a 32-bit varint is read exactly from at most five bytes of which the last is below 128 and no other, and stands for their digits modulo 2^32 |
| Coding.SliceRoundTrip | RollingPaper/Pods/leveldb-library/util/coding.cc:98-101 | a length-prefixed slice decodes to itself and leaves what follows it |
| Coding.UnmaskMask | RollingPaper/Pods/leveldb-library/util/crc32c.h:29-38 | unmasking a masked checksum gives the checksum |
| Compaction.ReadsPreservedIff | RollingPaper/Pods/leveldb-library/db/db_impl.cc:923-958 | for every sorted input and every smallest snapshot: what the loop leaves keeps all reads from that snapshot on, in every surrounding database, exactly when no dropped deletion mark uncovers a value that an unparsable key kept from being dropped or, when the snapshot is the largest sequence number, every key of the input is deleted with nothing below |
| Compaction.ParsableReadsPreserved | RollingPaper/Pods/leveldb-library/db/db_impl.cc:923-958 | with only parsable keys, compaction changes no read of any key at any snapshot from the smallest one on, at the largest sequence number under the condition above |
| Compaction.LastSnapshotLosesReads | RollingPaper/Pods/leveldb-library/db/db_impl.cc:933-950 | with the largest sequence number as smallest snapshot a single value is dropped and its key reads nothing |
| Compaction.CorruptKeyUncovers | RollingPaper/Pods/leveldb-library/db/db_impl.cc:931-935 | three keys in the comparator's byte order, the middle one with an illegal type byte: the deletion mark is dropped, the older value is kept, and the key reads 42 where it read nothing |
| Compaction.CompactionState.DoCompactionWork | RollingPaper/Pods/leveldb-library/db/db_impl.cc:890-996 | for every smallest snapshot: when the loop succeeds, every output file is complete, and the files hold exactly the surviving entries, in order, each with its exact smallest and largest key, cut where a file is big enough or the next level asks for it and nowhere else; with the largest sequence number as smallest snapshot only unparsable keys survive |
| Compaction.OutputRangesIncrease | RollingPaper/Pods/leveldb-library/db/db_impl.cc:962-985 | the output files cover disjoint, strictly increasing key ranges |
| Compaction.SurvivesIff | RollingPaper/Pods/leveldb-library/db/db_impl.cc:923-958 | with only parsable keys, exactly the entries younger than the smallest snapshot survive, and of each key the one that snapshot sees, unless that is a deletion mark with nothing below |
| Compaction.HiddenByPrevious | RollingPaper/Pods/leveldb-library/db/db_impl.cc:937-948 | rule (A), an older visible entry of the same key earlier in the unbroken stretch, is decided by the entry just before |
| Compaction.SurvivorsSorted | RollingPaper/Pods/leveldb-library/db/db_impl.cc:962-985 | what survives is still sorted |
| Compaction.HarmlessKeepsReads | RollingPaper/Pods/leveldb-library/db/db_impl.cc:890-996 | under that condition every read of every key is the same over what survives and over all entries, with the untouched levels around them |
| Compaction.DeletedReadsNothing | RollingPaper/Pods/leveldb-library/db/db_impl.cc:933-950 | where every key is deleted with nothing below, dropping all of the input changes no read |
| Snapshots.SnapshotList.New | RollingPaper/Pods/leveldb-library/db/snapshot.h:57-70 | links a new snapshot in as the newest and keeps every other link, the ring staying ordered by age and by sequence number |
| Snapshots.SnapshotList.Delete | RollingPaper/Pods/leveldb-library/db/snapshot.h:79-86 | unlinks exactly the given snapshot |
| Snapshots.SnapshotList.FirstIsOldest | RollingPaper/Pods/leveldb-library/db/snapshot.h:47-50 | no live snapshot has a smaller sequence number than the first one of the ring |
| Snapshots.SnapshotList.SmallestSnapshot | RollingPaper/Pods/leveldb-library/db/db_impl.cc:890-894 | the smallest snapshot a compaction must respect is below or at every live snapshot |
| ReadPath.GetReturnsNewest | RollingPaper/Pods/leveldb-library/db/db_impl.cc:1100-1145 | in every interleaving of group inserts, failed groups, memtable switches, flushes, compactions and readers, one group at a time, a finished Get returned the newest entry up to its snapshot of all that was ever inserted, and no group lies half inside its snapshot |
| ReadPath.PastIsStable | RollingPaper/Pods/leveldb-library/db/db_impl.cc:1108-1114 | what can be read at a published sequence number never changes later in the run |
| ReadPath.GetReadsItsTime | RollingPaper/Pods/leveldb-library/db/db_impl.cc:1100-1145 | a Get without a snapshot returns the value of the moment it began, whatever happens meanwhile |
| ReadPath.GetReadsItsSnapshot | RollingPaper/Pods/leveldb-library/db/db_impl.cc:1104-1110 | a Get with a snapshot returns the value of the moment that snapshot was taken |
| ReadPath.GetsEnd | RollingPaper/Pods/leveldb-library/db/db_impl.cc:1117-1135 | an unfinished Get can always go on and needs at most three steps, whatever others do |
| ReadPath.StepKeeps | RollingPaper/Pods/leveldb-library/db/db_impl.cc:535-566 | every step, among them memtable switch, flush and installing a compaction, keeps the layers ordered by age and their union complete |
| ReadPath.TopLayerDecides | RollingPaper/Pods/leveldb-library/db/db_impl.cc:1125-1135 | when upper layers hold only newer entries, the first layer with an answer gives the answer of the union |
| ReadPath.InstallReads | RollingPaper/Pods/leveldb-library/db/version_set.h:347-350 | replacing compaction inputs by their surviving entries changes no read from the smallest snapshot on |
| StoreSystem.WritersExclude | RollingPaper/Pods/leveldb-library/db/db_impl.cc:1209-1226 | in every reachable state of write queue and readers together, a group begins and the memtable is switched only when no other group is being inserted, though no step tests for that |
| StoreSystem.GetReturnsNewestCommitted | RollingPaper/Pods/leveldb-library/db/db_impl.cc:1100-1256 | in every interleaving of calls to Write, failing or not, with switches, flushes, compactions and readers, a finished Get returned the newest value up to its snapshot among the initial entries and those of the committed groups, and its snapshot cuts no group |
| StoreSystem.GetReadsItsTime | RollingPaper/Pods/leveldb-library/db/db_impl.cc:1100-1145 | among calls to Write too, a Get without a snapshot returns what the initial entries and the groups committed when it began show |
| StoreSystem.GetReadsItsSnapshot | RollingPaper/Pods/leveldb-library/db/db_impl.cc:1104-1110 | and a Get with a snapshot what they showed when the snapshot was taken |
| StoreSystem.ReadsFinishedWrites | RollingPaper/Pods/leveldb-library/db/db_impl.cc:1100-1256 | when Write has returned without an error, a Get of a key it wrote that begins afterwards returns the value of that operation or of one with a larger sequence number |
| StoreSystem.OpsOfMember | RollingPaper/Pods/leveldb-library/db/db_impl.cc:1275-1304 | in a group's batch a call's operations stand in order behind those of the calls before it |
| StoreSystem.CommittedIsVisible | RollingPaper/Pods/leveldb-library/db/db_impl.cc:1236-1256 | a settled group lies at or before the last sequence number, and a committed one is in the store with all its operations |
| StoreSystem.PastIsStable | RollingPaper/Pods/leveldb-library/db/db_impl.cc:1108-1114 | in the combined system too, what can be read at a published sequence number never changes later |
| StoreSystem.LeaderIsAlone | RollingPaper/Pods/leveldb-library/db/db_impl.cc:1209-1213 | while a call makes room, no other call has a batch under way |
| StoreSystem.StepKeeps | RollingPaper/Pods/leveldb-library/db/db_impl.cc:1100-1256 | every step of the combined system keeps queue, layers and the link between them |
| WriteQueue.OneLeader | RollingPaper/Pods/leveldb-library/db/db_impl.cc:1192-1201 | in every reachable state at most one call is past the wait loop; it is the head of the queue, and from the moment it takes its group off it owns the mutex |
| WriteQueue.HeadIsAwake | RollingPaper/Pods/leveldb-library/db/db_impl.cc:1239-1253 | no wake-up is lost: a queue without a call past the wait loop has its head signalled or at the loop's test |
| WriteQueue.MergedCallsAgree | RollingPaper/Pods/leveldb-library/db/db_impl.cc:1239-1249 | every call that returned or was told it is done is in exactly one group and its status is the one the group's leader got |
| WriteQueue.GroupCommitIsCorrect | RollingPaper/Pods/leveldb-library/db/db_impl.cc:1185-1256 | in every reachable state: groups and then the queue are the calls in order of arrival; sequence ranges are contiguous; the log holds what each append left, nothing, a torn or a whole record, and the memtables the committed groups, with at most the batch under way behind them; group bounds and the sync rule hold; after a failed sync every later group fails |
| WriteQueue.StepKeeps | RollingPaper/Pods/leveldb-library/db/db_impl.cc:1185-1256 | every step of a call, each writer popped being one of its own, keeps the protocol's invariant |
| WriteQueue.RangesDisjoint | RollingPaper/Pods/leveldb-library/db/db_impl.cc:1212-1218 | no two operations ever share a sequence number |
| WriteSync.SyncedIsOnDisk | RollingPaper/Pods/leveldb-library/db/db_impl.cc:1217-1222 | in every reachable state, a call that asked for a sync and returned without an error, or was told so by its leader, is in a group whose log record is on disk |
| WriteSync.CallIsAsMade | RollingPaper/Pods/leveldb-library/db/db_impl.cc:1185-1190 | a call keeps the batch and the sync option it was made with |
| WriteSync.DiskOnlyGrows | RollingPaper/Pods/leveldb-library/db/db_impl.cc:1217-1222 | what is on disk at one time of a run stays there |
| WriteSync.StepKeepsSync | RollingPaper/Pods/leveldb-library/db/db_impl.cc:1185-1256 | every step keeps the records of synced and committed groups on disk, and the record under way last in the current log file |
| WriteRoom.NullBatchSwitches | RollingPaper/Pods/leveldb-library/db/db_impl.cc:1310-1376 | a null batch that makes room for itself has the memtable switched before it returns |
| WriteRoom.CrowdedWritesAreDelayed | RollingPaper/Pods/leveldb-library/db/db_impl.cc:1320-1333 | a write that leads while level 0 has eight files or more has been delayed |
| WriteRoom.WaitsHaveReasons | RollingPaper/Pods/leveldb-library/db/db_impl.cc:1317-1346 | a write is delayed at most once and only with eight files or more on level 0; it waits for the background only with the memtable full, or for a null batch, and the last memtable still there or twelve files on level 0 |
| WriteRoom.WorkIsScheduled | RollingPaper/Pods/leveldb-library/db/db_impl.cc:648-662 | in every reachable state the thread is scheduled while there is an immutable memtable, a manual compaction, an overdue level or four files on level 0, unless closing or an error forbids it |
| WriteRoom.LevelZeroIsBounded | RollingPaper/Pods/leveldb-library/db/db_impl.cc:1341-1346 | level 0 never gets more than twelve files, the one to come from the immutable memtable included, unless it had more at the start |
| WriteProgress.NeverStuck | RollingPaper/Pods/leveldb-library/db/db_impl.cc:1192-1253 | in every reachable state, no call and not the background thread can go on exactly if the thread is not scheduled and either all calls have returned or one waits for a signal with the others asleep behind it; the latter only when the database is being closed |
| WriteProgress.WaiterIsServed | RollingPaper/Pods/leveldb-library/db/db_impl.cc:1334-1345 | a call waiting for the background is signalled, or the thread is scheduled, or the database is being closed |
| WriteProgress.NoEndlessRun | RollingPaper/Pods/leveldb-library/db/db_impl.cc:1185-1376 | calls and thread do not go on for ever by themselves: every endless run has new calls, spurious wake-ups, charged reads, manual compactions or the closing again and again |
| WriteProgress.ClosingStrands | RollingPaper/Pods/leveldb-library/db/db_impl.cc:154-160 | a run on which the database is closed under a waiting write, which then waits for good |
| WriteProgress.StaysStranded | RollingPaper/Pods/leveldb-library/db/db_impl.cc:1334-1345 | once closed with the thread unscheduled, a waiting call is left waiting by every step but a spurious wake-up |
| Background.FinishServes | RollingPaper/Pods/leveldb-library/db/db_impl.cc:669-686 | after every round of the thread it is scheduled again while there is work, unless closing or an error forbids it |
| Background.MovedLowersDebt | RollingPaper/Pods/leveldb-library/db/db_impl.cc:710-742 | a compaction lowers the sum of entries times the levels below them |
| WriteProgress.EveryCallReturns | RollingPaper/Pods/leveldb-library/db/db_impl.cc:1185-1376 | when calls and thread can go no further on a store that is not being closed, all calls have returned, and without a background error nothing is left to compact |
| GroupCommit.BuildBatchGroup | RollingPaper/Pods/leveldb-library/db/db_impl.cc:1260-1306 | takes the longest prefix of the queue that the rules allow and returns its operations in order |
| GroupCommit.GroupIsBounded | RollingPaper/Pods/leveldb-library/db/db_impl.cc:1268-1297 | a group's bytes stay within 128 KiB more than a small leader's batch, otherwise within the larger of 1 MiB and the leader's own size; no synced write rides with a leader that does not sync |
| GroupCommit.GroupIsLongest | RollingPaper/Pods/leveldb-library/db/db_impl.cc:1278-1304 | a group ends only at a synced write behind a leader that does not sync or at a batch that would exceed that limit, so a null batch never ends one |
| WriteBatches.DecodeEncodedOps | RollingPaper/Pods/leveldb-library/db/write_batch.cc:42-80 | iterating over an encoded batch gives its operations back |
| WriteBatches.WriteBatch.Put | RollingPaper/Pods/leveldb-library/db/write_batch.cc:98-103 | appends one operation to the encoded batch and counts it |
| WriteBatches.WriteBatch.Delete | RollingPaper/Pods/leveldb-library/db/write_batch.cc:105-109 | appends one deletion to the encoded batch and counts it |
| WriteBatches.WriteBatch.Append | RollingPaper/Pods/leveldb-library/db/write_batch.cc:144-148 | the result encodes the operations of both batches in order under the first one's sequence number |
| WriteBatches.WriteBatch.SetSequence | RollingPaper/Pods/leveldb-library/db/write_batch.cc:94-96 | renumbers the batch and keeps its operations |
| Recovery.InsertInto | RollingPaper/Pods/leveldb-library/db/write_batch.cc:132-137 | a batch enters the memtable as its decoded operations with consecutive sequence numbers; a malformed one as far as it decodes, with a corruption status |
| StoreFormats.InternalKeyBytes | RollingPaper/Pods/leveldb-library/db/dbformat.cc:14-23 | an internal key is the user key, one byte 1 for a value or 0 for a deletion, and the sequence number in seven bytes, low ones first |
| StoreFormats.BatchBytes | RollingPaper/Pods/leveldb-library/db/write_batch.cc:5-13 | a batch is eight bytes of sequence number, four of count, and per operation a byte 1 or 0 with one or two slices behind a varint of their length |
| StoreFormats.BatchReadIff | RollingPaper/Pods/leveldb-library/db/write_batch.cc:42-80 | a batch is accepted exactly when its records are of that format and as many as its count, a signed 32-bit number, says; and then these are inserted with consecutive numbers from the batch's on |
| StoreFormats.FragmentBytes | RollingPaper/Pods/leveldb-library/db/log_writer.cc:82-108 | a fragment in a file is four bytes of masked checksum over type and data, two of length, one of type, and the data, within one block of 32768 bytes |
| StoreFormats.RecordBytes | RollingPaper/Pods/leveldb-library/db/log_writer.cc:34-80 | a record begins at the end of the file or, with less than seven bytes left in the block, in the next one; its fragments fill blocks and carry type 1, or 2, 3 and 4, and their data are the record |
| Log.Writer.AddRecord | RollingPaper/Pods/leveldb-library/db/log_writer.cc:34-80 | appends the record as a chain of fragments placed by the block rules, each with its header and checksum, behind a padding of zeros where a block has no room for a header, and changes nothing before |
| Log.Writer.EmitPhysicalRecord | RollingPaper/Pods/leveldb-library/db/log_writer.cc:82-108 | writes one header and payload within the block |
| Log.PlaceIsRecord | RollingPaper/Pods/leveldb-library/db/log_writer.cc:34-80 | the fragments of a record follow each other without crossing a block and leave out only trailers shorter than a header; the first, middle and last ones carry those types; their payloads one after the other are the record |
| Log.Reader.ReadRecord | RollingPaper/Pods/leveldb-library/db/log_reader.cc:56-174 | returns the next logical record that the sequence of physical events yields, or the end |
| Log.Reader.ReadPhysicalRecord | RollingPaper/Pods/leveldb-library/db/log_reader.cc:189-271 | yields the same physical event as the reader's transition function for every buffer, block and end-of-file state |
| LogTruncation.TruncatedLogReadsBack | RollingPaper/Pods/leveldb-library/db/log_reader.cc:56-174 | for every list of records and every cut of the written file, the reader returns exactly the records that lie wholly before the cut, in order, with no corruption report |
| LogTruncation.ParseTorn | RollingPaper/Pods/leveldb-library/db/log_reader.cc:202-222 | a physical record cut off by the end of the file reads as the end of the file and is not reported |
| LogTruncation.AssembleRecord | RollingPaper/Pods/leveldb-library/db/log_reader.cc:91-171 | the fragments of one record assemble to that record, whatever follows |
| LogTruncation.ReadLog | RollingPaper/Pods/leveldb-library/db/log_reader.cc:56-174 | running the reader to the end returns what the assembled events say |
| LogDamage.DamageStaysInBlock | RollingPaper/Pods/leveldb-library/db/log_reader.cc:91-171 | whatever happens to the bytes of one block, under an ideal checksum, all records without a fragment in it are returned in order and nothing else but records that were written; when one is missing there is a report, unless the damage leaves no trace |
| LogDamage.DamageIsReported | RollingPaper/Pods/leveldb-library/db/log_reader.cc:202-255 | the exact number of reports: none when every fragment is still there or what is left looks like an unfinished file; otherwise one for what was dropped unless it looks empty, one if its record had begun before, and one for each later fragment of the record in which the block ends |
| LogDamage.SilentIff | RollingPaper/Pods/leveldb-library/db/log_reader.cc:202-255 | nothing is reported exactly when all records are returned, or the first lost fragment claims to run past the end of the file, or it has type and length 0 and only whole records are lost with it |
| LogReports.SilentIffQuiet | RollingPaper/Pods/leveldb-library/db/log_reader.cc:91-171 | a sequence of physical events is read without a report exactly when each one is where it belongs: whole and first fragments where no bytes are gathered, middle and last ones in a record, unwritten space between records |
| LogReports.GivenUpIsReported | RollingPaper/Pods/leveldb-library/db/log_reader.cc:93-118 | a record given up between two fragments is dropped, with a report if it has bytes, and the record behind it is returned |
| LogDamage.EventsDamaged | RollingPaper/Pods/leveldb-library/db/log_reader.cc:189-271 | outside the damaged block the reader meets the same physical records; inside it meets a prefix of them |
| Recovery.RecoveryGivesPrefix | RollingPaper/Pods/leveldb-library/db/db_impl.cc:412-453 | for batches whose numbers may have gaps: recovering from any cut of their log gives exactly the entries of those wholly in it, under their own sequence numbers, and the highest sequence number is that of the last of them |
| Recovery.RecoverLogFile | RollingPaper/Pods/leveldb-library/db/db_impl.cc:370-489 | success means that the tables hold exactly what the records say and that a paranoid run met no flaw; failure means a flaw in a paranoid run or a failed table write; the tables are always a prefix |
| Recovery.RecoverCutLog | RollingPaper/Pods/leveldb-library/db/db_impl.cc:412-453 | the recovery code itself on a log cut anywhere: the batches wholly before the cut come back and nothing else, unless a table write fails |
| Recovery.RecoverDamagedLog | RollingPaper/Pods/leveldb-library/db/db_impl.cc:370-489 | recovering a log with a damaged block gives back whole batches, all but a stretch of them; the paranoid mode returns all of them or fails, unless the damage leaves no trace |
| SkipLists.SearchesAreLinearizable | RollingPaper/Pods/leveldb-library/db/skiplist.h:260-302 | in every interleaving of one insertion, taken one link at a time, with any number of searches, a search that ends has the right answer for the bottom list at that step, and that list holds every key linked when the search began |
| SkipLists.SearchAnswersItsQuery | RollingPaper/Pods/leveldb-library/db/skiplist.h:260-302 | a search answers what was asked when it began, for the list at its end, which holds every key linked at its beginning |
| SkipLists.InsertAdds | RollingPaper/Pods/leveldb-library/db/skiplist.h:336-368 | whatever the readers do, the key under insertion is in the levels linked so far and nothing else changes; in the end it is in all levels of its height |
| SkipLists.StepKeeps | RollingPaper/Pods/leveldb-library/db/skiplist.h:336-368 | each store of the insertion keeps every level sorted and a sublist of the one below, whichever max_height_ a reader sees |
| SkipLists.SetOwnKeeps | RollingPaper/Pods/leveldb-library/db/skiplist.h:357-367 | setting the new node's own link, not yet reachable, keeps all lists as they are |
| SkipLists.NeverBlocked | RollingPaper/Pods/leveldb-library/db/skiplist.h:260-368 | the insertion and every unfinished search always have a next step |
| SkipLists.LinkKeeps | RollingPaper/Pods/leveldb-library/db/skiplist.h:357-367 | linking the new node into a level adds exactly its key to that level |
| SkipLists.SearchStepOk | RollingPaper/Pods/leveldb-library/db/skiplist.h:260-322 | one step of a search keeps the node it stands on strictly before the target on a list that contains it |
| SkipLists.SkipList.Insert | RollingPaper/Pods/leveldb-library/db/skiplist.h:336-368 | adds exactly the new key |
| SkipLists.SkipList.Contains | RollingPaper/Pods/leveldb-library/db/skiplist.h:370-378 | tells exactly whether the key is in the list |
| SkipLists.SkipList.Find | RollingPaper/Pods/leveldb-library/db/skiplist.h:260-322 | the three searches return the first key at or after, the last key before, or the last key of the list |
| ThreadPool.PoolNeverStuck | RollingPaper/Pods/Libuv-gRPC/src/threadpool.c:45-160 | in every reachable state acceptable work has a worker awake or signalled, pending slow work has its message queued, and the running slow jobs, counted exactly, stay within half the threads rounded up |
| ThreadPool.ExactlyOnce | RollingPaper/Pods/Libuv-gRPC/src/threadpool.c:87-138 | on every interleaving no item runs or fires twice; it fires success exactly when it ran and ECANCELED exactly when a cancel returned 0, in which case it never ran |
| ThreadPool.RestMeansAllFired | RollingPaper/Pods/Libuv-gRPC/src/threadpool.c:295-315 | when the pool comes to rest every submitted item has fired once, so none is lost |
| ThreadPoolWakes.NoIdleBesideWork | RollingPaper/Pods/Libuv-gRPC/src/threadpool.c:57-160 | while a worker waits, at least as many others are ready for the queue or signalled as it has messages they would take |
| ThreadPoolOrder.FirstComeFirstServed | RollingPaper/Pods/Libuv-gRPC/src/threadpool.c:57-160 | when an item goes from its queue to a worker, no item of its kind submitted before it is still queued |
| ThreadPoolOrder.QueuedInOrder | RollingPaper/Pods/Libuv-gRPC/src/threadpool.c:57-160 | in every reachable state each of the two queues holds the items still queued in the order they were submitted in |
| ThreadPoolOrder.CallbacksInOrder | RollingPaper/Pods/Libuv-gRPC/src/threadpool.c:295-315 | of two items posted to a loop the first has its callback called first, unless it is cancelled meanwhile |
| ThreadPoolOrder.FiresOnItsLoop | RollingPaper/Pods/Libuv-gRPC/src/threadpool.c:121-128 | a callback is called by the loop that its item was submitted on |
| ThreadPool.CancelTakesEffectIff | RollingPaper/Pods/Libuv-gRPC/src/threadpool.c:269-292 | cancelling changes something exactly for an item still queued for a worker, or already cancelled and not yet fired |
| ThreadPool.StepKeeps | RollingPaper/Pods/Libuv-gRPC/src/threadpool.c:57-160 | every critical section, wait, callback and cancellation keeps the invariant of queues, workers, counters and items |
| Queues.InsertTail | RollingPaper/Pods/Libuv-gRPC/src/queue.h:92-99 | the ring holds the same nodes in the same order and the new node behind them |
| Queues.InsertHead | RollingPaper/Pods/Libuv-gRPC/src/queue.h:83-90 | the ring holds the new node right behind the head and the others in the same order |
| Queues.Remove | RollingPaper/Pods/Libuv-gRPC/src/queue.h:101-106 | the ring holds the other nodes in the same order |
| Queues.Split | RollingPaper/Pods/Libuv-gRPC/src/queue.h:61-70 | the nodes from the given one on form a ring with the new head, those before it stay with the old head |
| Queues.Move | RollingPaper/Pods/Libuv-gRPC/src/queue.h:72-81 | the new head takes over all nodes in order and the old one is left empty, also when there are none |
| Queues.Add | RollingPaper/Pods/Libuv-gRPC/src/queue.h:52-59 | the nodes of the second ring follow those of the first in order, also when there are none |
| Heaps.Heap.Swap | RollingPaper/Pods/Libuv-gRPC/src/heap-inl.h:72-104 | exchanges a child with its parent: every link is renamed accordingly, and nothing else moves |
| Heaps.Heap.SwapLinks | RollingPaper/Pods/Libuv-gRPC/src/heap-inl.h:72-104 | the exact new links of the two nodes, the sibling, the children and the grandparent, for nodes that are pairwise distinct |
| Heaps.PathTo | RollingPaper/Pods/Libuv-gRPC/src/heap-inl.h:119-136 | the bits of a slot number, collected from the low end, lead from the root to that slot |
| Heaps.Heap.Locate | RollingPaper/Pods/Libuv-gRPC/src/heap-inl.h:126-136 | the walk along the path ends at the pointer of the slot sought and remembers the pointer above it |
| Heaps.Heap.Insert | RollingPaper/Pods/Libuv-gRPC/src/heap-inl.h:106-148 | the heap stays a complete, correctly linked binary min-heap and gains exactly the new node |
| Heaps.Heap.Remove | RollingPaper/Pods/Libuv-gRPC/src/heap-inl.h:150-237 | for any node of the heap: the heap stays a complete, correctly linked min-heap and loses exactly that node |
| Heaps.Heap.Dequeue | RollingPaper/Pods/Libuv-gRPC/src/heap-inl.h:239-241 | removes exactly the root, and nothing from an empty heap |
| Heaps.Heap.MinIsLeast | RollingPaper/Pods/Libuv-gRPC/src/heap-inl.h:67-69 | no node is less than the root |
| Heaps.RootIsLeast | RollingPaper/Pods/Libuv-gRPC/src/heap-inl.h:33-39 | in a heap-ordered numbering the first slot holds a least key |
| Heaps.HoleMovesUp | RollingPaper/Pods/Libuv-gRPC/src/heap-inl.h:143-147 | after a swap with the parent the only disorder left is one level higher |
| Heaps.HoleMovesDown | RollingPaper/Pods/Libuv-gRPC/src/heap-inl.h:216-229 | after a swap with the smallest child the only disorder left is one level lower |
| Timers.Loop.Start | RollingPaper/Pods/Libuv-gRPC/src/timer.c:66-94 | a refused start changes nothing; an accepted one stops the timer first, sets the due time clamped to 64 bits and the next start number, and arms it; active exactly when in the heap |
| Timers.Loop.Stop | RollingPaper/Pods/Libuv-gRPC/src/timer.c:97-107 | only the one timer becomes inactive and leaves the heap |
| Timers.Loop.Again | RollingPaper/Pods/Libuv-gRPC/src/timer.c:110-121 | refuses a timer without a callback; leaves one that does not repeat as it is; an open one that repeats is active with the same interval, due at the sum of time and interval or the largest time, under the next start number |
| Timers.Loop.NextTimeout | RollingPaper/Pods/Libuv-gRPC/src/timer.c:133-151 | -1 exactly without active timers, 0 exactly when one is due, otherwise never more than the time to any active timer and exact below INT_MAX |
| Timers.Loop.RunTimers | RollingPaper/Pods/Libuv-gRPC/src/timer.c:154-171 | terminates when only finitely many callbacks start timers to be due at once; each timer fired is the first of the active ones and due, and none due is left |
| Timers.ActedIs | RollingPaper/Pods/Libuv-gRPC/src/timer.c:66-130 | what each timer call of a callback does to its handle, in full |
| Timers.RepeatingIsArmed | RollingPaper/Pods/Libuv-gRPC/src/timer.c:154-171 | when the loop returns, a timer that fired and was not touched by its own or a later callback is armed again for its interval behind the loop's time, or idle when it does not repeat |
| Timers.CallbackStopsItself | RollingPaper/Pods/Libuv-gRPC/src/timer.c:167-169 | a timer is armed before its callback runs, so a callback that ends by stopping or closing its own timer leaves it stopped |
| Timers.FiredInOrder | RollingPaper/Pods/Libuv-gRPC/src/timer.c:38-55 | with positive starts only timers due at entry fire, each at most once, ordered by due time and then by start number |
| Timers.DueTimersFire | RollingPaper/Pods/Libuv-gRPC/src/timer.c:154-171 | every timer due at entry fires unless an earlier callback of the run touched it |
| Timers.RunIsUnique | RollingPaper/Pods/Libuv-gRPC/src/timer.c:154-171 | the loop has one outcome for given callbacks |
| Timers.RestartingReturnsIff | RollingPaper/Pods/Libuv-gRPC/src/timer.c:154-171 | when every callback restarts one due and open timer, the loop returns exactly if the timeout is positive and the clock not at its end |
| Timers.DueAtOnceNeverReturns | RollingPaper/Pods/Libuv-gRPC/src/timer.c:154-171 | when every callback ends by starting one open timer to be due at once, and none closes it, the loop never returns, whatever else the callbacks do |
| Timers.RunExists | RollingPaper/Pods/Libuv-gRPC/src/timer.c:154-171 | with positive starts from some callback on, the loop returns from every state |
| Timers.DueAtOnceIff | RollingPaper/Pods/Libuv-gRPC/src/timer.c:78-80 | a start is due at once exactly with timeout 0 or at the largest time |
| Punycode.EncodeLabel | RollingPaper/Pods/Libuv-gRPC/src/idna.c:102-246 | for every label and buffer size: refuses malformed input, copies an ASCII label, and otherwise writes the text of the unbounded algorithm clipped to the buffer, returning too-big exactly when a delta exceeds 32 bits |
| Punycode.WriteDeltas | RollingPaper/Pods/Libuv-gRPC/src/idna.c:161-243 | the 32-bit rounds agree with the unbounded ones and fail exactly when a delta does not fit; no other operation overflows |
| Punycode.ScanRound | RollingPaper/Pods/Libuv-gRPC/src/idna.c:183-239 | one round writes every occurrence of the current code point and counts the rest |
| Punycode.EmitDelta | RollingPaper/Pods/Libuv-gRPC/src/idna.c:192-218 | writes a delta as a generalized variable-length integer within 32-bit arithmetic |
| Punycode.AdaptBias | RollingPaper/Pods/Libuv-gRPC/src/idna.c:220-237 | the bias adaptation in 32 bits equals the unbounded one |
| Punycode.ProductFits | RollingPaper/Pods/Libuv-gRPC/src/idna.c:174-178 | the overflow check is exact |
| PunycodeDecode.AdaptedIs | RollingPaper/Pods/Libuv-gRPC/src/idna.c:220-237 | the bias of section 6.1 of RFC 3492 as a formula: 36 for each division by 35 until the rest is at most 455, and 36 times the rest over the rest plus 38 |
| PunycodeDecode.KnownName | RollingPaper/Pods/Libuv-gRPC/src/idna.c:102-246 | the label bücher gets the name xn--bcher-kva |
| PunycodeDecode.RoundTrip | RollingPaper/Pods/Libuv-gRPC/src/idna.c:161-243 | behind "xn--", the decoder of section 6.2 of RFC 3492, with constants and adaptation of its own, recovers every label that is not all ASCII |
| PunycodeDecode.DigitsRoundTrip | RollingPaper/Pods/Libuv-gRPC/src/idna.c:192-218 | a delta's digits decode to the delta and leave what follows |
| PunycodeDecode.ScanSynced | RollingPaper/Pods/Libuv-gRPC/src/idna.c:183-239 | encoder and decoder stay in step through a round: the decoder holds exactly the code points written so far |
| PunycodeDecode.NamesCollideIff | RollingPaper/Pods/Libuv-gRPC/src/idna.c:102-246 | two labels get the same name exactly when they are equal or one is ASCII and spells the encoding of the other |
| PunycodeDecode.TextIsBasic | RollingPaper/Pods/Libuv-gRPC/src/idna.c:161-243 | the name of a label that is not all ASCII is an ASCII label |
| Inet.Ntop4 | RollingPaper/Pods/Libuv-gRPC/src/inet.c:53-64 | prints the one text that parses to the address when it and its NUL fit; on failure every such text is too long |
| Inet.Parse4Iff | RollingPaper/Pods/Libuv-gRPC/src/inet.c:179-215 | a text parses to an address exactly when it is the four octets in decimal without leading zeros |
| Inet.Pton4 | RollingPaper/Pods/Libuv-gRPC/src/inet.c:179-215 | returns an address exactly for its canonical dotted text and fails for every other text |
| Inet.DigitsAre | RollingPaper/Pods/Libuv-gRPC/src/inet.c:221-222 | digits print as 0-9 and a-f and are read in either case, by their place in that order |
| Inet.PrintsNumber | RollingPaper/Pods/Libuv-gRPC/src/inet.c:53-64 | an octet prints as its decimal digits without leading zeros |
| Inet.PrintsHex | RollingPaper/Pods/Libuv-gRPC/src/inet.c:130-138 | a word prints as its hexadecimal digits without leading zeros |
| Inet6Grammar.KnownAddress | RollingPaper/Pods/Libuv-gRPC/src/inet.c:218-302 | 2001:DB8::1 parses to its bytes in network order |
| Inet.DottedRoundTrip | RollingPaper/Pods/Libuv-gRPC/src/inet.c:53-64 | the parser gives the four octets of every printed address back |
| Inet6.FindBest | RollingPaper/Pods/Libuv-gRPC/src/inet.c:88-111 | the run that "::" replaces is the leftmost of the longest runs of at least two zero words (section 4.2 of RFC 5952) |
| Inet6.Ntop6 | RollingPaper/Pods/Libuv-gRPC/src/inet.c:67-147 | prints the one text with "::" for that run and the embedded IPv4 forms, or fails when it and its NUL do not fit |
| Inet6.TextIsUnique | RollingPaper/Pods/Libuv-gRPC/src/inet.c:67-147 | an address has one such text |
| Inet6.EmbeddedText | RollingPaper/Pods/Libuv-gRPC/src/inet.c:128-137 | five zero words before an ffff, or six before a word that is not zero, are printed with a dotted address |
| Inet6.OthersHaveNoDot | RollingPaper/Pods/Libuv-gRPC/src/inet.c:128-137 | no other address is |
| Inet6.KnownText | RollingPaper/Pods/Libuv-gRPC/src/inet.c:67-147 | 2001:db8:0:0:1:0:0:1 is printed as 2001:db8::1:0:0:1 |
| Inet6Grammar.Parse6Iff | RollingPaper/Pods/Libuv-gRPC/src/inet.c:218-302 | a text parses exactly when it is groups of one to four hexadecimal digits between colons, with at most one "::" for at least one zero word and an optional dotted address last, sixteen bytes in all; and then it parses to those bytes |
| Inet6Parse.Pton6 | RollingPaper/Pods/Libuv-gRPC/src/inet.c:218-302 | computes the parse that Inet6Grammar.Parse6Iff characterizes, among it the in-place shift of the bytes behind "::" |
| Inet6Parse.ShiftToEnd | RollingPaper/Pods/Libuv-gRPC/src/inet.c:282-297 | moves the bytes behind "::" to the end of the buffer with zeros in between |
| Inet6Parse.TextRoundTrip | RollingPaper/Pods/Libuv-gRPC/src/inet.c:67-147 | for every 16-byte address the parser gives back what was printed |
| Inet6Parse.TextFits | RollingPaper/Pods/Libuv-gRPC/src/inet.c:30-31 | every text and its NUL fit 46 bytes |
| Inet6Parse.PrintAndParse | RollingPaper/Pods/Libuv-gRPC/src/inet.c:67-147 | printer and parser run one after the other |
| PbRoundTrip.MessageRoundTrip | RollingPaper/Pods/nanopb/pb_encode.c:341-426 | for every sound descriptor and well-formed message, with required, optional, proto3, packed, unpacked, oneof and nested fields, decoding the encoding gives the message |
| PbRoundTrip.ValueRoundTrip | RollingPaper/Pods/nanopb/pb_decode.c:1334-1570 | every value type decodes to what was encoded and leaves what follows it |
| PbRoundTrip.ZeroIsDefault | RollingPaper/Pods/nanopb/pb_encode.c:240-337 | a message whose fields all test as zero is the default message, so leaving it out loses nothing |
| PbGrammar.MessageWritten | RollingPaper/Pods/nanopb/pb_encode.c:341-426 | every encoding is a sequence of records of the protobuf wire format, stated on its own with its numbers: those of the fields in the descriptor's order, with their numbers, wire types and values |
| PbMeaning.DecodeReads | RollingPaper/Pods/nanopb/pb_decode.c:934-1082 | every byte string of that format whose payloads have the shapes of their fields decodes to what its records mean, with packed and unpacked arrays, merged submessages, skipped unknown fields and required ones, or fails where they mean nothing |
| PbMeaning.LastRecordDecides | RollingPaper/Pods/nanopb/pb_decode.c:404-484 | the last record of a field that is no array decides its value, and the last record of a oneof which member is there |
| PbMeaning.ArrayCollects | RollingPaper/Pods/nanopb/pb_decode.c:415-466 | an array holds the items of all its records in order, packed or not |
| PbUnknown.UnknownFieldsIgnored | RollingPaper/Pods/nanopb/pb_decode.c:966-995 | records with unknown tags inserted at any boundary between records change neither the result nor whether decoding succeeds |
| PbUnknown.UnknownEverywhereIgnored | RollingPaper/Pods/nanopb/pb_decode.c:966-995 | records with unknown tags inserted at any number of boundaries at once change nothing |
| PbUnknown.RoundTripWithUnknown | RollingPaper/Pods/nanopb/pb_decode.c:966-995 | a message comes back whatever unknown records stand at the boundaries of its encoding |
| PbUnknown.FieldBoundary | RollingPaper/Pods/nanopb/pb_encode.c:341-426 | the encodings of the fields before any place end at a boundary |
| PbUnknown.EntryBoundary | RollingPaper/Pods/nanopb/pb_encode.c:206-233 | so do they together with any number of entries of an array that is not packed |
| PbEncode.EncodeMessage | RollingPaper/Pods/nanopb/pb_encode.c:528-550 | on a writing or a counting stream: succeeds exactly when the message encodes and there is room, and then takes exactly the encoding |
| PbEncode.EncodeSubmessage | RollingPaper/Pods/nanopb/pb_encode.c:717-765 | the counting pass and the writing pass give the same length, so the size-changed error cannot occur |
| PbEncode.EncodePacked | RollingPaper/Pods/nanopb/pb_encode.c:147-205 | tag, length and entries of a packed array, the length from the counting pass or the fixed width |
| PbEncode.SizingAgrees | RollingPaper/Pods/nanopb/pb_encode.c:567-576 | writing to a buffer succeeds exactly when sizing does and the size fits, and writes exactly that many bytes |
| PbEncode.GetEncodedSize | RollingPaper/Pods/nanopb/pb_encode.c:567-576 | returns the length of the encoding, and fails exactly when there is none |
| PbEncode.EncodeVarint | RollingPaper/Pods/nanopb/pb_encode.c:608-628 | writes the varint of the value |
| PbMessage.EncodesIff | RollingPaper/Pods/nanopb/pb_encode.c:147-236 | a typed message encodes exactly when every array and byte string keeps within its space |
| PbDecode.DecodeMessage | RollingPaper/Pods/nanopb/pb_decode.c:934-1082 | computes the decoding of the stream's bytes into the message and nothing more, errors included |
| PbDecode.DecodeSubmessage | RollingPaper/Pods/nanopb/pb_decode.c:1525-1547 | decodes a length-delimited submessage from its substream and leaves the stream behind it |
| PbDecode.DecodeVarint32 | RollingPaper/Pods/nanopb/pb_decode.c:187-252 | accepts, rejects and computes as the loop with its 8-bit bit position does; what it accepts within ten bytes the 64-bit decoder accepts too, and the result is its low word |
| PbWire.LowWordIff | RollingPaper/Pods/nanopb/pb_decode.c:187-252 | all accepted inputs of a length give the low word of their digits exactly up to 37 bytes |
| PbWire.LateOneIsWrong | RollingPaper/Pods/nanopb/pb_decode.c:187-252 | for every greater length an accepted input whose digits have a zero low word and which is taken for 8 |
| PbWire.Decode32IsLowWord | RollingPaper/Pods/nanopb/pb_decode.c:187-252 | within ten bytes, canonical or not, the 32-bit result is the low word of the 64-bit one and the same bytes are taken |
| PbWire.WrappedDigit | RollingPaper/Pods/nanopb/pb_decode.c:213-241 | behind any number of zero digits a digit is joined in at its bit position modulo 256 when that lies below 32, and refused otherwise |
| PbDecode.DecodeVarint | RollingPaper/Pods/nanopb/pb_decode.c:255-275 | reads a varint modulo 64 bits |
| PbDecode.EncodeAndDecode | RollingPaper/Pods/nanopb/pb_decode.c:1084-1096 | encoder and decoder run one after the other give the message back |
| PbIter.FieldIter.Next | RollingPaper/Pods/nanopb/pb_common.c:29-85 | steps to the next field, wraps at the end, and counts the required fields passed |
| PbIter.FieldIter.Find | RollingPaper/Pods/nanopb/pb_common.c:87-104 | finds a field with the tag exactly when there is one, from any starting field, and ends |
| PbWire.Varint32RoundTrip | RollingPaper/Pods/nanopb/pb_decode.c:187-252 | every 32-bit value encoded as a varint is read back |
| PbWire.Varint64RoundTrip | RollingPaper/Pods/nanopb/pb_decode.c:255-275 | every 64-bit value encoded as a varint is read back |

## Left out

- Keys are compared through a user comparator; a key is modelled by its place in that order
  (`DbFormat.Key`), and `InternalKey` and `MemTable` connect the bytes with it.
- Real CRC32C: the checksum is an arbitrary function of type byte and payload. The damage theorem
  assumes an ideal checksum, that is, no altered physical record passes the check.
- `DBIter` over unparsable keys, iterator errors and read sampling: the cursor is proved over sorted
  runs of parsable entries whose sequence numbers are distinct per key.
- ReadPath.GetReturnsNewest: a compaction whose smallest snapshot is the largest sequence number is in
  the runs only when it meets the condition of `Compaction.ReadsPreservedIff`; others do change reads.
- `VersionSet`, table files, `Env` and level selection: they enter through what version_set.h
  promises, as parameters of the compaction and read models.
- Reuse of a log after recovery, and readers with a positive initial offset.
- Weak memory: every step is atomic and sequentially consistent.
- Sizes in bytes: an insertion may fill the memtable at any time, and a level may become too large
  with any version; which level and files a compaction takes is free, within `Background.ResultOk`.
- WriteQueue.GroupCommitIsCorrect: the log of all files is one sequence of pieces. What the reader makes
  of a record torn inside a fragment, with others behind it, is not stated; `LogReports` covers records
  given up between fragments.
- WriteSync.SyncedIsOnDisk: a successful sync is taken to bring all of the current log file to disk.
- WriteProgress.EveryCallReturns: I/O is taken to return, and the mutex is not taken to be fair. A
  flush that fails again behind a recorded error changes nothing and is no step.
- DBIterator.DBIter.Next: read sampling and the status of the inner iterator are not part of it.
- StoreSystem.GetReturnsNewestCommitted: batches are well formed, so that inserting them does not
  fail half-way; flushes and installed compactions are single steps with the mutex held.
- MemTableReads.GetAcross: the recovered tables are kept as memtables; the format of table files is
  not modelled.
- ThreadPool.PoolNeverStuck: a safety result; scheduling fairness is not modelled. The pool's queues
  are sequences there; `Queue` proves of the intrusive ring lists that they behave like sequences.
- ThreadPool.ExactlyOnce: the threads' start-up and the reset after a fork are not modelled; a cancel
  is called on the loop's thread and never after the item's done callback.
- Heaps.Heap.Insert: the element count is unbounded, while the source counts in an unsigned int.
- Timers.Loop.RunTimers: callbacks are arbitrary sequences of timer calls that leave the loop's clock
  alone; start numbers do not wrap around. The reference counting of active handles is left out.
- Punycode.EncodeLabel: the UTF-8 decoder in front of it is left out; labels have fewer than 2^32 - 1
  code points.
- Inet6Parse.Pton6: cutting off a zone behind a percent sign before the parser is left out.
- nanopb callback, extension and pointer fields, arrays of fixed count, and the exact layout of C
  structs; a message is a value per field instead.
- PbDecode.DecodeMessage: what a failed decoding leaves in the message is not stated, nor the case
  of a record with tag 0 in a message without fields. `uint_fast8_t` has eight bits, as with the
  usual C libraries.
- PbMeaning.DecodeReads: payloads of another shape than their field's, which the decoder does not test
  for, and bools of 2^32 and more are not among its byte strings.
- PbEncode.EncodeMessage: sizes are unbounded; what a failed encoding leaves in the buffer is not
  stated.
- The app's own Swift code, sockets, file-system polling, and generated data.
