# LevelDB and nanopb, modelled and proved in Dafny

The application vendors two libraries with hard logic of their own: the LevelDB storage engine
(`leveldb-library/`) and the nanopb protocol buffer codec (`nanopb/`). This project models both and
proves what they are for.

**The storage engine.** A store is a log-structured merge tree: a memtable, an immutable memtable
that is being flushed, and a version of seven levels of table files. `Visibility` says what a set
of entries means (the newest entry a snapshot admits, a deletion counting as absence), and `History`
says what a read must return (replaying the operations up to its sequence number). Everything else
is measured against these two. `Versions` holds the version invariant and the searches over a
version; `Triggers` says when a compaction is due; `Inputs`, `InputSets` and `Compactions` choose its
files; `DropRules` and `CompactionWork` decide and carry out what a compaction drops; `Replacement`,
`VersionEdits` and `Manifest` install new versions and recover them. `Store` is the state machine of
all steps with the theorem over whole runs, `Background` says which steps background work may take
and how, and `DbImpl` is the database object whose methods are those steps. On top, `Iterators`,
`DbIterator` and `InternalIterators` are the iterator stack; below, `Coding`, `LogFormat`,
`LogWriter`, `LogReader`, `WriteBatches` and `GroupCommit` are the log and the write batches in it;
`LogDamage` says what comes back of a log with damaged blocks.

**Crashes.** `CrashRecovery` adds crashes to the state machine: after one, operations may be lost,
but reads go on returning what replaying the others gives. `LogRecovery` says exactly which come back
from what is left of the logs, `StoreManifest` that the manifest describes the version, and `Disk`
that over every life of steps and crashes, with log rotation and new manifests, the disk has at each
moment what is needed to open the store again. `Opening.Open` is that opening, from the records of
the manifest and the bytes of the logs to the store. `LostWrites` shows that the operations lost need
not be the last ones, and exactly when they are.

**A result that is not what the code intends.** `SetupOtherInputs` completes the inputs of a
compaction with their boundary files, but not the files it takes from the next level. If a file left
behind there starts with an older value of a user key whose tombstone is among the inputs, and
nothing further down covers the key, the tombstone is dropped and the value comes back.
`DropRules.CompactionPreservesReads` gives the exact condition under which a compaction keeps all
reads, as an if and only if over the version and the inputs, which can be evaluated before the
compaction starts; `ParentBoundary.DeletedValueReturns` exhibits a run from the empty store that
violates it, with every trigger, flush, move, choice of inputs and cut of outputs as in the code. The
theorem over runs, `Store.ReadsFollowHistory`, therefore carries the condition (`Store.Harmless`) at
each compaction step. A value that a dropped tombstone uncovers is the only way a read can go wrong.
`DropRules.BoundaryClosedParentsAreSafe` shows that completing the files of the next level with their
boundary files too would remove the condition.

**The codec.** `PbMessages` describes message types by their field descriptors and structs as trees
of slots; `PbWire` is the wire format of the Protocol Buffers Encoding guide; `PbEncode` is the
encoder with its sizing passes; `PbStreams`, `PbDecode` and `PbMessageDecode` are the decoder with its
length-limited substreams, proved against reference functions over any bytes. `PbRows` says what a
row of well-formed records means, in any order and from any encoder, and that decoding its bytes
gives that meaning; `PbFieldwise` says what it is for each field by itself; `PbRoundTrip` shows that an
encoded struct is such a row and comes back.

**Conventions.** A method that stands for a C++ or C function is proved against a function or a
predicate about the values involved. Methods of the readers and decoders accept any bytes; where a
contract says more about well-formed bytes, ghost parameters name what the bytes hold. Steps of the
store are atomic. Sequence numbers stay below `kMaxSequenceNumber`, which the compaction loop uses
as a marker.

Where comments and code disagree, the model follows the code: `version_set.cc:1366-1377` describes
boundary files as if every compaction input were completed with them, and only the input level is;
`Recover` marks log numbers as used and then overwrites the next file number
(`version_set.cc:986-1000`), which is harmless for manifests that the version set wrote: `Manifest`
proves that the log number they record lies below the recovered next file number. `ReadPhysicalRecord`
returns the type byte of a record as it is, and `ReadRecord` takes 5 for the end of the file
(`log_reader.cc:140-147`): a sound record of that type, which no writer makes, ends the reading, and
the contracts of the log readers name it (`LogReader.EndMark`). What is left of a manual compaction is
described as the range that is left to be compacted (`db_impl.cc:759-760`); at level 0 it may begin
before the range asked for (`Compactions.RestCanBeginEarlier`).

`dafny verify dfyconfig.toml` checks the whole project.

## Model

| member | source | states |
|---|---|---|
| DbFormat.ParseTagRoundTrip | leveldb-library/db/dbformat.h:165-175 | Packing a sequence number and a type into the trailing tag and parsing it back are inverse; a tag fails to parse exactly when its low byte names no type. |
| DbFormat.CompareIsTotalOrder | leveldb-library/db/dbformat.cc:51-67 | The internal key comparator is a strict total order. |
| DbFormat.LookupKeyPosition | leveldb-library/db/dbformat.cc:121-138 | A lookup key sorts right before the entries of its user key that the snapshot admits. |
| Tables.Get | leveldb-library/db/memtable.cc:100-134 | Seeking to the lookup key and comparing the user key finds the newest entry the snapshot admits, or shows that there is none. |
| Tables.Insert | leveldb-library/db/memtable.cc:75-98 | Adding an entry with a new key keeps the memtable sorted and adds exactly that entry. |
| Versions.FindFile | leveldb-library/db/version_set.cc:88-106 | The binary search returns the first file that ends at or after the key. |
| Versions.SomeFileOverlapsRange | leveldb-library/db/version_set.cc:122-157 | The linear scan and the binary search both decide exactly whether some file overlaps the range of user keys, open ends included. |
| Versions.GetFromLevel0 | leveldb-library/db/version_set.cc:341-356 | Searching the covering level-0 files, newest first, yields the newest match over all of them and reads exactly the newest ones up to that match. |
| Versions.GetFromSortedLevel | leveldb-library/db/version_set.cc:357-378 | One binary-searched file decides a read of a sorted level, also when a user key spans two files; it is the only one read. |
| Versions.Get | leveldb-library/db/version_set.cc:326-421 | Version::Get returns what the newest matching entry over all files of all levels says, and reads the files a search visits, in order, up to the first match. |
| Triggers.ReadCharges | leveldb-library/db/version_set.cc:383-390 | A read charges a file exactly if it is the first of several the search visits and has no match. |
| Triggers.ChargedCanBeCompacted | leveldb-library/db/version_set.cc:422-434 | A file that is charged is never in the last level. |
| Triggers.RecordReadSample | leveldb-library/db/version_set.cc:436-476 | A sample charges exactly the first of several files its key visits. |
| Triggers.Finalize | leveldb-library/db/version_set.cc:1050-1086 | The first of the levels with the highest score; the score reaches 1 exactly if level 0 has four files or some level from 1 to 5 holds at least 10^level megabytes. |
| Triggers.TotalAddsUp | leveldb-library/db/version_set.cc:60-66 | The bytes of two lists of files together are those of the one and of the other; no file has none, and one file its own. |
| Triggers.TotalIgnoresOrder | leveldb-library/db/version_set.cc:60-66 | The bytes of a list of files do not depend on its order. |
| Triggers.FullLevels | leveldb-library/db/version_set.cc:41-58 | Which levels are too full, in megabytes: ten at level 1 and ten times more at each further one. |
| Inputs.GetOverlappingInputs | leveldb-library/db/version_set.cc:519-559 | Above level 0 exactly the overlapping files; at level 0, restarts included, the search terminates with the files of the least range that contains the request and that no file straddles. |
| Inputs.FindLargestKey | leveldb-library/db/version_set.cc:1326-1340 | The largest key of a list of files, none exactly for the empty list. |
| Inputs.FindSmallestBoundaryFile | leveldb-library/db/version_set.cc:1344-1362 | The file that starts with the next older entries of a user key, or none exactly when there is no such file. |
| Inputs.AddBoundaryInputs | leveldb-library/db/version_set.cc:1378-1401 | Terminates having added a chain of boundary files, after which no file of the level starts with older entries of the user key the inputs end with. |
| Inputs.GetRange | leveldb-library/db/version_set.cc:1205-1227 | The smallest and the largest key of a non-empty list of files. |
| InputSets.BoundaryFilesComplete | leveldb-library/db/version_set.cc:1378-1407 | A first choice of inputs completed with its boundary files leaves behind only files whose data is newer than theirs. |
| InputSets.ParentsComplete | leveldb-library/db/version_set.cc:1408-1411 | Taking the overlapping files of the next level leaves there only files that lie entirely on one side of all inputs. |
| Compactions.Compaction.IsBaseLevelForKey | leveldb-library/db/version_set.cc:1533-1552 | For user keys asked about in order, the moving level pointers answer exactly whether no file two or more levels down covers the key. |
| Compactions.Compaction.ShouldStopBefore | leveldb-library/db/version_set.cc:1554-1576 | The grandparent pointer passes exactly the files that end before the key, adding their bytes once a key has been seen; the answer is yes exactly when the total is over ten file sizes, and then the count starts again. |
| Compactions.CompactionPicker.SetupOtherInputs | leveldb-library/db/version_set.cc:1403-1462 | The inputs are the seed completed with its boundary files, grown when growing adds files, stays within the byte limit and brings no further parents; the parents and grandparents are exactly the overlapping files; the guarantee compactions rely on holds; the compaction pointer moves to the largest input key. |
| Compactions.CompactionPicker.PickCompaction | leveldb-library/db/version_set.cc:1270-1322 | A compaction is set up exactly when a level is due for its size or a file has used up its seeks; size goes first and starts with the first file behind the compaction pointer, a seek compaction with its file, and at level 0 the files these overlap come along; the compaction pointer of the level moves to the largest input key and the others stay. |
| Compactions.CompactionPicker.CompactRange | leveldb-library/db/version_set.cc:1464-1495 | No compaction exactly means that no file of the level overlaps the range; otherwise one is set up, at level 0 from the files of the least closed range, above from the first of the overlapping files that reach one file size. |
| Compactions.RangeGoesOn | leveldb-library/db/db_impl.cc:757-764 | What is left of a manual range behind the largest key of some inputs overlaps every file of the level that overlaps the range and lies behind the inputs. |
| Compactions.RestCanBeginEarlier | leveldb-library/db/db_impl.cc:757-764 | At level 0 the rest of a manual compaction may begin before the range that was asked for: two files in which it does. |
| Compactions.CompactionPicker.MaxLevelWithFiles | leveldb-library/db/db_impl.cc:564-577 | The deepest level with files in the range, or 1. |
| Compactions.CompactionPicker.PickLevelForMemTableOutput | leveldb-library/db/version_set.cc:491-516 | Level 0 if anything overlaps there; otherwise each level gone down to has no overlap and few overlapping bytes two levels below, and the level is the deepest such one up to the maximum. |
| Replacement.ReplacedIsValid | leveldb-library/db/db_impl.cc:860-876 | Replacing valid inputs by sorted files made of their entries keeps the version invariant: levels sorted and disjoint, newer data searched first. |
| DropRules.CompactionPreservesReads | leveldb-library/db/db_impl.cc:899-999 | Every read at or above the oldest snapshot is the same before and after a compaction if and only if no obsolete tombstone hides a value in a file left behind at the output level. |
| DropRules.BoundaryClosedParentsAreSafe | leveldb-library/db/version_set.cc:1403-1411 | Were the files of the next level completed with their boundary files as the inputs are, the inputs would still be valid and no value could come back. |
| Store.CompletedParentsAreHarmless | leveldb-library/db/version_set.cc:1403-1411 | With parents completed in this way every compaction step keeps the invariant of the store, reads included, without any further condition. |
| ParentBoundary.DeletedValueReturns | leveldb-library/db/version_set.cc:1407-1411 | A run of fourteen harmless steps from the empty store whose flushes, trivial moves and compactions are the ones the code makes (triggers, levels, inputs, cuts), and the compaction a call of CompactRange for all keys then makes, after which a read of the latest sequence number returns a deleted value. |
| ParentBoundary.BottomIsDue | leveldb-library/db/version_set.cc:1050-1086 | The file moved down first fills its level, so that its size alone makes the move due. |
| ParentBoundary.LastIsPlanned | leveldb-library/db/version_set.cc:1403-1436 | The inputs of that compaction are the ones the code selects for the range of all keys, and a deeper level with files makes the public call reach their level. |
| ParentBoundary.SplitIsCut | leveldb-library/db/db_impl.cc:944-1013 | The compaction before it has to finish its first output between the tombstone and the older value of the same user key. |
| Background.PlannedIsCoded | leveldb-library/db/db_impl.cc:707-751 | A compaction set up by the picker is a trivial move exactly when it has one input, no parents, few grandparent bytes and was not asked for by hand; otherwise its outputs are the merged inputs, cut as the loop cuts them. |
| Background.OutputsPassFew | leveldb-library/db/version_set.cc:1554-1576 | Every output of a compaction the code makes goes past at most ten file sizes of grandparents. |
| CompactionWork.DoCompactionWork | leveldb-library/db/db_impl.cc:878-1036 | The outputs, one after the other, are exactly the surviving entries in order, in labelled files with consecutive numbers, each ended exactly where it is full or has passed too many grandparent bytes. |
| CompactionWork.SurvivorsAreKept | leveldb-library/db/db_impl.cc:952-979 | Comparing with the previous entry only is enough: what survives the loop is exactly what the two drop rules keep. |
| CompactionWork.OutputsKeepExactly | leveldb-library/db/db_impl.cc:878-1036 | The outputs are valid, sorted, disjoint files made of the input entries, holding exactly the entries the drop rules keep; of each user key at most one entry at or below the oldest snapshot is left, and a deletion only if some file two or more levels down covers its user key. |
| DropRules.DropsEnough | leveldb-library/db/db_impl.cc:946-961 | What the drop rules keep has for each user key only the newest entry at or below the oldest snapshot, and no deletion there unless a file two or more levels down covers it. |
| DropRules.CondensedIsOne | leveldb-library/db/db_impl.cc:946-961 | Two entries of one user key that are left at or below the oldest snapshot are the same entry. |
| CompactionWork.MergedInputs | leveldb-library/db/version_set.cc:1237-1268 | The merged input files form one sorted list with exactly their entries, each once. |
| VersionEdits.Builder.Apply | leveldb-library/db/version_set.cc:650-692 | After any edit the builder holds the added files so far, of files that tie in order and number the first one, and the numbers deleted and not added again. |
| VersionEdits.Builder.SaveLevel | leveldb-library/db/version_set.cc:695-754 | Merging added files into the base files gives exactly the files present, in order, a base file before an added one that ties with it. |
| VersionEdits.SortedFilesAreEqual | leveldb-library/db/version_set.cc:593-606 | A level is determined by its set of files. |
| VersionEdits.LogAndApply | leveldb-library/db/version_set.cc:801-827 | For any edit the new version has, at each level, the files it had and the first ones the edit adds, but none whose number the edit deletes and does not add again; when the added numbers are new at their level this is removal and addition, and the levels stay sorted. |
| Manifest.SuccessiveSummary | leveldb-library/db/version_set.cc:650-739 | Applying edits one at a time gives the version that the files and deletions of the whole history, taken together, describe. |
| Manifest.Replay | leveldb-library/db/version_set.cc:925-970 | One builder fed the whole history gives the version that applying the edits one at a time gives, when a number names one file at its level; of each counter the last value counts. |
| Manifest.SnapshotSummary | leveldb-library/db/version_set.cc:1088-1116 | The snapshot record alone restores the version it was written for. |
| Manifest.VersionSet.LogAndApply | leveldb-library/db/version_set.cc:801-884 | Any edit is completed, logged behind a snapshot or the earlier records, and applied; if its files are new, the manifest goes on restoring the current version, log numbers and counters. |
| Manifest.VersionSet.Recover | leveldb-library/db/version_set.cc:886-1010 | From any records, the exact error for each missing field; otherwise the version they add up to, their last fields, and a next file number above the recovered one; ready for edits exactly when the log number is not above it. |
| Manifest.Reopen | leveldb-library/db/version_set.cc:886-1010 | Recovering from the manifest of a version set gives back its version, log numbers, and the counters of its last edit. |
| History.ReadAtLast | leveldb-library/include/leveldb/db.h:60-90 | The last operation decides the read of its own user key and leaves the others alone. |
| History.OneMoreOp | leveldb-library/db/memtable.cc:75-98 | Adding the entry of one more operation keeps every read faithful to the history and serves the new snapshot. |
| History.GroupIsReplayed | leveldb-library/db/db_impl.cc:1203-1230 | A write group adds up to replaying its operations one by one. |
| Store.FlushKeepsValid | leveldb-library/db/db_impl.cc:491-566 | Adding a flushed memtable at the chosen level keeps the version invariant and adds exactly its entries. |
| Store.MoveKeepsVersion | leveldb-library/db/db_impl.cc:719-736 | A trivial move keeps the version invariant and every entry. |
| Store.StepKeepsInv | leveldb-library/db/db_impl.cc:535-1260 | Every harmless step keeps the invariant: structure, and faithfulness of every read at or above the oldest snapshot. |
| Store.CompactionKeeps | leveldb-library/db/db_impl.cc:878-1036 | Every compaction keeps the structure of the store; a harmless one keeps all reads. |
| Store.ReadsFollowHistory | leveldb-library/db/db_impl.cc:1100-1145 | Over every run of harmless steps a read at a live snapshot, or at the last sequence number, returns what replaying the operations up to it returns; a snapshot reads the same at every moment it is live. |
| DbImpl.LayeredRead | leveldb-library/db/db_impl.cc:1117-1130 | The first of memtable, immutable memtable and version that has a match decides a read. |
| DbImpl.DBImpl.Get | leveldb-library/db/db_impl.cc:1100-1145 | Get returns what replaying the operations up to the snapshot returns, and charges a seek exactly as Version::Get does when both memtables have no answer; nothing else changes. |
| DbImpl.DBImpl.UpdateStats | leveldb-library/db/version_set.cc:422-434 | A charged file loses a seek, and the first one to run out is the file to compact; without a charge nothing changes. |
| DbImpl.DBImpl.Write | leveldb-library/db/db_impl.cc:1203-1235 | A group enters the memtable with consecutive sequence numbers. |
| DbImpl.DBImpl.SwitchMemTable | leveldb-library/db/db_impl.cc:1345-1366 | The full memtable becomes the immutable one; reads do not change. |
| DbImpl.DBImpl.GetSnapshot | leveldb-library/db/snapshot.h:57-72 | The snapshot of the last sequence number joins the end of the list. |
| DbImpl.DBImpl.ReleaseSnapshot | leveldb-library/db/snapshot.h:80-87 | A snapshot leaves the list; the others keep their reads. |
| DbImpl.DBImpl.CompactMemTable | leveldb-library/db/db_impl.cc:491-566 | The immutable memtable becomes a table at the level the code picks, or nothing when it is empty. |
| DbImpl.DBImpl.RunCompaction | leveldb-library/db/db_impl.cc:878-1036 | A whole compaction is the compaction step of the store, with its outputs cut as the loop cuts them and everything dropped that may be; it keeps the structure always and the reads if it is harmless. |
| DbImpl.DBImpl.NeedsCompaction | leveldb-library/db/version_set.h:252-255 | There is automatic work exactly if some level is due for its size or a file has used up its seeks. |
| DbImpl.DBImpl.BackgroundCompaction | leveldb-library/db/db_impl.cc:688-767 | One unit of background work is one step of the store, made as the code makes it: a flush first, then a manual compaction, and otherwise exactly what is due. The rest of a manual compaction keeps the level and the end, above level 0 begins no earlier, and overlaps every file of the level that overlaps the request and is not an input; without a rest no such file is left. |
| DbImpl.DBImpl.CompactLevel | leveldb-library/db/db_impl.cc:585-622 | Repeating the background work until the manual compaction is done ends, and leaves no file of the level in the range that was asked for. |
| DbImpl.DBImpl.CompactRange | leveldb-library/db/db_impl.cc:564-583 | Compacting a range flushes the memtable and then empties the range level by level, down to the deepest level that had files in it when it began. |
| DbImpl.AddInputDeletions | leveldb-library/db/version_set.cc:1525-1531 | The edit deletes exactly the numbers of the inputs, at their levels. |
| DbImpl.EditReplaces | leveldb-library/db/db_impl.cc:860-876 | Applying the edit of a compaction replaces the inputs by the outputs and leaves all other files alone. |
| DbImpl.DBImpl.NewIterator | leveldb-library/db/db_impl.cc:1062-1087 | The iterator ranges over exactly the entries of the store, at the sequence number of the snapshot. |
| CrashRecovery.StepKeepsEpochs | leveldb-library/db/db_impl.cc:491-566 | At every moment the version serves the operations up to one mark, the immutable memtable has those up to the next, and the memtable the rest. |
| CrashRecovery.RecoveryKeepsInv | leveldb-library/db/db_impl.cc:292-369 | A store whose version has survived a crash, with tables of the operations that came back, is in order again; lost operations leave no trace. |
| CrashRecovery.ReadsFollowWhatIsLeft | leveldb-library/db/db_impl.cc:1100-1145 | Through any number of harmless steps and crashes, a read at a live snapshot or the last sequence number returns what replaying the operations that have not been lost returns. |
| CrashRecovery.TablesOutliveCrashes | leveldb-library/db/db_impl.cc:323-366 | What a table has taken up once is never lost, whatever steps and crashes follow. |
| LogRecovery.CommittedLog | leveldb-library/db/db_impl.cc:1203-1230 | The log group commit writes holds the operations committed, group by group. |
| LogRecovery.RecoverLog | leveldb-library/db/db_impl.cc:371-450 | What is left of a log gives a memtable of exactly the operations of the groups it holds whole. |
| LogRecovery.WholeGroupsComeBack | leveldb-library/db/db_impl.cc:371-450 | Of the operations in the logs, exactly those come back whose group is whole. |
| LogRecovery.ReplayLogs | leveldb-library/db/db_impl.cc:349-366 | Replaying the logs in order gives tables of exactly what comes back, in ascending numbers, and the largest sequence number. |
| StoreManifest.StepIsTold | leveldb-library/db/db_impl.cc:535-566 | If a step logs its edit, the manifest goes on describing the version, each file number naming one file. |
| Disk.CommitAppends | leveldb-library/db/db_impl.cc:1203-1230 | A commit of the write queue appends one record of its group, numbered on, to the log. |
| Disk.StepStaysOnDisk | leveldb-library/db/db_impl.cc:535-566 | Every step keeps on disk what is needed to open the store again: the manifest gives the version, and the logs it still needs are those of the memtables and hold exactly their operations. |
| Disk.CrashLosesBrokenGroups | leveldb-library/db/db_impl.cc:349-366 | A crash loses, of the operations in the logs still needed, exactly those whose group is not whole any more. |
| Disk.CrashStaysOnDisk | leveldb-library/db/db_impl.cc:1474-1515 | After a crash and reopening the disk is in order again, ready for the next crash. |
| Disk.LifeIsRecoverable | leveldb-library/db/db_impl.cc:280-368 | Over every life of steps and crashes, with log rotation and new manifests, the store can be opened again at every moment. |
| Disk.ManifestRestoresLife | leveldb-library/db/version_set.cc:886-1010 | Whatever version is read back from the manifest at some moment of a life is the version the store has reached. |
| Disk.DiskLifeIsLife | leveldb-library/db/db_impl.cc:280-368 | With the disk in view the store lives a life of steps and crashes, so that its reads follow what is left of the history. |
| Opening.LogsInOrder | leveldb-library/db/db_impl.cc:323-350 | The log files that the descriptor does not know to be obsolete, in the order of their numbers. |
| Opening.NeededLogs | leveldb-library/db/db_impl.cc:323-350 | These are exactly the logs of the immutable and the current memtable. |
| Opening.Open | leveldb-library/db/db_impl.cc:1474-1515 | DB::Open on whatever a crash has left of the logs succeeds, and the store it opens, its manifest and its counters are those of the life going on after that crash. |
| LostWrites.LossIsATail | leveldb-library/db/db_impl.cc:349-366 | What comes back is a beginning of the history if and only if the older log is whole or nothing of the younger one is. |
| LostWrites.LaterWriteOutlivesEarlier | leveldb-library/db/db_impl.cc:349-366 | A life of three steps and what a crash leaves of its two logs, after which the first write is lost and the second is there. |
| Iterators.MergeRuns | leveldb-library/table/merger.cc:31-60 | Merging sorted runs with distinct keys gives the sorted list of exactly their entries. |
| Iterators.MergingIterator.FindSmallest | leveldb-library/table/merger.cc:148-161 | The child with the smallest key is the one that stands at the next merged entry. |
| Iterators.MergingIterator.FindLargest | leveldb-library/table/merger.cc:163-176 | The child with the largest key is the one that stands at the last merged entry before the position. |
| Iterators.MergingIterator.Seek | leveldb-library/table/merger.cc:53-59 | Seek goes to the first merged entry at or after the target. |
| Iterators.MergingIterator.Next | leveldb-library/table/merger.cc:61-84 | Next moves to the following merged entry, whichever way the iterator was going. |
| Iterators.MergingIterator.Prev | leveldb-library/table/merger.cc:86-108 | Prev moves to the preceding merged entry, whichever way the iterator was going. |
| InternalIterators.AllRunsAreGood | leveldb-library/db/version_set.cc:230-250 | Memtables, level-0 files and the concatenated files of each other level are sorted runs without common keys that hold exactly the entries of the store. |
| InternalIterators.ScanFollowsHistory | leveldb-library/db/db_impl.cc:1147-1157 | A scan at a sequence number moves over the map that replaying the operations up to it gives, in both directions. |
| DbIterator.ShownIsVisible | leveldb-library/db/db_iter.cc:168-198 | An entry that is a value and the first admitted one of its user key is what a read of the user key returns. |
| DbIterator.DBIter.FindNextUserEntry | leveldb-library/db/db_iter.cc:168-198 | The scan stops at the first entry that is neither too new nor hidden nor deleted. |
| DbIterator.DBIter.FindPrevUserEntry | leveldb-library/db/db_iter.cc:227-267 | The backward scan collects the last visible user key at or before the internal position. |
| DbIterator.DBIter.SeekToFirst | leveldb-library/db/db_iter.cc:283-292 | The smallest visible user key. |
| DbIterator.DBIter.SeekToLast | leveldb-library/db/db_iter.cc:294-299 | The greatest visible user key. |
| DbIterator.DBIter.Seek | leveldb-library/db/db_iter.cc:269-281 | The smallest visible user key at or after the target. |
| DbIterator.DBIter.Next | leveldb-library/db/db_iter.cc:141-166 | The smallest visible user key above the current one, also after a change of direction. |
| DbIterator.DBIter.Prev | leveldb-library/db/db_iter.cc:200-225 | The greatest visible user key below the current one, also after a change of direction. |
| DbIterator.DBIter.Val | leveldb-library/db/db_iter.cc:68-75 | The value is the one a read of the current user key returns. |
| LogFormat.MaskRoundTrip | leveldb-library/util/crc32c.h:29-38 | Unmasking a masked checksum gives the checksum back. |
| LogFormat.CutAtBlockEnd | leveldb-library/db/log_writer.cc:40-60 | A record is cut only where its block ends, and the rest of a block is left only when no header fits. |
| LogWriter.Writer.EmitPhysicalRecord | leveldb-library/db/log_writer.cc:82-108 | The header and payload of one physical record are appended. |
| LogWriter.Writer.AddRecord | leveldb-library/db/log_writer.cc:34-80 | A record is laid out in fragments that never cross a block boundary, behind all earlier records. |
| LogReader.Reader.ReadPhysicalRecord | leveldb-library/db/log_reader.cc:189-271 | On any bytes, a sound record in the place where the next one is looked for is returned, nothing goes past the end of its block, and the end of the file is reported only there, or at a sound record of the type that stands for it. The next physical record of a log is returned if the file holds all of it; otherwise the end of the file, without a report. |
| LogReader.Reader.ReadRecord | leveldb-library/db/log_reader.cc:56-174 | On any bytes, a record returned is put together from well-formed, checksummed pieces of the file in order, and no record is passed over that is spelled by sound pieces in a row from the start of a block; without a record the reader stands at the end of the file, or at a sound record of the type that stands for it. On what is left of a log it yields the next record exactly if the file holds all of it, and reports no corruption. |
| LogReader.ReadAll | leveldb-library/db/log_reader.cc:56-174 | On any bytes, everything up to the end of the file is read, and every record that sound pieces in a row from the start of a block spell is among those found; any truncation of a log yields exactly the records it wholly contains, in order, with no corruption reported. |
| LogReader.RunAdvances | leveldb-library/db/log_reader.cc:71-171 | One physical record never loses a record that sound pieces spell: it is still ahead, under way, or complete. |
| LogDamage.AgreeingBlocksAreRun | leveldb-library/db/log_writer.cc:34-80 | A file that agrees with a log from the start of a block up to the end of a record has sound pieces in a row from there that spell the record. |
| LogDamage.RecordComesBack | leveldb-library/db/log_reader.cc:56-271 | Whatever has happened to other blocks, such a record is found, from its own bytes. |
| LogDamage.RecordsComeBackInOrder | leveldb-library/db/log_reader.cc:56-271 | Two such records come back in the order of the log. |
| LogDamage.SparedGroupIsRecovered | leveldb-library/db/db_impl.cc:399-437 | The updates of a committed group whose record the damage has spared are recovered, all of them and with their sequence numbers. |
| Coding.Fixed64RoundTrip | leveldb-library/util/coding.cc:20-33 | Decoding an encoded 64-bit number gives it back. |
| Coding.EncodeVarint32 | leveldb-library/util/coding.cc:47-73 | Each of the five cases writes the base-128 form of the number. |
| Coding.EncodeVarint64 | leveldb-library/util/coding.cc:81-90 | The loop writes the base-128 form of the number. |
| Coding.ReadWritten | leveldb-library/util/coding.cc:111-128 | Reading a written varint gives the number and its length, whatever follows. |
| Coding.GetVarint | leveldb-library/util/coding.cc:111-168 | The accumulating loop returns the number the bytes start with, cut to the width, or fails exactly when there is none within the allowed bytes. |
| Coding.GetLengthPrefixedSlice | leveldb-library/util/coding.cc:181-190 | On any bytes, the length-prefixed string in front is returned and removed, or there is none: no length within five bytes, or too few bytes behind it. |
| WriteBatches.WriteBatch.AddPut | leveldb-library/db/write_batch.cc:98-103 | One more put at the end of the updates a batch represents. |
| WriteBatches.WriteBatch.AddDelete | leveldb-library/db/write_batch.cc:105-109 | One more deletion at the end of the updates a batch represents. |
| WriteBatches.WriteBatch.Append | leveldb-library/db/write_batch.cc:144-148 | The updates of the other batch follow. |
| WriteBatches.InsertInto | leveldb-library/db/write_batch.cc:42-80 | On any bytes, the updates up to the first malformed one are numbered from the sequence number in the header and added; the status is the exact message for a short header, a malformed update or a wrong count, and otherwise Ok. |
| WriteBatches.UpdatesRoundTrip | leveldb-library/db/write_batch.cc:42-80 | Reading the bytes of a list of updates gives the list back, without an error. |
| WriteBatches.BatchRoundTrip | leveldb-library/db/write_batch.cc:42-80 | A batch that represents some updates inserts exactly these, from its sequence number on, and reports Ok. |
| GroupCommit.BuildBatchGroup | leveldb-library/db/db_impl.cc:1260-1306 | The group is the longest run of writers from the front that the sync and size rules let join, and holds their updates in queue order. |
| GroupCommit.WriteQueue.CommitFront | leveldb-library/db/db_impl.cc:1185-1254 | The front writer commits a group: one log record, consecutive sequence numbers, and exactly the writers of the group leave the queue. |
| GroupCommit.RecoverLogFile | leveldb-library/db/db_impl.cc:371-450 | On any file the records handled are genuine, what they hold goes to the memtable in order, and with paranoid checks the status is Ok exactly when nothing was reported and every batch was good; with status Ok everything up to the end of the file was read and no record was missed that sound pieces in a row from the start of a block spell. From any truncation of a log the groups it holds whole come back, with the sequence number of the last of them. |
| PbMessages.DefaultIsSame | nanopb/pb_encode.c:240-337 | A value that the proto3 check takes for the default is the default, up to absent contents. |
| PbMessages.CanonIsSame | nanopb/pb_decode.c:839-925 | A struct whose absent fields are at their defaults is the same up to absent contents. |
| PbWire.WireRoundTrip | nanopb/pb_encode.c:630-639 | Two's complement and ZigZag forms of every integer of every field size are undone by the decoder's casts. |
| PbWire.ZigZagCounts | nanopb/pb_encode.c:630-639 | ZigZag counts the integers away from zero, each negative one right before its positive. |
| PbWire.TwosComplement | nanopb/pb_encode.c:776-800 | A plain varint is the integer modulo 2^64. |
| PbWire.WireMeans | nanopb/pb_decode.c:1339-1421 | What any number on the wire stands for: modulo 2^64, or 2^32 in a field of up to four bytes, itself, or the integer whose ZigZag form it is. |
| PbWire.DefaultTakesNoBytes | nanopb/pb_encode.c:240-337 | A submessage is taken for the default exactly if it has no bytes and no field that must have some. |
| PbWire.ScalarDefaults | nanopb/pb_encode.c:270-337 | A scalar is taken for the default exactly if it is; bytes of a fixed length only if they have none. |
| PbWire.NumberExample | nanopb/pb_encode.c:669-673 | The first example of the Encoding guide has the bytes given there. |
| PbWire.FixedExample | nanopb/pb_encode.c:641-667 | Numbers of a fixed width have their lowest byte first. |
| PbWire.PackedExample | nanopb/pb_encode.c:147-236 | The packed field of the Encoding guide has the bytes given there. |
| PbEncode.OStream.Write | nanopb/pb_encode.c:103-126 | A write succeeds exactly if it fits; a sizing stream only counts. |
| PbEncode.OStream.EncodeVarint | nanopb/pb_encode.c:608-628 | The group loop writes the base-128 form of the number. |
| PbEncode.EncodeArray | nanopb/pb_encode.c:147-236 | Nothing for an empty array, packed items behind their measured length where the kind allows it, tagged items otherwise; fails exactly if the array is too long, an item is refused, or the stream is full. |
| PbEncode.EncodeField | nanopb/pb_encode.c:341-426 | The bytes of a field under its presence rule, the same in a sizing pass and when writing. |
| PbEncode.EncodeSubmessage | nanopb/pb_encode.c:717-765 | The sizing pass measures what the second pass writes; the length comes first. |
| PbEncode.EncodeMessage | nanopb/pb_encode.c:528-550 | The fields in descriptor order; fails exactly if a field is refused or the stream is full. |
| PbEncode.GetEncodedSize | nanopb/pb_encode.c:567-576 | The size of the encoding, without writing it. |
| PbStreams.IStream.DecodeVarint | nanopb/pb_decode.c:255-275 | The 64-bit number the stream starts with, or failure exactly when ten bytes do not end one. |
| PbStreams.IStream.DecodeVarint32 | nanopb/pb_decode.c:187-247 | On any bytes, the number of 32 bits in front or failure exactly when the bits above do not continue its sign or zeros; the end of the stream is told apart from other failures. |
| PbStreams.Written32 | nanopb/pb_decode.c:187-247 | Every number of 32 bits is read back from its written form, whatever follows. |
| PbStreams.SignExtended | nanopb/pb_decode.c:205-230 | A negative number written as a varint of 64 bits is read back as its lower 32 bits. |
| PbStreams.IStream.DecodeTag | nanopb/pb_decode.c:298-319 | On any bytes, the field number and wire type of the tag in front; a tag of zero and the end of the stream are told apart from other failures. |
| PbStreams.IStream.MakeSubstream | nanopb/pb_decode.c:372-385 | On any bytes, a length-delimited part in front becomes a stream of exactly its bytes; failure exactly when there is no length or fewer bytes than it says. |
| PbStreams.IStream.CloseSubstream | nanopb/pb_decode.c:387-399 | The parent goes on exactly behind the declared length, however much of the substream was read. |
| PbStreams.IStream.SkipField | nanopb/pb_decode.c:322-332 | Skipping a field passes over exactly its bytes, and fails exactly if they are not there or the wire type is not one. |
| PbDecode.DecodeInt | nanopb/pb_decode.c:1339-1421 | On any bytes, the value the number in front stands for if the cast to the size of the field leaves it as it is, and otherwise an error; what follows is left. |
| PbDecode.DecodeText | nanopb/pb_decode.c:1441-1564 | On any bytes, the contents in front if there is room for them in the memory of the field, and otherwise an error; what follows is left. |
| PbDecode.NumberArrives | nanopb/pb_decode.c:1339-1439 | Every number of every kind that was written is read back, and what follows is left. |
| PbDecode.TextArrives | nanopb/pb_decode.c:1441-1564 | Bytes, strings and fixed-length bytes that were written come back exactly when they fit, the terminator of a string included. |
| PbMessageDecode.FindField | nanopb/pb_common.c:78-95 | The search goes from the current position around to where it started and stops at the first field with the tag. |
| PbMessageDecode.DecodeRun | nanopb/pb_decode.c:419-452 | On any bytes, the items of a packed array go into the slot one after the other; success exactly if all bytes are used up by items for which there is room. |
| PbMessageDecode.DecodeField | nanopb/pb_decode.c:406-480 | On any bytes, what a field makes of what comes next: present flags, array entries, and the selected member of a union; the struct stays within its memory. |
| PbMessageDecode.DecodeSubmessage | nanopb/pb_decode.c:1519-1541 | On any bytes, a submessage is decoded within its declared length, into what is in memory or into defaults. |
| PbMessageDecode.DecodeMessage | nanopb/pb_decode.c:928-1076 | On any bytes it returns, with success and the struct exactly as the reference function over bytes says, and on success the struct is within its memory: arrays have no more entries than there is room for, bytes and strings fit, integers are in range, and a union has one member. |
| PbRows.MeaningArrives | nanopb/pb_decode.c:928-1076 | Decoding a row of well-formed records, in any order, packed or not, nested, with unknown fields in between, succeeds exactly if the row has a meaning for the struct in memory, and gives that; a zero in the place of a tag ends the message. |
| PbRows.RunIsWhole | nanopb/pb_decode.c:419-452 | Whatever bytes a packed array accepts are items one right behind the other up to the last byte, and these are what it stores. |
| PbRows.MessageIsWhole | nanopb/pb_decode.c:946-1024 | A message that is accepted is fields one right behind the other, each taken as the one its tag names, up to the last byte or a zero in the place of a tag. |
| PbRows.UnknownFieldIsPassedOver | nanopb/pb_decode.c:959-988 | A field that the descriptor does not have takes exactly its own bytes, wherever it stands. |
| PbRows.PackedOrNot | nanopb/pb_decode.c:419-464 | The items of a packable array may come in a run or each in a record of its own, anywhere in a message: decoding makes the same of both. |
| PbFieldwise.DecodedFieldByField | nanopb/pb_decode.c:928-1076 | A row of well-formed records is accepted exactly if the required fields come and every field can take its records; each field then holds what its own records mean, whatever lies between them. |
| PbFieldwise.RepeatedHoldsItems | nanopb/pb_decode.c:419-464 | A repeated field holds what it held and then the items of its records in order, lone or in runs, if there is room for all of them; otherwise the row is refused. |
| PbFieldwise.FixedCountHoldsItems | nanopb/pb_decode.c:990-1028 | An array of fixed count holds exactly the items of its records, and there must be as many as it has entries. |
| PbFieldwise.BrokenOffArrayIsFull | nanopb/pb_decode.c:990-1010 | Where a record of another array of fixed count breaks an array off, it must be full or not begun, and what comes behind starts over. |
| PbFieldwise.NextRecordDecides | nanopb/pb_decode.c:411-417 | A field that is no array is decided by one record after the other: a value replaces, a submessage is decoded into what was there. |
| PbFieldwise.LastRecordCounts | nanopb/pb_decode.c:411-480 | The last record of a field that is no array counts, and selects it in its union; a later one of another member deselects it. |
| PbRoundTrip.RowOfBytes | nanopb/pb_encode.c:528-550 | An encoded struct is the bytes of its row of records. |
| PbRoundTrip.RowOfMeans | nanopb/pb_decode.c:1078-1090 | The row of a struct means the struct, with absent fields at their defaults. |
| PbRoundTrip.EncodeThenDecode | nanopb/pb_decode.c:1078-1090 | Decoding what was encoded restores the struct up to the contents of what is absent. |
| PbDecode.FittingIsTyped | nanopb/pb_decode.c:1339-1564 | Whatever the decoder accepts is a value that a C object of the type can hold. |

## Left out

- User keys are positions in the order of the user's comparator, since the engine only ever compares them; byte-wise separators and successors of keys (`FindShortestSeparator`, `FindShortSuccessor`) are therefore not part of the core model.
- Table files are modelled by their sorted entries: the block format, index blocks, filters and the table cache are left out.
- Memtables are modelled as sorted lists: the skip list below them and its lock-free readers are left out.
- The memtable flush that runs inside a running compaction is not interleaved with it; flushes and compactions alternate as whole steps.
- When a background thread gets to run, and after how many bytes an iterator takes a sample (`db_iter.cc:122-131`); a read charges its seek to the version that is current when it ends.
- I/O errors, corrupt table files, `Env`, mutexes and condition variables, and deletion of obsolete files.
- A cursor holds the entries its memtable had when the iterator was made; entries added later are too new for the iterator's sequence number.
- Corrupt internal keys under an iterator (`ParseKey` failing in `db_iter.cc:122-139`).
- Reading a log from an offset other than its start (`initial_offset_`, `resyncing_`), and `LastRecordOffset`.
- The polynomial of CRC32C: the checksum is a parameter of which only `Extend(Extend(c, a), b) = Extend(c, a + b)` is used.
- Flushing the memtable in the middle of a log recovery when it grows too large (`db_impl.cc:438-448`; `CrashRecovery.Reopens` allows for it, `LogRecovery.ReplayLogs` makes one table for each log), and reusing the last log file and the manifest.
- The byte encoding of version edits, their comparator name and compaction pointers; the manifest is a list of edits.
- Compaction pointers of the picker are not restored from a manifest; after a crash a size compaction may start with any file.
- Opening.Open: missing table files (`db_impl.cc:330-347`) and logs that a crash has damaged rather than cut short; what `RecoverLogFile` does with damaged logs is stated there.
- A crash in the middle of writing a manifest record, a table, or the CURRENT file: steps and reopening are atomic, so that the manifest ends with a whole record.
- WriteBatches.InsertInto: sequence numbers are not reduced modulo 2^64 within a batch, and stay below `kMaxSequenceNumber` as elsewhere.
- Store.ReadsFollowHistory: needs `Harmless` at each compaction step, because without it the claim is false of the code (see `ParentBoundary.DeletedValueReturns`).
- The LRU cache, bloom filters, the arena, repair, and the C interface.
- nanopb: pointer and callback fields, extensions, dynamic allocation, builds without 64-bit integers, error messages, and input streams other than memory.
- PbRows.MeaningArrives: the records of a row carry their numbers and lengths in the shortest form; overlong forms, and wire types that do not belong to the kind of the field, which the decoder does not check, are covered by the reference functions over bytes (`PbMessageDecode.MessageAt`) only.
- Struct layout: descriptors name slots of a struct value, so the pointer arithmetic of the field iterator (`data_offset`, `size_offset`) is not modelled, nor the terminator entry of a descriptor list; a tag number 0 never matches a field.
- The contents that an array of fixed count has before anything is decoded: the code clears the first bytes only (`pb_decode.c:874-881`), the model all entries; an encoded array overwrites every entry.
- Default values other than zero: they only decide what absent fields hold.
- The bitmap of required fields is a set of indices; only the first 64 required fields are checked, as in the code.
- PbStreams.IStream.DecodeVarint32: the bit position is not reduced to eight bits, which matters only for inputs of more than 36 continuation bytes.
