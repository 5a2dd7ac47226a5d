# LevelDB and nanopb, modelled and proved

The application in this repository brings along two libraries on which its data depends. LevelDB (under
`punch_app/ios/Pods/leveldb-library`) is a log-structured store: write queue, log, memtables, seven levels of
table files, compaction and MANIFEST must at every moment agree with a simple map from (user key, snapshot) to a
value. nanopb (under `punch_app/ios/Pods/nanopb`) encodes messages described by field tables in two passes and
decodes them again. This project models both in Dafny and proves that they do what they are for.

`dafny verify dfyconfig.toml` checks everything.

## The main results

- **Durability over whole runs** (`Store`, `StoreLevels`, `StoreSafety`). The store is a state machine over an
  abstract disk: log append, memtable insertion, publication, memtable switch, flush, compaction, install,
  deletion of obsolete files, crash, recovery. Every step keeps one invariant; acknowledged writes survive any
  run with any crashes, and a read at any live snapshot answers from exactly the acknowledged writes.
- **Compaction preserves meaning** (`Inputs`, `DropRule`, `CompactionLoop`, `Installs`). Input selection, the
  merge loop with its drop rule and moving base-level pointers, and the installed outputs give every read from
  the oldest snapshot on the same answer. That is true if and only if no dropped marker covers a value that
  stays outside the inputs; `Installs.UpperBoundaryMatters` is a concrete version in which it is false.
- **Cursors** (`Cursors`, `TwoLevel`, `DBIter`). Merging iterator, two-level iterator and snapshot cursor are
  exact bidirectional positions in one sorted sequence, through every change of direction; over any sequence of
  calls blocks, tables and merges show what a plain cursor shows (`Iteration`).
- **Group commit and the skip list under interleaving** (`WriteQueue`, `SkipLists`), step by step.
- **A flush inside a compaction** (`NestedFlush`, used by `StoreSafety`). A compaction reads one version and is
  installed on another, with memtables flushed and files deleted in between. Whatever is flushed, its outputs still
  fit into their level if and only if the placement rule finds no room for a table between the inputs; then the
  selection and the drop decisions made on the old version hold on the new one. Automatic selections leave no room
  (`Inputs`); a manual one may, and `NestedFlush.FlushIntoGapOverlaps` is one that does.
- **MANIFEST replay** (`Builders`, `Recovery`): from the encoded records to the recovered levels. Where every
  edit adds numbers that its level does not have at that time, one builder fed all edits is after each of them where
  one version per edit would be, if and only if no number is ever given to two different files. Then what was logged
  comes back level by level, with every number, size and key (`Manifests`).
- **Bytes**: the log with reopened writers, cut at any byte or damaged in any block (`LogFormat`, `Log`,
  `LogChecksum`, `LogDamage`); the strided
  CRC32C of section 12.1 of RFC 3720 (`Registers`, `Crc32c`); prefix-compressed blocks (`BlockFormat`, `Blocks`);
  shortened index keys, bloom filters and the point lookup through them (`Separators`, `Blooms`, `FilterBlocks`,
  `Tables`); varints, edits and batches (`Coding`, `EditCodec`, `Batches`); all of them byte by byte in the smallest
  cases (`Formats`).
- **The LRU cache** (`Rings`, `HandleTables`, `LruCache`) with its own chained hash table and two circular lists is a
  map from keys to the values inserted last.
- **nanopb** (`Protos`, `ProtoEncoder`, `ProtoReading`, `ProtoDecoder`, `ProtoRoundTrip`, `ProtoTransfer`): the sizing pass counts
  exactly what the writing pass emits at every depth, and decoding rebuilds what was encoded if and only if every
  string that is written leaves room for its terminator. Unknown fields make no difference, wherever they stand and
  at any depth, and the bytes alone tell a reader without a descriptor where every field ends (`ProtoUnknown`); what is
  refused is refused exactly (`ProtoRefusals`).

## How it is modelled

- Code that changes things in place is a class or a method with loops, proved against functions and predicates on
  values; the lemmas are about those. Concurrency is a state machine whose steps are the source's own stores, loads
  and lock regions, and the theorems range over all runs.
- User keys are ranks in the user comparator's order (`real`, into which every countable order embeds);
  `Keys.RankIsOrderEmbedding` ties the bytewise comparator to them. Where the bytes of a key matter (separators,
  filters, blocks, the cache) they are bytes.
- Machine integers are unbounded except where width matters: varints, checksums, fixed-width fields, sequence
  numbers, hashes and nanopb's field sizes are kept to their width.
- Internal keys are well formed and pairwise distinct, as sequence numbers make them.

Where the code and its comments differ the model follows the code:

- db_iter.cc:44-45 says the internal cursor stands just before all entries of the current key when moving
  backward. There may be entries in between, all of them invisible at the snapshot; the invariant says so.
- db/version_edit.cc:26-39 clears an edit but for its compaction pointers, so `DecodeFrom` into a used edit keeps
  them; `EditCodec.EditRoundTripIff` gives the condition.
- db/version_set.cc:1365-1401 searches boundary files for `level`; for `level+1` there is no such search. The
  theorems use the exact condition instead, that no dropped marker covers a value outside the inputs, and
  `Installs.BoundaryCheckSuffices` shows that the search would ensure it.
- db/db_impl.cc:907-917 flushes in the middle of any compaction; the outputs of a manual one with a gap may then
  overlap the flushed table.
- pb_decode.c:222 allows for trailing zero bytes, or ones for negative numbers; the code looks at each byte alone, so
  that mixtures pass as well (`ProtoRefusals.Varint32TakesMore`; `Varint32Iff` gives the condition).
- filter_block.cc:98-100 treats an empty filter as matching nothing in a branch of its own; in a block the builder
  made, the branch before it is taken and comes to the same.

## Model

| member | source | states |
|---|---|---|
| `Keys.CompareIsTotalOrder` | punch_app/ios/Pods/leveldb-library/db/dbformat.cc:51-71 | the internal-key comparison is a total order: user key ascending, then sequence number and kind descending |
| `Keys.LookupKeySplits` | punch_app/ios/Pods/leveldb-library/db/dbformat.cc:113-138 | the lookup key for (user key, snapshot) sorts after every newer entry of that user key and at or before every older one |
| `Keys.RankIsOrderEmbedding` | punch_app/ios/Pods/leveldb-library/util/comparator.cc:25-27 | standing for a user key by a real rank loses nothing: for byte strings the rank order is exactly the bytewise order |
| `Reads.ReadOfUnion` | punch_app/ios/Pods/leveldb-library/db/db_impl.cc:1100-1145 | a read over newer entries on top of older ones answers from the newer ones if they hold a visible entry, else from the older ones |
| `Versions.FindFile` | punch_app/ios/Pods/leveldb-library/db/version_set.cc:88-108 | binary search returns the first file whose largest key is at or after the key |
| `Versions.SomeFileOverlapsRange` | punch_app/ios/Pods/leveldb-library/db/version_set.cc:110-157 | true exactly if some file meets the user-key range, for disjoint files by binary search as well as for overlapping ones, open ends included |
| `Versions.Version.CandidateFiles` | punch_app/ios/Pods/leveldb-library/db/version_set.cc:326-421 | the files searched in a level: if none of them holds a visible entry, the whole level holds none |
| `Versions.Version.Get` | punch_app/ios/Pods/leveldb-library/db/version_set.cc:326-421 | the layered lookup (level 0 newest file first, then one file per level) equals the flat read of the newest visible entry among all entries of the version |
| `Inputs.GetOverlappingInputs` | punch_app/ios/Pods/leveldb-library/db/version_set.cc:519-559 | the restarting loop terminates; in level 0 it returns exactly the files meeting the least range that is closed under overlap and contains the one asked for |
| `Inputs.FindSmallestBoundaryFile` | punch_app/ios/Pods/leveldb-library/db/version_set.cc:1344-1363 | the boundary file returned has the smallest start among all files that continue the last user key |
| `Inputs.AddBoundaryInputs` | punch_app/ios/Pods/leveldb-library/db/version_set.cc:1365-1401 | the boundary search terminates, only adds files of the level, and leaves none that continues its largest user key; from a run of a disjoint level it makes a longer run |
| `Inputs.NothingOlderBehind` | punch_app/ios/Pods/leveldb-library/db/version_set.cc:1365-1401 | after boundary search no file of the level that stays behind holds an older entry for a user key of an input |
| `Inputs.SetupOtherInputs` | punch_app/ios/Pods/leveldb-library/db/version_set.cc:1403-1462 | for any start that overlap and boundary search yield: the start stays in, the inputs grow only if that costs no further file of the next level and the total stays under 25 times the file size, and what comes out is legal: nothing older stays behind in the level, and the other inputs are exactly the next-level files meeting the hull |
| `Inputs.PickCompaction` | punch_app/ios/Pods/leveldb-library/db/version_set.cc:1270-1324 | the first file behind the compaction pointer (or the first of the level), or the file that seeks have singled out, is among the inputs; with the overlap of level 0 they are legal and leave no gap |
| `Inputs.ClosureIsGapless` | punch_app/ios/Pods/leveldb-library/db/version_set.cc:1301-1318 | the least closed range around a level-0 file is covered by the files in it |
| `Inputs.WidenedIsGapless` | punch_app/ios/Pods/leveldb-library/db/version_set.cc:1415-1455 | growing inputs without a gap, with boundary files, gives inputs without a gap |
| `Inputs.CompactRange` | punch_app/ios/Pods/leveldb-library/db/version_set.cc:1464-1495 | found exactly when some file meets the range; level 0: every file that meets it is an input; deeper: those that meet it, in key order, up to the first at which the summed sizes reach the limit; beyond them only boundary files and what growing for free adds; the selection is legal |
| `Inputs.PickLevelForMemTableOutput` | punch_app/ios/Pods/leveldb-library/db/version_set.cc:491-517 | a flushed table goes to level 0 if that has an overlapping file, else to the deepest level reachable while the next one holds no overlapping file and the one below it at most ten times the file size of them |
| `DropRule.KeptAreSurvivors` | punch_app/ios/Pods/leveldb-library/db/db_impl.cc:917-977 | the loop over the sorted run keeps exactly: entries not hidden at the oldest snapshot, less the markers at or below it that have no deeper data |
| `DropRule.ReadAfterDrop` | punch_app/ios/Pods/leveldb-library/db/db_impl.cc:937-958 | for one user key and every snapshot from the oldest on, dropping changes no read when no value stays uncovered |
| `DropRule.DropRuleIsSafeIff` | punch_app/ios/Pods/leveldb-library/db/db_impl.cc:937-958 | over any entries kept outside the inputs: all reads from the oldest snapshot on are preserved if and only if no dropped marker covers a value outside |
| `CompactionLoop.Compaction.IsBaseLevelForKey` | punch_app/ios/Pods/leveldb-library/db/version_set.cc:1533-1552 | on ascending keys the moving pointers give the same answer as scanning every file of every deeper level |
| `CompactionLoop.Compaction.ShouldStopBefore` | punch_app/ios/Pods/leveldb-library/db/version_set.cc:1554-1576 | the grandparent pointer only moves forward and the overlap counter is the size of the files it has passed |
| `CompactionLoop.DoCompactionWork` | punch_app/ios/Pods/leveldb-library/db/db_impl.cc:890-1001 | the loop's outputs, in order, are exactly the entries the drop rule keeps; none is empty; each but the last has reached its size or ends where more grandparent bytes than allowed have been passed since the last stop, and none goes on beyond such a point |
| `CompactionLoop.CutsAreDisjoint` | punch_app/ios/Pods/leveldb-library/db/db_impl.cc:890-1001 | however the sorted run is cut, the output tables are sorted and have disjoint ranges in order |
| `CompactionLoop.CompactionIsCorrect` | punch_app/ios/Pods/leveldb-library/db/db_impl.cc:878-1038 | merged run, loop and installed outputs together, for any legal inputs: the new version is well formed, and every read from the oldest snapshot on gives the same answer if and only if no dropped marker covers a value outside, which the boundary check on level+1 would rule out |
| `Installs.InstalledIsWellFormed` | punch_app/ios/Pods/leveldb-library/db/db_impl.cc:860-876 | installing a compaction keeps files disjoint in levels 1 and up and shallower places newer |
| `Installs.NothingOlderUntouched` | punch_app/ios/Pods/leveldb-library/db/version_set.cc:1403-1462 | with the boundary check on level+1, no file outside the inputs, but for deeper levels, holds an older entry for a user key of an input |
| `Installs.CompactionPreservesReads` | punch_app/ios/Pods/leveldb-library/db/db_impl.cc:878-1038 | for every user key and every snapshot from the oldest on, a read gives the same answer before and after a compaction is installed (given the boundary check on level+1) |
| `Installs.CompactionPreservesReadsIff` | punch_app/ios/Pods/leveldb-library/db/db_impl.cc:878-1038 | without that check: reads are preserved if and only if no dropped marker covers a value that stays outside the inputs |
| `Installs.UpperBoundaryMatters` | punch_app/ios/Pods/leveldb-library/db/version_set.cc:1403-1424 | a concrete well-formed version and legal selection in which the missing check on level+1 brings a deleted value back |
| `StoreLevels.FlushExtends` | punch_app/ios/Pods/leveldb-library/db/db_impl.cc:490-533 | a table of the entries right behind those already in tables, placed where PickLevelForMemTableOutput allows, extends the versions read to them and keeps levels ordered by age |
| `StoreLevels.CompactionHolds` | punch_app/ios/Pods/leveldb-library/db/db_impl.cc:860-876 | after a compaction that uncovers nothing the levels still stand for the same writes, for all snapshots from its oldest one on, whatever version its drop decisions were made on |
| `NestedFlush.FlushKeepsSelection` | punch_app/ios/Pods/leveldb-library/db/db_impl.cc:907-917 | a memtable flushed in the middle of a compaction, wherever the placement rule puts it: the inputs are still a legal selection of the newer version, and drop decisions made on the older one uncover nothing |
| `NestedFlush.FlushIsSafeIff` | punch_app/ios/Pods/leveldb-library/db/version_set.cc:491-517 | whatever is flushed meanwhile, all outputs a compaction may have fit into their level, if and only if the placement rule finds no room between its inputs |
| `NestedFlush.GaplessLeavesNoRoom` | punch_app/ios/Pods/leveldb-library/db/version_set.cc:1270-1324 | automatic selections leave no such room |
| `NestedFlush.FlushIntoGapOverlaps` | punch_app/ios/Pods/leveldb-library/db/version_set.cc:1464-1495 | a concrete manual compaction of two files with a gap, a flush into the gap, and an output by the drop rule that overlaps the flushed table |
| `StoreLevels.RecoveredLevelsHold` | punch_app/ios/Pods/leveldb-library/db/db_impl.cc:371-488 | the level-0 tables made from replayed logs, in order, make the levels stand for all writes |
| `StoreSafety.StepKeepsInv` | punch_app/ios/Pods/leveldb-library/db/db_impl.cc:535-566 | every step (log append, insertion, publication, memtable switch, flush and file deletion, also in the middle of a compaction, the steps of a compaction, install, crash, recovery) keeps: tables plus kept logs hold every write, levels stand for their writes, a running compaction has a legal selection, files in use are on disk |
| `StoreSafety.FlushKeepsRunning` | punch_app/ios/Pods/leveldb-library/db/db_impl.cc:907-917 | in every state of a run, the compaction under way stays one that can be installed on the version the flush makes current |
| `StoreSafety.AutomaticLeavesNoRoom` | punch_app/ios/Pods/leveldb-library/db/db_impl.cc:907-917 | an automatic compaction never makes a flush wait, however many it has let through |
| `StoreSafety.RecoverKeeps` | punch_app/ios/Pods/leveldb-library/db/db_impl.cc:280-369 | recovery from the MANIFEST and the logs numbered at least its log number rebuilds every write, even after recoveries that crashed themselves |
| `StoreSafety.DeleteLogKeeps` | punch_app/ios/Pods/leveldb-library/db/db_impl.cc:223-278 | deleting a log numbered below the log number never deletes a write that only it holds |
| `StoreSafety.DeleteTableKeeps` | punch_app/ios/Pods/leveldb-library/db/db_impl.cc:223-278 | deleting a table that is no pending output, and that neither the current version nor one a reader or the running compaction holds names, leaves every file in use on disk |
| `StoreSafety.AcknowledgedWritesSurvive` | punch_app/ios/Pods/leveldb-library/db/db_impl.cc:280-369 | over any run with any crashes: the acknowledged writes of any moment are a prefix of those of any later moment |
| `StoreSafety.ReadsGoThroughLayers` | punch_app/ios/Pods/leveldb-library/db/db_impl.cc:1100-1145 | memtable, then immutable memtable, then version: the first that holds a visible entry answers as the whole history of acknowledged writes does |
| `StoreSafety.Get` | punch_app/ios/Pods/leveldb-library/db/db_impl.cc:1100-1145 | a read at the last sequence number or at any live snapshot answers from exactly the acknowledged writes |
| `StoreSafety.FilesInUseExist` | punch_app/ios/Pods/leveldb-library/db/db_impl.cc:223-278 | in every reachable state each file of the current version and of every version still read is on disk |
| `Cursors.MergingIterator.Next` | punch_app/ios/Pods/leveldb-library/table/merger.cc:55-79 | moves from position p of the sorted union to p+1, from either direction; every child is again behind the current key |
| `Cursors.MergingIterator.Prev` | punch_app/ios/Pods/leveldb-library/table/merger.cc:81-108 | moves from position p of the sorted union to p-1, from either direction |
| `Cursors.MergingIterator.Seek` | punch_app/ios/Pods/leveldb-library/table/merger.cc:47-53 | lands on the first key of the union at or after the target |
| `Cursors.MergingIterator.SeekToFirst` | punch_app/ios/Pods/leveldb-library/table/merger.cc:31-37 | lands on the first key of the union, or is invalid if all children are empty |
| `Cursors.MergingIterator.SeekToLast` | punch_app/ios/Pods/leveldb-library/table/merger.cc:39-45 | lands on the last key of the union |
| `Cursors.LeastRightOfCut` | punch_app/ios/Pods/leveldb-library/table/merger.cc:148-161 | with every child at its first key after the cut, the least child key is the union's next key |
| `Cursors.GreatestLeftOfCut` | punch_app/ios/Pods/leveldb-library/table/merger.cc:163-176 | with every child at its last key before the cut, the greatest child key is the union's previous key |
| `Cursors.UnionExists` | punch_app/ios/Pods/leveldb-library/table/merger.cc:178-189 | the sorted union of sorted children with distinct keys exists, so the positions above mean something |
| `DBIter.LiveIsReadable` | punch_app/ios/Pods/leveldb-library/db/db_iter.cc:168-198 | the live positions are exactly the answers of reads: a key and value stand at a live position if and only if a read of the key at the snapshot finds the value |
| `DBIter.LiveKeysAscend` | punch_app/ios/Pods/leveldb-library/db/db_iter.cc:39-120 | live positions come in strictly ascending user-key order, one for each live key |
| `DBIter.PrevUndoesNext` | punch_app/ios/Pods/leveldb-library/db/db_iter.cc:141-267 | a step back undoes a step forward and the other way round |
| `DBIter.DBIterator.Next` | punch_app/ios/Pods/leveldb-library/db/db_iter.cc:141-166 | from either direction, stands on the next live position or is invalid past the last |
| `DBIter.DBIterator.Prev` | punch_app/ios/Pods/leveldb-library/db/db_iter.cc:200-225 | from either direction, stands on the previous live position or is invalid before the first |
| `DBIter.DBIterator.Seek` | punch_app/ios/Pods/leveldb-library/db/db_iter.cc:269-281 | stands on the first live position at or after the target |
| `DBIter.DBIterator.SeekToFirst` | punch_app/ios/Pods/leveldb-library/db/db_iter.cc:283-292 | stands on the first live position |
| `DBIter.DBIterator.SeekToLast` | punch_app/ios/Pods/leveldb-library/db/db_iter.cc:294-299 | stands on the last live position |
| `DBIter.DBIterator.FindNextUserEntry` | punch_app/ios/Pods/leveldb-library/db/db_iter.cc:168-198 | the forward scan, hiding deleted and overwritten keys, stops at the next live position |
| `DBIter.DBIterator.FindPrevUserEntry` | punch_app/ios/Pods/leveldb-library/db/db_iter.cc:227-267 | the backward scan stops at the previous live position with its key and value saved |
| `TwoLevel.TwoLevelIterator.Next` | punch_app/ios/Pods/leveldb-library/table/two_level_iterator.cc:103-107 | moves one position forward in the concatenation of all blocks, skipping empty ones |
| `TwoLevel.TwoLevelIterator.Prev` | punch_app/ios/Pods/leveldb-library/table/two_level_iterator.cc:109-113 | moves one position back in the concatenation |
| `TwoLevel.TwoLevelIterator.Seek` | punch_app/ios/Pods/leveldb-library/table/two_level_iterator.cc:82-87 | lands on the first key of the concatenation at or after the target, when index keys bound their blocks |
| `TwoLevel.SeekLands` | punch_app/ios/Pods/leveldb-library/table/two_level_iterator.cc:82-87 | the block whose index key is the first at or after the target holds the position sought, or the next non-empty block begins with it |
| `Registers.StrideAdvances` | punch_app/ios/Pods/leveldb-library/util/crc32c.cc:304-321 | advancing the oldest of four strides over the next word makes it the youngest and moves the register they stand for by that word |
| `Registers.StridesAreWordSteps` | punch_app/ios/Pods/leveldb-library/util/crc32c.cc:344-369 | four words loaded into four strides, or four strides put together again, are four word steps of one register |
| `Crc32c.WordStepIsFourByteSteps` | punch_app/ios/Pods/leveldb-library/util/crc32c.cc:323-332 | a little-endian word xored in and moved by 32 bits is its four bytes one at a time |
| `Crc32c.StrideTablesAdvance` | punch_app/ios/Pods/leveldb-library/util/crc32c.cc:304-311 | the four stride tables together advance a word by 16 bytes |
| `Crc32c.Step1` | punch_app/ios/Pods/leveldb-library/util/crc32c.cc:297-301 | the table-driven byte step is eight bits of the register |
| `Crc32c.Extend` | punch_app/ios/Pods/leveldb-library/util/crc32c.cc:276-377 | the strided computation with its rotating tail equals the bit-by-bit CRC32C for every input, start value and alignment |
| `Crc32c.CrcExtends` | punch_app/ios/Pods/leveldb-library/util/crc32c.h:15-18 | the checksum of a string can be extended piece by piece |
| `Crc32c.BurstsAreDetected` | punch_app/ios/Pods/leveldb-library/util/crc32c.cc:276-377 | two strings that differ only within four neighbouring bytes never have the same checksum |
| `Crc32c.MaskUndone` | punch_app/ios/Pods/leveldb-library/util/crc32c.h:25-38 | Unmask undoes Mask |
| `Crc32c.UnmaskUndone` | punch_app/ios/Pods/leveldb-library/util/crc32c.h:25-38 | Mask undoes Unmask |
| `Log.Writer.AddRecord` | punch_app/ios/Pods/leveldb-library/db/log_writer.cc:34-80 | appends exactly the fragments, headers and trailers that the format lays down for the record at the file's length |
| `Log.Writer.constructor` | punch_app/ios/Pods/leveldb-library/db/log_writer.cc:27-30 | a writer may be opened on a file of any length and goes on in the middle of its last block |
| `Log.Reader.ReadPhysicalRecord` | punch_app/ios/Pods/leveldb-library/db/log_reader.cc:189-271 | for any file whatever: returns what the format says stands at the position, reports what it drops, and treats an incomplete last record as the end |
| `Log.Reader.ReadRecord` | punch_app/ios/Pods/leveldb-library/db/log_reader.cc:56-174 | for any file whatever: assembles the next record from its fragments with exactly the reports the rules call for |
| `Log.EmissionIsRead` | punch_app/ios/Pods/leveldb-library/db/log_reader.cc:56-174 | a record is read as it was written, and not at all if any byte of it is cut off |
| `Log.CutLogIsRead` | punch_app/ios/Pods/leveldb-library/db/log_reader.cc:56-174 | a log of any records, written by any number of writers in turn and cut at any byte, gives back exactly the records written whole, and nothing is reported |
| `Log.WholeLogIsRead` | punch_app/ios/Pods/leveldb-library/db/log_reader.cc:56-174 | an uncut log gives back all its records and nothing is reported |
| `Log.WriteRecords` | punch_app/ios/Pods/leveldb-library/db/log_writer.cc:27-80 | any session of a reopened writer leaves the file as if one writer had written all records |
| `Log.ReadRecords` | punch_app/ios/Pods/leveldb-library/db/db_impl.cc:402-447 | recovery's loop collects exactly the records and reports that the file holds |
| `LogChecksum.WriterStoresCrc` | punch_app/ios/Pods/leveldb-library/db/log_writer.cc:93-96 | the ready-made type checksum extended by the payload, masked and encoded, is the stored checksum of type and payload |
| `LogChecksum.ReaderTestsStoredCrc` | punch_app/ios/Pods/leveldb-library/db/log_reader.cc:243-257 | the reader's test on unmasked checksums passes for exactly the bytes the writer stores |
| `LogChecksum.DamageIsSeen` | punch_app/ios/Pods/leveldb-library/db/log_reader.cc:243-257 | damage within four neighbouring bytes of a fragment changes the stored checksum |
| `SkipLists.StepKeepsInv` | punch_app/ios/Pods/leveldb-library/db/skiplist.h:336-368 | every single store of Insert keeps each level sorted and a sublist of the one below, and keeps a search under way on track |
| `SkipLists.PublishLinks` | punch_app/ios/Pods/leveldb-library/db/skiplist.h:360-367 | the store that publishes a node makes it a member of its level in its place |
| `SkipLists.LoadKeepsSearch` | punch_app/ios/Pods/leveldb-library/db/skiplist.h:261-281 | one load of a concurrent search: either the search goes on correctly or it has split the list at the target |
| `SkipLists.SearchMissesNothing` | punch_app/ios/Pods/leveldb-library/db/skiplist.h:261-301 | a search interleaved with any stores answers for the list as of its last load, so no node present when it began is missed |
| `SkipLists.SkipList.Find` | punch_app/ios/Pods/leveldb-library/db/skiplist.h:261-322 | the search loop ends between the last node before the target and the first one not before it, with the predecessors of all levels |
| `SkipLists.SkipList.Insert` | punch_app/ios/Pods/leveldb-library/db/skiplist.h:336-368 | adds the key, and the node at exactly the levels below its height; nodes already there stay |
| `SkipLists.SkipList.Contains` | punch_app/ios/Pods/leveldb-library/db/skiplist.h:370-378 | true exactly if the key is in the list |
| `WriteQueue.BuildBatchGroup` | punch_app/ios/Pods/leveldb-library/db/db_impl.cc:1260-1306 | takes the longest run of waiting writers that the sync and size rules allow; the batch is theirs in order |
| `WriteQueue.StepKeepsInv` | punch_app/ios/Pods/leveldb-library/db/db_impl.cc:1185-1256 | every step of any interleaving keeps the group-commit invariant, failing log appends, failing syncs and refused writes included |
| `WriteQueue.RangesAreConsecutive` | punch_app/ios/Pods/leveldb-library/db/db_impl.cc:1202-1209 | writers are served in arrival order, none lost or served twice, and groups take consecutive ranges of sequence numbers |
| `WriteQueue.MemberRange` | punch_app/ios/Pods/leveldb-library/db/write_batch.cc:144-148 | within a group each writer's operations come right behind those of the writers before it |
| `WriteQueue.SyncedWritesAreDurable` | punch_app/ios/Pods/leveldb-library/db/db_impl.cc:1278-1281 | a writer that asked for a sync and is told of success has its record on disk, whoever wrote it for him |
| `WriteQueue.NoPartOfAGroupIsSeen` | punch_app/ios/Pods/leveldb-library/db/db_impl.cc:1216-1240 | a read at LastSequence sees each finished group whole and nothing of the group being inserted |
| `Builders.ReplayIsOneByOneIff` | punch_app/ios/Pods/leveldb-library/db/version_set.cc:590-754 | where each edit adds numbers its level does not have at that time: a Builder fed all edits is, after every one of them, where one version per edit would be, if and only if no number is ever given to two different files |
| `Builders.ReplayIsOneByOne` | punch_app/ios/Pods/leveldb-library/db/version_set.cc:590-754 | one Builder fed all edits gives the same sorted files as one version per edit, when each edit adds numbers its level does not have at that time and no number is ever given to two different files |
| `Builders.ReusedNumberRevives` | punch_app/ios/Pods/leveldb-library/db/version_set.cc:646-693 | from the empty version of a recovery: a number added, deleted and then given to another file brings the first file back |
| `Builders.Builder.Apply` | punch_app/ios/Pods/leveldb-library/db/version_set.cc:649-693 | compaction pointers are taken over; deletions come first, then additions, which cancel a recorded deletion of the same number |
| `Builders.Builder.SaveTo` | punch_app/ios/Pods/leveldb-library/db/version_set.cc:696-735 | the merge of base and added files, less the deleted ones |
| `Builders.SaveLevel` | punch_app/ios/Pods/leveldb-library/db/version_set.cc:700-722 | the merge with upper_bound yields the merged order for one level |
| `Recovery.KeyIsReadBack` | punch_app/ios/Pods/leveldb-library/db/dbformat.cc:15-23 | an internal key read from its bytes is the key that was encoded |
| `Recovery.LoggedEditsAreDecoded` | punch_app/ios/Pods/leveldb-library/db/version_set.cc:928-943 | records that are the encodings of edits decode, each into an edit of its own, to those edits |
| `Recovery.Recover` | punch_app/ios/Pods/leveldb-library/db/version_set.cc:886-1011 | over any records: recovery fails if and only if one is corrupt or names another comparator, or a number is missing; otherwise counters and compaction pointers are the latest logged, and each level holds the files that a Builder fed the decoded edits gives it, which are those the edits gave it one by one whenever each added numbers the level did not have at that time and no number was given to two files |
| `Builders.CompactionEditInstalls` | punch_app/ios/Pods/leveldb-library/db/db_impl.cc:860-876 | a compaction's edit, applied, replaces its inputs by its outputs |
| `Coding.EncodeVarint64` | punch_app/ios/Pods/leveldb-library/util/coding.cc:81-90 | the loop writes the base-128 form of the value, least significant group first |
| `Coding.GetVarintPtr` | punch_app/ios/Pods/leveldb-library/util/coding.cc:112-128 | the pointer-advancing loop reads what the recursive reading of groups reads, for any bytes and limit |
| `Coding.Varint32IsRead` | punch_app/ios/Pods/leveldb-library/util/coding.cc:112-140 | every 32-bit value reads back from its varint wherever it stands, in at most five bytes |
| `Coding.Varint64IsRead` | punch_app/ios/Pods/leveldb-library/util/coding.cc:142-169 | every 64-bit value reads back from its varint wherever it stands |
| `Coding.LengthPrefixedIsRead` | punch_app/ios/Pods/leveldb-library/util/coding.cc:171-192 | a length-prefixed string reads back, and the reader stops right behind it |
| `BlockFormat.EntryIsDecoded` | punch_app/ios/Pods/leveldb-library/table/block.cc:54-74 | an entry laid down by the builder decodes to its three lengths, by the one-byte fast path or by varints alike |
| `Blocks.SharedPrefix` | punch_app/ios/Pods/leveldb-library/table/block_builder.cc:76-85 | the loop finds the longest prefix the key shares with the last key |
| `Blocks.BlockBuilder.Add` | punch_app/ios/Pods/leveldb-library/table/block_builder.cc:72-107 | the entry is appended prefix-compressed, with a restart point exactly when the interval is used up |
| `Blocks.BlockBuilder.Finish` | punch_app/ios/Pods/leveldb-library/table/block_builder.cc:62-70 | the block holds all entries, then the restart offsets, then their number |
| `Blocks.BlockIter.Seek` | punch_app/ios/Pods/leveldb-library/table/block.cc:163-201 | binary search over restart points, then the scan: stands on the first entry whose key is not before the target |
| `Blocks.BlockIter.FindRestart` | punch_app/ios/Pods/leveldb-library/table/block.cc:163-190 | the binary search ends at the last restart point whose key is before the target, or at the first one |
| `Blocks.BlockIter.Next` | punch_app/ios/Pods/leveldb-library/table/block.cc:137-140 | moves from entry i to entry i+1, its key rebuilt from the shared prefix |
| `Blocks.BlockIter.Prev` | punch_app/ios/Pods/leveldb-library/table/block.cc:142-161 | moves from entry i to entry i-1 through the restart point before it, or is invalid before the first |
| `Blocks.BlockIter.SeekToLast` | punch_app/ios/Pods/leveldb-library/table/block.cc:208-213 | stands on the last entry |
| `Blocks.BlockDeterminesEntries` | punch_app/ios/Pods/leveldb-library/table/block_builder.cc:62-107 | two lists of entries with the same block bytes are the same list, whatever the restart intervals |
| `Rings.RemoveKeepsRing` | punch_app/ios/Pods/leveldb-library/util/cache.cc:239-242 | unlinking a node leaves a circular doubly linked list of the others in their order, and other lists alone |
| `Rings.AppendKeepsRing` | punch_app/ios/Pods/leveldb-library/util/cache.cc:244-250 | linking a node before the dummy head makes it the newest of the ring |
| `HandleTables.HandleTable.FindPointer` | punch_app/ios/Pods/leveldb-library/util/cache.cc:111-120 | the slot returned holds the entry with the key and hash, or is the trailing slot of its bucket when there is none |
| `HandleTables.HandleTable.Insert` | punch_app/ios/Pods/leveldb-library/util/cache.cc:78-92 | the table holds the new handle in place of one with the same key, which is returned; nothing else changes, with or without growing |
| `HandleTables.HandleTable.Remove` | punch_app/ios/Pods/leveldb-library/util/cache.cc:94-102 | the handle with the key and hash leaves the table and is returned; nothing else changes |
| `HandleTables.HandleTable.Resize` | punch_app/ios/Pods/leveldb-library/util/cache.cc:122-147 | rehashing into a larger array keeps exactly the same handles, each in the bucket of its hash |
| `LruCache.LRUCache.Insert` | punch_app/ios/Pods/leveldb-library/util/cache.cc:266-303 | the new handle has the given value and charge, those of all others stay; it is referenced once for the client and, in a cache with capacity, once for the cache; as a map the cache holds the value under the key, less the keys of the oldest unreferenced handles, which go until usage fits; the new key is never one of them |
| `LruCache.LRUCache.EvictToFit` | punch_app/ios/Pods/leveldb-library/util/cache.cc:292-300 | eviction takes handles from the oldest end and stops when usage is within capacity or no unreferenced handle is left |
| `LruCache.LRUCache.Lookup` | punch_app/ios/Pods/leveldb-library/util/cache.cc:252-259 | a hit, exactly when the map has the key, gives the handle with the map's value and a reference to it and moves it to the in-use list; the map stays |
| `LruCache.LRUCache.Release` | punch_app/ios/Pods/leveldb-library/util/cache.cc:261-264 | dropping the client's last reference makes a cached handle the newest that may be evicted, and deletes one that is no longer cached |
| `LruCache.LRUCache.Erase` | punch_app/ios/Pods/leveldb-library/util/cache.cc:307-321 | the key leaves the map, the handle table and lists at once; it is deleted when no client holds it |
| `LruCache.AnswerAll` | punch_app/ios/Pods/leveldb-library/util/cache.cc:252-334 | over any run of calls: what Lookup finds is the value inserted last under that key and hash and not erased since, and what was inserted just before is found unless caching is turned off |
| `LruCache.LRUCache.Prune` | punch_app/ios/Pods/leveldb-library/util/cache.cc:323-334 | exactly the handles that no client holds leave the cache |
| `LruCache.CountsMean` | punch_app/ios/Pods/leveldb-library/util/cache.cc:217-237 | in every state the invariant describes: cached handles are on the LRU list iff their count is 1 and on the in-use list iff it is 2 or more, and a handle has been deleted, once, iff its count is 0 |
| `EditCodec.FieldsRoundTrip` | punch_app/ios/Pods/leveldb-library/db/version_edit.cc:41-205 | the tagged fields of an edit read back one by one |
| `EditCodec.EditIsDecoded` | punch_app/ios/Pods/leveldb-library/db/version_edit.cc:107-205 | decoding an encoded edit gives its fields, except that compaction pointers already in the target stay in front |
| `EditCodec.EditRoundTripIff` | punch_app/ios/Pods/leveldb-library/db/version_edit.cc:26-205 | decoding gives back the edit if and only if the target has no compaction pointers, which Clear does not remove |
| `Batches.WriteBatch.Put` | punch_app/ios/Pods/leveldb-library/db/write_batch.cc:98-103 | the representation grows by one record and its count by one |
| `Batches.WriteBatch.Append` | punch_app/ios/Pods/leveldb-library/db/write_batch.cc:144-148 | the records of the other batch follow, the counts add up, the sequence number stays |
| `Batches.BatchRoundTrip` | punch_app/ios/Pods/leveldb-library/db/write_batch.cc:42-80 | iterating over a batch calls the handler with exactly its operations in order and ends without error |
| `Batches.CutBatchIsRefused` | punch_app/ios/Pods/leveldb-library/db/write_batch.cc:42-80 | a batch cut short anywhere is refused with an error |
| `Separators.FindShortestSeparator` | punch_app/ios/Pods/leveldb-library/util/comparator.cc:29-51 | the result is the start itself or lies strictly between start and limit, and then no string strictly between them is shorter |
| `Separators.FindShortSuccessor` | punch_app/ios/Pods/leveldb-library/util/comparator.cc:53-65 | a string after the key and as short as any, or the key itself exactly when it is all 0xff |
| `Separators.ShortestSeparator` | punch_app/ios/Pods/leveldb-library/db/dbformat.cc:73-90 | on internal keys: the start, or a user key strictly between with the sequence number that sorts first; at or after the start and before a later limit |
| `Separators.ShortSuccessor` | punch_app/ios/Pods/leveldb-library/db/dbformat.cc:92-101 | on internal keys: the key, or a later user key with the sequence number that sorts first |
| `Blooms.CreateFilter` | punch_app/ios/Pods/leveldb-library/util/bloom.cc:28-55 | the appended filter has exactly the bits set that the double hashing of some key probes, and stores the number of probes |
| `Blooms.KeyMayMatch` | punch_app/ios/Pods/leveldb-library/util/bloom.cc:57-80 | true exactly if all the bits that the key probes are set (or the probe count is reserved) |
| `Blooms.FilterAnswers` | punch_app/ios/Pods/leveldb-library/util/bloom.cc:28-80 | no false negatives; and a key matches if and only if each of its probes is also a probe of an added key |
| `FilterBlocks.FilterBlockBuilder.StartBlock` | punch_app/ios/Pods/leveldb-library/table/filter_block.cc:21-27 | the pending keys make up the next filter and the filters after it up to the block offset are empty |
| `FilterBlocks.FilterBlockBuilder.Finish` | punch_app/ios/Pods/leveldb-library/table/filter_block.cc:35-75 | the contents hold one filter per 2 KB of offsets, the array of filter offsets, and where it begins |
| `FilterBlocks.FilterBlockReader.KeyMayMatch` | punch_app/ios/Pods/leveldb-library/table/filter_block.cc:77-102 | on a block the builder made: the answer of the filter for that block offset, no where it has no keys, yes past the last filter; on any other contents no is said only for a filter that is there and says so |
| `FilterBlocks.OneMoreFilter` | punch_app/ios/Pods/leveldb-library/table/filter_block.cc:51-75 | appending a filter leaves those before it where they are |
| `Tables.TableBuilder.Add` | punch_app/ios/Pods/leveldb-library/table/table_builder.cc:94-123 | the entry is added, and the block is written exactly when its size is reached; the previous block's index entry is made with the new key as its limit; blocks stay separated and their keys covered by the filters |
| `Tables.TableBuilder.Finish` | punch_app/ios/Pods/leveldb-library/table/table_builder.cc:198-253 | the finished table holds exactly the added entries, every block indexed by a separator and covered by its filter |
| `Tables.SeparatorsBoundBlocks` | punch_app/ios/Pods/leveldb-library/table/table_builder.cc:102-109 | the shortened index keys bound their blocks as the two-level cursor requires, so iteration over a table is iteration over its entries |
| `Tables.IndexSeekIsScan` | punch_app/ios/Pods/leveldb-library/table/table.cc:216-236 | seeking the index and then its block ends at the entry a scan of the whole table ends at, or at none when that entry is of another user key |
| `Tables.CoveredPasses` | punch_app/ios/Pods/leveldb-library/table/filter_block.cc:90-102 | a user key of a block passes the filter for the block's offset |
| `Tables.Table.InternalGet` | punch_app/ios/Pods/leveldb-library/table/table.cc:216-242 | with or without a filter: the entry handed on is where a scan ends, and when none is, the scan finds no entry of the user key |
| `Tables.Table.Get` | punch_app/ios/Pods/leveldb-library/db/version_set.cc:263-276 | with the user-key check of the callback: exactly the newest entry of the user key visible at the snapshot, if there is one |
| `Protos.ZeroIsDefault` | punch_app/ios/Pods/nanopb/pb_encode.c:238-337 | a proto3 field left out because it is zero has the value that the decoder sets by default, at any nesting depth |
| `ProtoEncoder.Encode` | punch_app/ios/Pods/nanopb/pb_encode.c:528-550 | on a counting and on a writing stream alike: the message's bytes, counted exactly; succeeds if and only if the data checks pass and the bytes fit |
| `ProtoEncoder.EncodeSubmessage` | punch_app/ios/Pods/nanopb/pb_encode.c:717-765 | the size counted by the sizing pass is the size the writing pass emits, at every nesting depth |
| `ProtoEncoder.GetEncodedSize` | punch_app/ios/Pods/nanopb/pb_encode.c:567-576 | the sizing pass alone returns the length of the encoding |
| `ProtoEncoder.PackedSize` | punch_app/ios/Pods/nanopb/pb_encode.c:169-189 | the size of a packed array, by width or by a sizing pass, is that of its encoded values |
| `ProtoEncoder.EncodeArray` | punch_app/ios/Pods/nanopb/pb_encode.c:147-236 | packed where the type allows, else one tagged value after the other; refused when there are more than the array holds |
| `ProtoEncoder.VarintBuffer` | punch_app/ios/Pods/nanopb/pb_encode.c:608-628 | the buffer with the last top bit cleared is the varint of the value |
| `ProtoDecoder.FieldIter.Find` | punch_app/ios/Pods/nanopb/pb_common.c:78-95 | wrapping around from wherever it stands, the iterator finds the field with the tag if there is one |
| `ProtoDecoder.DecodeVarint32` | punch_app/ios/Pods/nanopb/pb_decode.c:187-247 | the loop with its overflow and sign-extension rules and its eight-bit bit position reads what the recursive reading reads, for any bytes |
| `ProtoDecoder.DecodeNoinit` | punch_app/ios/Pods/nanopb/pb_decode.c:928-1076 | for any bytes: the loop over fields, known and unknown, with the check of required fields, yields the message of the reading functions or fails with them |
| `ProtoDecoder.RequiredFieldsSeen` | punch_app/ios/Pods/nanopb/pb_decode.c:1033-1073 | the check passes exactly if every required field, of the first 64, was seen |
| `ProtoDecoder.DecodeSubmessage` | punch_app/ios/Pods/nanopb/pb_decode.c:1519-1541 | a submessage is decoded from a substream of its own length into what the destination holds |
| `ProtoReading.DecMsg` | punch_app/ios/Pods/nanopb/pb_decode.c:928-1076 | whatever the bytes, a decoded message fits the struct of its descriptor |
| `ProtoRoundTrip.Varint32IsReadBack` | punch_app/ios/Pods/nanopb/pb_decode.c:187-247 | the 32-bit reader, checks and all, reads back every 32-bit varint |
| `ProtoRoundTrip.ZigZagIsReadBack` | punch_app/ios/Pods/nanopb/pb_decode.c:1279-1291 | ZigZag decoding with the range check undoes ZigZag encoding for every width |
| `ProtoRoundTrip.SignedIsReadBack` | punch_app/ios/Pods/nanopb/pb_decode.c:1339-1374 | a signed field of any width, sent as 64 bits, passes the 32-bit cast and the clamp unchanged |
| `ProtoRoundTrip.MsgIsRead` | punch_app/ios/Pods/nanopb/pb_decode.c:928-1076 | from any field on: the remaining fields of an encoded message complete a message decoded so far |
| `ProtoRoundTrip.DecodeUndoesEncode` | punch_app/ios/Pods/nanopb/pb_decode.c:1078-1090 | decoding what was encoded rebuilds the message if and only if every string written leaves room for its terminator, and fails otherwise; for every descriptor tree of static fields |
| `ProtoUnknown.UnknownMakesNoDifference` | punch_app/ios/Pods/nanopb/pb_decode.c:928-1076 | whatever unknown fields stand among the fields of a message and, at any depth, of its submessages: the decoder makes of the bytes what it makes of them without those fields, from any state |
| `ProtoUnknown.UnknownFieldsAreSkipped` | punch_app/ios/Pods/nanopb/pb_decode.c:968-990 | an encoded message with unknown fields put in anywhere, at any depth, decodes to what was encoded |
| `ProtoUnknown.OneUnknownField` | punch_app/ios/Pods/nanopb/pb_decode.c:968-990 | on the bytes: a tag that no field has and any value of its wire type, before, between or behind the fields of an encoded message, changes nothing |
| `ProtoUnknown.ValueIsSkipped` | punch_app/ios/Pods/nanopb/pb_decode.c:278-331 | skipping by wire type ends right behind a varint (0), eight bytes (1), a length and that many bytes (2), four bytes (5) |
| `ProtoUnknown.EncodedIsWellFormed` | punch_app/ios/Pods/nanopb/pb_encode.c:674-707 | the wire type written for a member is that of the shape its values have |
| `ProtoUnknown.TagTellsTheEnd` | punch_app/ios/Pods/nanopb/pb_encode.c:669-707 | a reader without a descriptor, skipping by the low three bits of the tag, ends exactly at the end of the encoded value |
| `ProtoUnknown.MessageTellsItsEnd` | punch_app/ios/Pods/nanopb/pb_encode.c:528-550 | under the empty descriptor an encoded message is taken exactly to its end, whatever follows |
| `ProtoUnknown.MissingIsRefused` | punch_app/ios/Pods/nanopb/pb_decode.c:1033-1073 | a message in which one of the first 64 required fields does not occur is refused |
| `ProtoUnknown.PackedOrNot` | punch_app/ios/Pods/nanopb/pb_decode.c:406-480 | an array of numbers is read alike packed or with a tag before each value |
| `ProtoUnknown.DocumentedBytes` | punch_app/ios/Pods/nanopb/pb_encode.c:528-765 | the bytes of the format documentation's examples |
| `ProtoUnknown.FixedExamples` | punch_app/ios/Pods/nanopb/pb_encode.c:674-707 | fixed32 and fixed64 fields byte by byte |
| `Protos.ZeroIsOmittedIff` | punch_app/ios/Pods/nanopb/pb_encode.c:238-337 | a value is left out exactly if it is the decoder's default and its type has neither a required field nor a byte array of fixed length |
| `ProtoRefusals.Varint32Iff` | punch_app/ios/Pods/nanopb/pb_decode.c:187-247 | exactly which 64-bit varints the 32-bit reader takes, and as what |
| `ProtoRefusals.Varint32TakesMore` | punch_app/ios/Pods/nanopb/pb_decode.c:222-229 | ten bytes that encode no 32-bit number, negative or not, and are read as one |
| `ProtoRefusals.UnsignedIff` | punch_app/ios/Pods/nanopb/pb_decode.c:1376-1398 | an unsigned field takes exactly the values that fit it |
| `ProtoRefusals.ZigZagIff` | punch_app/ios/Pods/nanopb/pb_decode.c:1400-1424 | a ZigZag field takes exactly the forms of the numbers that fit it |
| `ProtoRefusals.SignedIff` | punch_app/ios/Pods/nanopb/pb_decode.c:1339-1374 | a signed field takes the low 32 bits (all 64 if it has eight bytes), and exactly those that fit it |
| `ProtoRefusals.StringIff` | punch_app/ios/Pods/nanopb/pb_decode.c:1441-1564 | which lengths of text, bytes and fixed-length bytes are taken, and as what |
| `ProtoRefusals.PackedIsFull` | punch_app/ios/Pods/nanopb/pb_decode.c:420-452 | a packed array with more values than there is room for is refused |
| `ProtoRefusals.UndefinedWireIsRefused` | punch_app/ios/Pods/nanopb/pb_decode.c:321-331 | an unknown field of wire type 3, 4, 6 or 7 is refused |
| `ProtoRefusals.CutValueIsRefused` | punch_app/ios/Pods/nanopb/pb_decode.c:278-331 | a value cut off by the end of the message cannot be skipped |
| `Manifests.RecoverLogged` | punch_app/ios/Pods/leveldb-library/db/version_set.cc:886-1011 | from the records of any logged changes in which no number is given to two files, the first one possibly a snapshot: each level comes back with exactly the files the changes left it, with their numbers, sizes and smallest and largest keys, in key order, none of the deleted ones, and with the compaction pointers set last |
| `Manifests.WriteSnapshot` | punch_app/ios/Pods/leveldb-library/db/version_set.cc:1088-1116 | the record that begins a MANIFEST stands for the files and the compaction pointers of the version |
| `Manifests.LevelAfter` | punch_app/ios/Pods/leveldb-library/db/version_set.cc:649-735 | edits read back from their encodings, applied one by one, leave a level exactly the files of the changes logged |
| `Recovery.OtherComparatorIsRefused` | punch_app/ios/Pods/leveldb-library/db/version_set.cc:936-943 | a MANIFEST with a record that names another comparator is refused |
| `EditCodec.CutEditIsRefused` | punch_app/ios/Pods/leveldb-library/db/version_edit.cc:107-205 | an encoded edit cut off anywhere but between two fields is refused |
| `EditCodec.UnknownTagIsRefused` | punch_app/ios/Pods/leveldb-library/db/version_edit.cc:107-205 | a record with a tag that is none of the eight is refused, whatever stands around it |
| `Builders.AscendingIsSearchable` | punch_app/ios/Pods/leveldb-library/db/version_set.cc:596-612 | disjoint files in the Builder's order are in the order that binary search in a version needs |
| `LogDamage.DamageIsContained` | punch_app/ios/Pods/leveldb-library/db/log_reader.cc:59-257 | bytes damaged anyhow up to a block boundary: all records before the damage and all that begin behind it are read, in order, unless damage forges the checksum of a fragment of the unused type 5 |
| `LogDamage.AllAreChecked` | punch_app/ios/Pods/leveldb-library/db/log_reader.cc:189-257 | whatever the bytes of a file, every record returned is made of whole fragments of it, in order and of the right types, that pass their checksums |
| `Crc32c.TestBufferValue` | punch_app/ios/Pods/leveldb-library/util/crc32c.cc:266-274 | the check value that the source expects of hardware |
| `Crc32c.MaskValues` | punch_app/ios/Pods/leveldb-library/util/crc32c.h:22-38 | the rotation and the constant of masked checksums |
| `Formats.OneFragment` | punch_app/ios/Pods/leveldb-library/db/log_format.h:14-30 | a log record byte by byte |
| `Formats.TwoFragments` | punch_app/ios/Pods/leveldb-library/db/log_writer.cc:43-80 | a record that begins seven bytes before the end of a block |
| `Formats.OneBatch` | punch_app/ios/Pods/leveldb-library/db/write_batch.cc:5-14 | a write batch byte by byte |
| `Formats.OneKey` | punch_app/ios/Pods/leveldb-library/db/dbformat.cc:15-23 | an internal key byte by byte |
| `Formats.NumberFields` | punch_app/ios/Pods/leveldb-library/db/version_edit.cc:12-24 | the tags of an edit's numbers |
| `Formats.FileField` | punch_app/ios/Pods/leveldb-library/db/version_edit.cc:78-86 | a new file in an edit byte by byte |
| `ProtoTransfer.Transfer` | punch_app/ios/Pods/nanopb/pb_decode.c:1078-1090 | pb_encode into a buffer and pb_decode of what was written: sent if and only if it can be encoded and fits, received if and only if strings leave room, and then equal to what was sent |
| `Iteration.DriveTwoLevel` | punch_app/ios/Pods/leveldb-library/include/leveldb/iterator.h:33-67 | over any sequence of calls the two-level iterator shows what a cursor over the concatenation of its blocks shows |
| `Iteration.DriveTable` | punch_app/ios/Pods/leveldb-library/table/table.cc:210-214 | over any sequence of calls the iterator of a built table shows what a cursor over the entries added to the builder shows |
| `Iteration.DriveMerge` | punch_app/ios/Pods/leveldb-library/table/merger.cc:14-146 | over any sequence of calls the merge shows what a cursor over the union of its children shows, so that a merge can be a child itself |
| `Iteration.DriveBlock` | punch_app/ios/Pods/leveldb-library/table/block.cc:76-252 | over any sequence of calls the iterator of a block shows what a cursor over the entries in it shows, keys compared as internal keys |
| `Iteration.DriveCursor` | punch_app/ios/Pods/leveldb-library/include/leveldb/iterator.h:33-67 | the reference: what a cursor over one sorted run shows |

## Left out

LevelDB:

- StoreSafety.StepKeepsInv: a compaction starts only when no marker it drops covers a value outside its inputs, and a flush waits for one with room between its inputs; `Installs.CompactionPreservesReadsIff` and `NestedFlush.FlushIsSafeIff` show that both conditions are exact.
- Installs.CompactionPreservesReads: the sufficient side only, under the boundary check on level+1 that the source does not make; the exact condition is that of `Installs.CompactionPreservesReadsIff`.
- Installs.NothingOlderUntouched: likewise stated under the boundary check on level+1.
- CompactionLoop.DoCompactionWork: the loop alone, without shutdown and I/O errors; the flush in the middle of it is a step of `Store`.
- Inputs.PickCompaction: what is due, by size or by seeks, is a parameter; the scores and seek counts that decide it are not modelled.
- Log.Reader.ReadRecord: reads from the start of a log, as every caller in the repository does; initial_offset, resynchronization and LastRecordOffset are not modelled.
- Log.Writer.AddRecord: appends succeed; I/O errors of files are modelled only where the protocol reacts to them (`WriteQueue`: failing appends and syncs).
- LruCache.LRUCache.Insert: freed handles are never reused, so that deletion can be spoken of; the sixteen shards and the lock are not modelled, nor is the destructor.
- HandleTables.HandleTable.FindPointer: the bucket is the remainder by the length, which for the table's powers of two is the same as masking.
- Tables.TableBuilder.Add: a block is its entries and a file maps offsets to blocks; how many bytes a block takes, compressed or not, is a parameter. Block bytes are the subject of `Blocks`.
- Tables.TableBuilder.Finish: metaindex, footer and the trailer checksum of a block are not modelled; a filter block of 4 GB or more, whose 32-bit offsets overflow, is excluded from lookups.
- Blooms.CreateFilter: the hash is a parameter, so that the result holds for any; the number of probes is computed over the reals.
- SkipLists.SkipList.Insert: the random height is a parameter; memory orders beyond atomic loads and stores are not modelled.
- Crc32c.Extend: the table entries are defined by their relation to the polynomial; that the literals in the source equal them is not part of this model, nor is the hardware path.
- Batches.BatchRoundTrip: the handler is the list of calls made to it.
- Blocks.BlockIter.Seek: blocks are well formed; corrupted blocks are not modelled.
- Iteration.DriveMerge: the merge holds its children as plain cursors; that the other iterators show the same is a statement about what their callers see.
- DBIter.DBIterator.Next: internal keys parse; corrupted keys and read sampling are not modelled.
- Memtable entry encoding (db/memtable.cc) and the links of the snapshot list (db/snapshot.h): a memtable is its sorted entries, the live snapshots are a collection with a least element.
- `reuse_logs`, `paranoid_checks`, level scores, seek counts, `ApproximateOffsetOf`, statistics and delays: they affect only when work happens, or have other defaults.
- Snappy, the environment, loggers, C bindings, dump and repair tools.

nanopb:

- ProtoDecoder.DecodeNoinit: the seen bits are a set of numbers; a zero field number counts as unknown, also in an empty message.
- ProtoRoundTrip.DecodeUndoesEncode: a field's default is zero (proto3 has no others), and a message takes less than 4 GB.
- ProtoEncoder.Encode: stream positions are unbounded; `size_t` does not wrap around.
- Protos.ZeroIsDefault: storage that a has_ or which_ field declares unset is not part of a value.
- Callbacks, extensions, pointer fields under `PB_ENABLE_MALLOC`, fixed-count arrays and `PB_WITHOUT_64BIT` are not modelled; error messages are a failure.

The rest of the repository (the application's glue, BoringSSL shims, Firebase and Mapbox headers, FMDB) has no
logic of this kind.
