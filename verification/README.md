# Verified models of LevelDB, nanopb and the DTLS handshake of BoringSSL

Three libraries that the iOS application bundles keep or carry its data: LevelDB stores it, nanopb turns messages into
bytes and back, and BoringSSL exchanges the handshake of its datagram connections. The modules here model the parts of
them in which most depends on most, and prove what these parts are for.

- **Levels and compactions** (`DbFormat`, `Versions`, `CompactionInputs`, `Grandparents`, `Compactions`,
  `VersionBuilder`, `VersionSteps`, `OpenBoundary`): what a read means, which files a compaction takes, what it may
  drop, where it cuts its outputs, how the next version is built, and what whole runs of such steps do to reads.
- **Iterators** (`SortedCursor`, `DbIter`, `Merger`, `SkipList`): each is proved against one cursor over a set of keys,
  for any sequence of calls. The skip list may be read between any two stores of an insertion.
- **Files** (`Coding`, `Log`, `Comparator`, `Block`, `Bits`, `Bloom`, `FilterBlock`, `Table`): byte formats, their
  writers and readers, and what a reader makes of what a writer wrote, whole or cut short.
- **Memory** (`HandleTable`, `Cache`, `CacheRuns`): the pointer structures of the block cache and their references.
- **Writes** (`GroupCommit`, `Durability`, `Recovery`): the queue of writers, and why a synced write outlives crashes.
- **Handshakes** (`DtlsMask`, `DtlsMessages`, `DtlsReceiver`, `DtlsSender`, `DtlsFlight`): cutting messages into
  fragments (section 4.2 of RFC 6347) and putting them together again.
- **Messages** (`PbSchema`, `PbCommon`, `PbEncode`, `PbDecode`, `PbInput`, `PbIntegers`, `PbEvolution`, `PbRoundTrip`,
  `PbExchange`): the encoder and the decoder as streams, each against a specification, and what one makes of the other's
  bytes, with one schema or with two versions of it.

Objects that the sources update in place are classes here, loops are loops, and pointers are references. Modules about
order see a key as its rank; modules about bytes see bytes. Checksums, hash functions, comparators and the encryption of
records are parameters. `dafny verify dfyconfig.toml` checks everything.

## Findings

Four properties that one may expect do not hold of the code. Each is shown by an input, and the exact condition is
proved.

- A compaction can bring a deleted key back. `SetupOtherInputs` adds boundary files to the inputs of the level, but not
  to those of the next level (`db/version_set.cc:1387`). `OpenBoundary.DeletedKeyComesBack` is such a run;
  `VersionSteps.CompactionPreservesReads` says exactly when it happens: a deletion is dropped whose user key goes on in
  a next-level file left behind with an older value.
- A handshake fragment exactly seven messages ahead is an error. The test in `dtls1_open_handshake` ignores only what is
  further ahead than that, while `dtls1_get_incoming_message` refuses it (`src/ssl/d1_both.cc:374-376` and `262-266`).
  `DtlsMessages.OneFlightAheadIsRefused` shows it, `TakesGenuine` has the condition for all fragments of genuine
  messages.
- A string that fills its array is encoded but cannot be decoded (`pb_decode.c:1516-1517`), as the decoder wants room
  for a NUL. `PbRoundTrip.StringNeedsNul` is about one value, `PbRoundTrip.RoundTrip` about whole messages.
- The length test for block entries adds two lengths in 32 bits (`table/block.cc:71`), so lengths that wrap pass it.
  `Block.WrappedLengthsPass` is such an entry, `Block.InsideUnlessWrapped` the condition.

## Model

A row names a member and what its contract states about the lines it models.

| member | source | states |
|---|---|---|
| Versions.Version.Get | ios/Pods/leveldb-library/db/version_set.cc:281-400 | searching level 0 newest file first and then one binary-searched file a level, and stopping at the first file that knows the key, answers what the newest visible entry of the whole version says |
| Versions.FindFile | ios/Pods/leveldb-library/db/version_set.cc:87-105 | binary search finds the first file whose largest key is not before the sought key |
| CompactionInputs.SomeFileOverlapsRange | ios/Pods/leveldb-library/db/version_set.cc:121-156 | the binary search on disjoint files and the scan on the others both answer whether some file meets the user-key range |
| CompactionInputs.GetOverlappingInputs | ios/Pods/leveldb-library/db/version_set.cc:498-538 | above level 0 exactly the files that meet the range; on level 0, where the scan restarts with a wider range, exactly those that meet the least range closed under overlap around it |
| CompactionInputs.AddBoundaryInputs | ios/Pods/leveldb-library/db/version_set.cc:1355-1378 | appends the chain of nearest boundary files of the largest key, until no file of the level begins on the last user key |
| CompactionInputs.ChainCloses | ios/Pods/leveldb-library/db/version_set.cc:1335-1378 | on a sorted level, appending that chain to a gapless choice of files leaves no file behind that continues a user key of an input |
| CompactionInputs.SetupOtherInputs | ios/Pods/leveldb-library/db/version_set.cc:1380-1439 | the inputs, grown or not, are closed at their boundaries on the level, closed under overlap on level 0, and take exactly the files of the next level in their range; no file of the seed is lost; they grow exactly when that takes no more next-level files and stays under the byte limit |
| CompactionInputs.PickCompaction | ios/Pods/leveldb-library/db/version_set.cc:1247-1299 | the picked file is among inputs of that kind, set up from it alone or, on level 0, from all that overlap it, for whichever level and file the scores name |
| CompactionInputs.CompactRange | ios/Pods/leveldb-library/db/version_set.cc:1441-1472 | a manual compaction finds nothing exactly when no file meets the range, and else has such inputs; above level 0 it takes the files of the range up to the one that reaches the size limit |
| CompactionInputs.PickLevelForMemTableOutput | ios/Pods/leveldb-library/db/version_set.cc:470-495 | the level for a flushed table is the deepest allowed: no level down to it meets the range of the table, none on the way has too many bytes of it two levels below, and one step more would break that |
| Compactions.Compaction.IsBaseLevelForKey | ios/Pods/leveldb-library/db/version_set.cc:1510-1529 | although its cursors only move forward, for keys asked in order it says whether any file below the next level covers the key |
| Compactions.Compaction.Decide | ios/Pods/leveldb-library/db/db_impl.cc:945-972 | one round of the key bookkeeping drops an entry exactly when the entry before it hides it from all snapshots, or it is a deletion visible to all with nothing below |
| Compactions.Compaction.ShouldStopBefore | ios/Pods/leveldb-library/db/version_set.cc:1531-1553 | asked key by key, the scan of the grandparents says stop exactly when the bytes passed since the last stop exceed the limit |
| Compactions.OutputsOverlapLittle | ios/Pods/leveldb-library/db/version_set.cc:1531-1553 | then the grandparents that end within the keys of one output have no more bytes than the limit, for every output |
| Compactions.Compaction.DoCompactionWork | ios/Pods/leveldb-library/db/db_impl.cc:887-1046 | the outputs hold exactly the surviving entries in order, in valid disjoint files with consecutive numbers; each is closed at the size limit or where it would overlap too much of level+2, and for no other reason |
| Compactions.DropsAreSound | ios/Pods/leveldb-library/db/db_impl.cc:956-970 | the two drop rules, which `Decide` applies, keep every read at every snapshot from the oldest one on if and only if no dropped deletion covers an older value outside the inputs |
| Compactions.LargestSnapshotDropsAll | ios/Pods/leveldb-library/db/db_impl.cc:953-958 | at the largest sequence number as the oldest snapshot the first rule would take every entry |
| VersionBuilder.Builder.Apply | ios/Pods/leveldb-library/db/version_set.cc:629-669 | a builder to which edits were applied one by one holds their deletions and additions as folded, an addition cancelling an earlier deletion of the number |
| VersionBuilder.Builder.SaveTo | ios/Pods/leveldb-library/db/version_set.cc:672-730 | merging base and added files level by level, skipping deleted numbers, gives in key order the file set that applying the edits one after the other gives |
| VersionSteps.InstallKeepsOrder | ios/Pods/leveldb-library/db/version_set.cc:672-730 | putting files that hold only entries of the inputs in the place of properly chosen inputs keeps a version valid: levels sorted and disjoint, and newer entries above older ones |
| VersionSteps.HazardIsAtSplit | ios/Pods/leveldb-library/db/version_set.cc:1387-1388 | a dropped deletion can cover an older value only at the last user key of a next-level input, in a next-level file left behind that begins with that key |
| VersionSteps.CompactionPreservesReads | ios/Pods/leveldb-library/db/db_impl.cc:887-1046 | a compaction step keeps all reads from the oldest snapshot on exactly when there is no hazard at such a split key, and always if none is split |
| VersionSteps.RunCompaction | ios/Pods/leveldb-library/db/db_impl.cc:697-776 | a whole compaction gives a canonical version with exactly the survivors, in outputs cut as asked, and what was no input, and agrees with the old one on reads exactly under that condition; then it is a step of a run |
| VersionSteps.MoveFile | ios/Pods/leveldb-library/db/db_impl.cc:722-736 | moving a lone file down keeps the version canonical and all its entries |
| VersionSteps.FlushMemTable | ios/Pods/leveldb-library/db/db_impl.cc:500-542 | a flushed memtable adds exactly its entries, at the picked level, and keeps the version canonical |
| VersionSteps.RunsPreserveReads | ios/Pods/leveldb-library/db/db_impl.cc:544-575 | over any run of flushes and rearrangements, a read at a snapshot that none was too late for answers as if nothing had ever been dropped |
| VersionSteps.VersionRuns | ios/Pods/leveldb-library/db/version_set.cc:777-860 | the same for a run of versions: the last one answers as all entries ever flushed would |
| OpenBoundary.DeletedKeyComesBack | ios/Pods/leveldb-library/db/version_set.cc:1387-1388 | a run of pick, setup and compaction from a canonical version, after which a deleted key reads as its old value |
| DbIter.DBIter.FindNextUserEntry | ios/Pods/leveldb-library/db/db_iter.cc:177-207 | walking forward ends at the first entry that shows a user key not to be skipped, having passed none |
| DbIter.DBIter.FindPrevUserEntry | ios/Pods/leveldb-library/db/db_iter.cc:236-276 | walking backward ends in front of the entries of the largest user key before that has a visible value, with that value saved |
| DbIter.DBIter.Next | ios/Pods/leveldb-library/db/db_iter.cc:141-175 | from either direction, goes to the least key above the current one that a read at the snapshot finds |
| DbIter.DBIter.Prev | ios/Pods/leveldb-library/db/db_iter.cc:209-234 | from either direction, goes to the largest such key below the current one |
| DbIter.DBIter.Seek | ios/Pods/leveldb-library/db/db_iter.cc:278-290 | goes to the least such key from the target on |
| DbIter.DBIter.Run | ios/Pods/leveldb-library/db/db_iter.cc:141-308 | any legal sequence of calls, direction switches included, shows the same keys as a cursor over the readable keys, each with the value that a read finds |
| Merger.MergingIterator.FindSmallest | ios/Pods/leveldb-library/table/merger.cc:148-161 | the child chosen has the least key of all keys in front of the position |
| Merger.MergingIterator.Next | ios/Pods/leveldb-library/table/merger.cc:55-79 | goes to the next key of all the children, also after having moved backward |
| Merger.MergingIterator.Prev | ios/Pods/leveldb-library/table/merger.cc:81-108 | goes to the previous key of all the children, also after having moved forward |
| Merger.MergingIterator.Run | ios/Pods/leveldb-library/table/merger.cc:31-176 | over children with disjoint keys any legal sequence of calls moves as one cursor over all the keys |
| Merger.MergingIterator.ShowsPair | ios/Pods/leveldb-library/table/merger.cc:110-118 | the value shown is the one that the key has in whichever child holds it |
| SortedCursor.PrevUndoesNext | ios/Pods/leveldb-library/include/leveldb/iterator.h:27-54 | for the cursor that these iterators refine, a step back undoes a step forward |
| SkipList.SkipList.FindGreaterOrEqual | ios/Pods/leveldb-library/db/skiplist.h:260-281 | finds the first node at or after the key and, on every level in use, the last node before it |
| SkipList.SkipList.PublishLink | ios/Pods/leveldb-library/db/skiplist.h:362-367 | the one store that makes a new node visible on a level keeps the list valid for readers between any two stores |
| SkipList.SkipList.Insert | ios/Pods/leveldb-library/db/skiplist.h:337-368 | a completed insertion adds exactly one key, at its place in the order, whatever its height |
| SkipList.SkipList.Contains | ios/Pods/leveldb-library/db/skiplist.h:371-378 | says whether the key is in the list |
| SkipList.SkipList.LevelIsSublist | ios/Pods/leveldb-library/db/skiplist.h:145-179 | each level is a strictly ascending sublist of the level below |
| SkipList.Iterator.Prev | ios/Pods/leveldb-library/db/skiplist.h:213-221 | without back links, goes to the greatest key before the current one |
| SkipList.Iterator.KeepsPlace | ios/Pods/leveldb-library/db/skiplist.h:63-101 | an iterator keeps its key through any insertion, be it half done |
| Log.Writer.AddRecord | ios/Pods/leveldb-library/db/log_writer.cc:34-108 | the file is at all times the encoding of the records added, cut into pieces at block boundaries |
| Log.PieceFormat | ios/Pods/leveldb-library/db/log_writer.cc:82-108 | a piece in numbers: zeros in place of a header that does not fit, checksum, length and type in seven bytes, low bytes first, types 1 to 4, and the bytes of the record |
| Log.PieceFillsBlock | ios/Pods/leveldb-library/db/log_writer.cc:34-80 | no piece crosses a block of 32768 bytes, and one that does not end its record ends its block |
| Coding.MaskRotates | ios/Pods/leveldb-library/util/crc32c.h:29-32 | less the constant, a masked checksum has every bit of the checksum 15 places further down |
| Log.Reader.ReadPhysicalRecord | ios/Pods/leveldb-library/db/log_reader.cc:189-271 | on any file the position only moves forward, and no fragment with a wrong checksum is handed back; a piece that a writer put there comes back whole, and the end of a file cut inside one is met without complaint |
| Log.Reader.ParseFragment | ios/Pods/leveldb-library/db/log_reader.cc:208-257 | on any file, a whole fragment whose checksum is wrong is dropped with all that is buffered, and that is reported; one that is handed back stands in the file with its checksum right |
| Log.Reader.ReadRecord | ios/Pods/leveldb-library/db/log_reader.cc:56-174 | at the start of a record of which the file has all, that record comes back and the position is behind it; otherwise none does, and no corruption is reported; on any file, what comes back is made of intact fragments, first to last in order |
| Log.Replay | ios/Pods/leveldb-library/db/log_reader.cc:56-174 | wherever a crash cuts a log, reading it gives exactly the records that lie before the cut as a whole, in order |
| Block.BlockBuilder.Add | ios/Pods/leveldb-library/table/block_builder.cc:71-105 | the buffer stays the prefix-compressed encoding of the pairs added, with a restart point every interval exactly and every other key sharing all it can with the one before |
| Block.BlockBuilder.Finish | ios/Pods/leveldb-library/table/block_builder.cc:61-69 | the block is those bytes, the offsets of the restart points and their number |
| Block.InsideUnlessWrapped | ios/Pods/leveldb-library/table/block.cc:71-74 | an entry that the length test lets pass lies inside its block exactly when its two lengths do not wrap in 32 bits |
| Block.WrappedLengthsPass | ios/Pods/leveldb-library/table/block.cc:71-74 | seven bytes that the test lets pass although the entry they announce is not there |
| Block.Iter.ParseNextKey | ios/Pods/leveldb-library/table/block.cc:225-252 | moves on to the next pair or to the end; outside a block that a builder made it never leaves the bytes of the block |
| Block.Iter.Seek | ios/Pods/leveldb-library/table/block.cc:164-202 | goes to the first pair whose key is not before the target, by the restart points and then one by one |
| Block.Iter.Do | ios/Pods/leveldb-library/table/block.cc:138-214 | each call moves on a genuine block as on the list of pairs that were put in |
| Block.NewIterator | ios/Pods/leveldb-library/table/block.cc:255-265 | the contents that a builder finished open to an iterator over its pairs; contents too short for their restart array are refused |
| Block.RoundTrip | ios/Pods/leveldb-library/table/block_builder.cc:61-105 | what is put into a block is what iterating it gives back, for every restart interval |
| Comparator.BytewiseLawful | ios/Pods/leveldb-library/util/comparator.cc:27-66 | byte order is strict and total, a shortened separator lies from start to before the limit, and a successor is not before its key |
| Comparator.InternalLawful | ios/Pods/leveldb-library/db/dbformat.cc:47-97 | the same for internal keys on top of any lawful user comparator |
| Comparator.FindShortestSeparator | ios/Pods/leveldb-library/util/comparator.cc:31-52 | the in-place shortening computes the separator function of which that is proved |
| Comparator.SeparatorIsCut | ios/Pods/leveldb-library/util/comparator.cc:31-52 | where start and limit first differ decides: the separator is cut behind that byte, one larger, exactly when that is still before the limit |
| Comparator.SeparatorIsShortest | ios/Pods/leveldb-library/util/comparator.cc:31-52 | no key strictly between start and limit is shorter than a separator that differs from the start |
| Comparator.SuccessorIsShortest | ios/Pods/leveldb-library/util/comparator.cc:54-66 | no key that is not before the given one is shorter than a successor that differs from it |
| Bloom.BloomFilterPolicy.CreateFilter | ios/Pods/leveldb-library/util/bloom.cc:28-54 | exactly the probed bits of the keys are set in the bytes appended |
| Bloom.DeltaRotates | ios/Pods/leveldb-library/util/bloom.cc:44-52 | the step of the double hashing is the hash value rotated right by 17, bit by bit |
| Bloom.BloomFilterPolicy.NeverRejects | ios/Pods/leveldb-library/util/bloom.cc:56-80 | a filter matches every key that it was made of |
| FilterBlock.FilterBlockBuilder.StartBlock | ios/Pods/leveldb-library/table/filter_block.cc:21-27 | which keys belong to which filter does not change, and the keys to come belong to the filter of the two kilobytes of the offset |
| FilterBlock.BaseIs | ios/Pods/leveldb-library/table/filter_block.cc:14-16 | filter number n is for the offsets from 2048 n up to 2048 (n + 1), and the stored logarithm 11 says so |
| FilterBlock.FilterBlockBuilder.Finish | ios/Pods/leveldb-library/table/filter_block.cc:35-49 | the block has the filters, their offsets and the array offset, each filter made of the keys of its group |
| FilterBlock.InternalFilterPolicy.NeverRejects | ios/Pods/leveldb-library/db/dbformat.cc:101-115 | a key matches any filter of keys among which is one with its user key |
| FilterBlock.FilterBlockReader.KeyMayMatch | ios/Pods/leveldb-library/table/filter_block.cc:90-104 | the answer for an offset is that of the filter stored for it, and a match where there is none |
| Table.IndexLeads | ios/Pods/leveldb-library/table/table.cc:214-242 | the first index entry not before a key leads to the block with the first entry not before it, unless that entry is of another user key |
| Table.ReadBlock | ios/Pods/leveldb-library/table/format.cc:64-115 | hands back the bytes at the handle exactly when the file has them with their trailer, they are stored plain and, if asked for, the checksum is right |
| Table.Table.InternalGet | ios/Pods/leveldb-library/table/table.cc:214-242 | on a table that a builder wrote, handing back nothing but the first entry not before the key, and that one whenever it has the user key, filter or not; and nothing when the filter of the block does not match |
| Table.TableBuilder.Add | ios/Pods/leveldb-library/table/table_builder.cc:94-123 | one more entry, with the index key of the block before settled as a separator; the block being built is written as soon as, and only when, it has reached the block size |
| Table.TableBuilder.Finish | ios/Pods/leveldb-library/table/table_builder.cc:198-253 | the file has all data blocks, the filter block and the index block for exactly the entries added |
| Table.Open | ios/Pods/leveldb-library/table/table.cc:38-80 | what a builder wrote opens to a table of its entries |
| HandleTable.HandleTable.Insert | ios/Pods/leveldb-library/util/cache.cc:79-93 | through pointer chains, the table maps the name to the new handle and returns the one replaced; it never comes to have more handles than buckets |
| HandleTable.HandleTable.Remove | ios/Pods/leveldb-library/util/cache.cc:95-103 | unlinks exactly the handle of the name |
| HandleTable.HandleTable.Resize | ios/Pods/leveldb-library/util/cache.cc:123-147 | moving every chain into a list of twice the length or more changes no entry |
| HandleTable.BucketIsRemainder | ios/Pods/leveldb-library/util/cache.cc:115-121 | the masked bucket is the remainder of the hash value, for the lengths that the table has |
| Cache.LRUCache.Lookup | ios/Pods/leveldb-library/util/cache.cc:253-260 | the entry of the key, moved to those in use, with one more reference and no other changed |
| Cache.LRUCache.Release | ios/Pods/leveldb-library/util/cache.cc:262-265 | one reference less; the last one frees the entry, the last but one makes it the newest of the unused |
| Cache.LRUCache.Insert | ios/Pods/leveldb-library/util/cache.cc:268-304 | the entry replaces that of its key, then the oldest unused ones go, no more of them than the capacity asks for, and no handle of another user changes |
| Cache.LRUCache.Erase | ios/Pods/leveldb-library/util/cache.cc:319-322 | the entry leaves table, list and usage, and lives on while it has users |
| Cache.LRUCache.Prune | ios/Pods/leveldb-library/util/cache.cc:324-334 | all unused entries go and none in use |
| CacheRuns.Run | ios/Pods/leveldb-library/util/cache.cc:253-334 | after any list of operations each entry has exactly the references of its users and the cache, and nothing that a user holds is freed |
| Durability.NoLostWrite | ios/Pods/leveldb-library/db/db_impl.cc:222-287 | every logged batch is in a table of the current version or in a log that is kept |
| Durability.ObsoleteFilesGo | ios/Pods/leveldb-library/db/db_impl.cc:222-287 | a table that no version and no writer of tables needs, and a log older than the one needed, are listed and then deleted |
| Durability.RunsAreGood | ios/Pods/leveldb-library/db/db_impl.cc:1195-1380 | every interleaving of the writer, the background thread, readers and file deletions keeps the invariant behind that |
| Recovery.CrashRecovers | ios/Pods/leveldb-library/db/db_impl.cc:289-378 | a crash at any point leaves to recovery all synced batches and none that was not logged, and all that were logged if the logs are spared |
| Recovery.RecoverLogFile | ios/Pods/leveldb-library/db/db_impl.cc:380-498 | the tables written from a log hold exactly its records, each a run of them that was closed as soon as the memtable was full and not before, and nothing the descriptor needs has changed |
| Recovery.Recover | ios/Pods/leveldb-library/db/db_impl.cc:289-378 | the database opened has exactly what was on disk, all of it in tables that the new descriptor lists |
| Recovery.NotYetRemoved | ios/Pods/leveldb-library/db/db_impl.cc:222-287 | once the descriptor is written, files not yet removed do not change what a further crash leaves |
| Recovery.CrashesLoseNothingSynced | ios/Pods/leveldb-library/db/db_impl.cc:1478-1519 | over any run with any number of crashes, also during recoveries, the invariant holds and what was synced once stays |
| GroupCommit.DBImpl.BuildBatchGroup | ios/Pods/leveldb-library/db/db_impl.cc:1270-1316 | the batch logged is the concatenation of the batches of the longest front run of the queue that keeps the size and sync rules |
| GroupCommit.GroupLimits | ios/Pods/leveldb-library/db/db_impl.cc:1282-1301 | in bytes: a group with a first batch of up to 128 KB grows by no more than that, one with a larger first batch takes followers up to 1 MB in all, and it ends only at the end of the queue, at a batch that would break this, or at a sync writer behind a leader that does not sync |
| GroupCommit.DBImpl.Finish | ios/Pods/leveldb-library/db/db_impl.cc:1195-1266 | the group leaves the queue, each of it is told the outcome, and the next writer is at the front |
| GroupCommit.RunsAreGood | ios/Pods/leveldb-library/db/db_impl.cc:1195-1266 | in every interleaving the queue, the log and the sequence numbers stay as the groups say |
| GroupCommit.ConsecutiveRanges | ios/Pods/leveldb-library/db/db_impl.cc:1195-1266 | committed groups take up consecutive ranges of sequence numbers, no number twice |
| GroupCommit.LeavesOnce | ios/Pods/leveldb-library/db/db_impl.cc:1195-1266 | writers leave in the order of their arrival, each in exactly one group |
| DtlsMask.Mark | ios/Pods/BoringSSL-GRPC/src/ssl/d1_both.cc:206-254 | marking a byte range by two masked bytes and whole bytes between sets exactly the bits of the range, and says when all are set |
| DtlsMessages.OpenEncoded | ios/Pods/BoringSSL-GRPC/src/ssl/d1_both.cc:292-401 | the fragments of a record are taken one after the other as they were put in |
| DtlsMessages.TakesGenuine | ios/Pods/BoringSSL-GRPC/src/ssl/d1_both.cc:292-401 | a fragment of a genuine message keeps every slot right, and fails exactly if it is one flight ahead or, once encrypted, not of the current message |
| DtlsMessages.TakesExactly | ios/Pods/BoringSSL-GRPC/src/ssl/d1_both.cc:260-290 | exactly the bytes of accepted fragments arrive, in their own slot |
| DtlsMessages.ContradictionIsRefused | ios/Pods/BoringSSL-GRPC/src/ssl/d1_both.cc:271-281 | of two fragments that give one message different types or lengths the second is refused, whatever arrived in between |
| DtlsMessages.HeaderBytes | ios/Pods/BoringSSL-GRPC/src/ssl/d1_both.cc:450-464 | the twelve bytes of a header: type, length, number, offset and length of the fragment, high bytes first |
| DtlsMessages.ReassemblyUndoesCutting | ios/Pods/BoringSSL-GRPC/src/ssl/d1_both.cc:292-433 | once all cuts of a message have arrived, in any order, with duplicates and amid other fragments, its slot is full and holds the message |
| DtlsMessages.FullMeansDelivered | ios/Pods/BoringSSL-GRPC/src/ssl/d1_both.cc:206-246 | no byte is ever taken as arrived that was in no fragment |
| DtlsReceiver.Receiver.OpenHandshake | ios/Pods/BoringSSL-GRPC/src/ssl/d1_both.cc:292-401 | the array of slots with buffers and bit masks does what the fragment function says, alerts included |
| DtlsReceiver.Receiver.GetMessage | ios/Pods/BoringSSL-GRPC/src/ssl/d1_both.cc:403-419 | the current message is there exactly when all its bytes are, with the body and the header as it was sent whole |
| DtlsReceiver.Receiver.Next | ios/Pods/BoringSSL-GRPC/src/ssl/d1_both.cc:421-433 | the slot of the message that was read becomes free for the one a flight later |
| DtlsReceiver.Receiver.HasUnprocessedData | ios/Pods/BoringSSL-GRPC/src/ssl/d1_both.cc:435-448 | tells whether any slot but that of the message being read is taken |
| DtlsSender.Sender.AddMessage | ios/Pods/BoringSSL-GRPC/src/ssl/d1_both.cc:543-584 | a message is serialized whole under the next number, unless it is too long or the flight is full |
| DtlsSender.Sender.SealNextMessage | ios/Pods/BoringSSL-GRPC/src/ssl/d1_both.cc:621-710 | the next record carries as much of the message as there is room for, from where the last cut ended |
| DtlsSender.Sender.SealNextPacket | ios/Pods/BoringSSL-GRPC/src/ssl/d1_both.cc:715-756 | a packet within the limit carries at least one record, and only cuts of the flight; it succeeds whenever every message can be sealed and a record fits, and it ends only when all is written, a message was cut short or the next finds no room |
| DtlsSender.Sender.SendFlight | ios/Pods/BoringSSL-GRPC/src/ssl/d1_both.cc:758-801 | if every message can be sealed and a record fits, all is sent unless the network blocks; then the packet is cut again next time from where it was |
| DtlsSender.Sender.RetransmitFlight | ios/Pods/BoringSSL-GRPC/src/ssl/d1_both.cc:810-819 | under the same condition a network that takes all is sent every message of the flight from its start to its end, every cut in a record |
| DtlsFlight.Exchange | ios/Pods/BoringSSL-GRPC/src/ssl/d1_both.cc:292-433 | a flight that can be sealed is sent in packets of any size, and if its records arrive in any order and number but each at least once, it is read as exactly the messages of the sender, in order and without an alert |
| PbCommon.FieldIter.Find | ios/Pods/nanopb/pb_common.c:87-104 | from wherever the iterator stands, it comes to the field with the tag, or stays if there is none |
| PbEncode.OStream.EncodeVarint | ios/Pods/nanopb/pb_encode.c:608-628 | writes the base-128 groups of the number, exactly if there is room |
| PbEncode.OStream.EncodeSubmessage | ios/Pods/nanopb/pb_encode.c:717-765 | counting first and writing then, writes length and message exactly if its limits are kept and there is room |
| PbEncode.OStream.Encode | ios/Pods/nanopb/pb_encode.c:528-550 | succeeds exactly when all that is present keeps its limits and the buffer has room, and then has appended the wire form of the message |
| PbInput.IStream.DecodeVarint32 | ios/Pods/nanopb/pb_decode.c:187-247 | reads what the specification of a 32-bit number reads, overlong forms included |
| PbIntegers.TooLargeIsRejected | ios/Pods/nanopb/pb_decode.c:187-247 | a number from 2^32 up to 2^63 is no 32-bit number, however it goes on |
| PbIntegers.NegativeIsCut | ios/Pods/nanopb/pb_decode.c:187-247 | except that the 64-bit form of a negative 32-bit number is read as its low half |
| PbInput.IStream.Skip | ios/Pods/nanopb/pb_decode.c:321-331 | skips exactly the bytes of an unknown field, and fails as the specification does |
| PbIntegers.SkipsValue | ios/Pods/nanopb/pb_decode.c:321-331 | skipping by its wire type ends exactly behind the encoding of any value of any type |
| PbIntegers.SkipsPacked | ios/Pods/nanopb/pb_decode.c:321-331 | the same for a packed array |
| PbInput.IStream.DecodeTheContent | ios/Pods/nanopb/pb_decode.c:406-483 | static fields, packed or not, come out as specified, and the stream stands behind them |
| PbInput.CheckRequired | ios/Pods/nanopb/pb_decode.c:1043-1080 | comparing words of bits tells whether any of the first 64 required fields is missing |
| PbInput.IStream.DecodeNoInit | ios/Pods/nanopb/pb_decode.c:934-1082 | on any bytes, for any schema, the stream decoder gives the message of the specification or fails where that fails |
| PbEvolution.MessageRead | ios/Pods/nanopb/pb_decode.c:934-1082 | of what a writer with another version of the schema encodes, the reader gets its own version of the message, unknown fields skipped, missing ones at their defaults, widths converted, if and only if all that it knows fits and no required field is missing |
| PbEvolution.UnpackedRead | ios/Pods/nanopb/pb_decode.c:424-483 | values under tags of their own are appended one by one, also those that could have come packed, up to the size of the array |
| PbEvolution.LastCounts | ios/Pods/nanopb/pb_decode.c:406-424 | of a field that is not repeated and no message the last value counts |
| PbRoundTrip.UnknownFieldsAreSkipped | ios/Pods/nanopb/pb_decode.c:984-995 | a reader whose schema lacks some of the fields gets the message without them, exactly when the others are legal |
| PbRoundTrip.FixedBytes | ios/Pods/nanopb/pb_encode.c:630-700 | the bytes of fixed-length numbers under wire types 5 and 1 |
| PbRoundTrip.VariableBytes | ios/Pods/nanopb/pb_encode.c:608-645 | the bytes of numbers of variable length, zigzag numbers, flags and strings |
| PbRoundTrip.PackedBytes | ios/Pods/nanopb/pb_encode.c:147-230 | the bytes of a packed array |
| PbRoundTrip.MinusOneTakesTen | ios/Pods/nanopb/pb_encode.c:608-628 | minus one takes ten bytes without zigzag, in 32 bits too |
| PbRoundTrip.StringNeedsNul | ios/Pods/nanopb/pb_decode.c:1487-1523 | of the strings that the encoder takes, decoding fails for exactly those that fill their array |
| PbRoundTrip.RoundTrip | ios/Pods/nanopb/pb_decode.c:1084-1096 | decoding the encoding of a message gives back all that is present, with defaults for the rest, if and only if array limits are kept and every string at every depth has room for its NUL |
| PbExchange.Exchange | ios/Pods/nanopb/pb_decode.c:1084-1096 | through both streams, with a schema at each end: encoding fails exactly if a limit is not kept or the buffer is too small, decoding exactly if something does not fit the reader, and else the reader gets its version of the message |
| PbExchange.EncodeAndDecode | ios/Pods/nanopb/pb_encode.c:528-550 | through both streams: encoding fails exactly if a limit is not kept or the buffer is too small, decoding exactly for a string without room for its NUL, and else the message comes back |

## Left out

- Versions.Version.Get: does not charge files for seeks, nor return corruption statuses; the value is that of a full
  read.
- Compactions.DropsAreSound: is about the drop rules alone; keys that cannot be parsed and the memtable flush in the
  middle of the loop are not part of it.
- VersionSteps.RunCompaction: does not flush a memtable while it runs, and takes its input as already merged.
- VersionSteps.VersionRuns: takes it from its caller that flushed entries are newer than all written before.
- Merger.MergingIterator.Run: children share no key, as the entries of one database do not; `NewMergingIterator` for no
  child or one is not part of this model.
- Table.TableBuilder.Add: presumes files and blocks below 4 GB, as the 32-bit offsets of the format do; the same holds
  for the block and filter builders.
- Table.Open: starts where the footer and the metaindex have told the handles; block cache and Snappy are left out.
- Log.Reader.ReadRecord: does not model `initial_offset`; on files that no writer wrote it does not say which intact
  fragments are found.
- Block.Iter.ParseNextKey: stops where the source reads on outside a block after lengths that wrap.
- Bloom.BloomFilterPolicy.CreateFilter: takes the number of probes as given instead of rounding it from bits per key.
- Durability.RunsAreGood: batches keep their contents through merges; what compactions drop is the matter of
  `Compactions`. Input and output errors are not modelled.
- Recovery.Recover: never reuses the last log (`reuse_logs` is off by default); a reused log would be appended to behind
  what a crash may have torn. Last sequence numbers and unreadable records are left out.
- SkipList.SkipList.PublishLink: every store is seen by all readers in one order; weaker memory is not modelled.
- GroupCommit.DBImpl.Finish: waiting and waking are steps under one mutex; slowdowns and stops of writers are left out.
- Cache.LRUCache.Insert: one shard; `ShardedLRUCache` only picks one by hash bits.
- DtlsSender.Sender.SealNextMessage: encryption is a length function that may fail; epochs above the write epoch are
  errors as in the source. Timers, MTU probing and allocation failures are left out.
- DtlsFlight.Exchange: the network loses no record for good, within the retransmissions that this takes.
- PbInput.IStream.DecodeNoInit: no oneofs, callbacks, extensions, pointers, proto3 defaults or fixed-count arrays, and
  no tag 0 in a message type without fields; a bit position that wraps after 37 groups is not modelled.
- PbEvolution.MessageRead: fields with the same tag are of the same type up to width and size; encodings of 4 GB and
  more are left out, as lengths have 32 bits.
- Seek sampling, manual compaction bookkeeping, statistics, options, the environment and all platform code: they decide
  when things happen, not what they do.
- The application code and the other bundled libraries.
