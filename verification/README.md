# InfoCrate: verified models of the storage engine and the replicated layer

A Dafny 4.11 project that models the core of InfoCrate and proves what that core is for:

* the Go LSM engine (`go/pkg/lsm`): skip list, write-ahead log, Bloom filter, SSTable file format,
  compaction, and the engine that moves records between these layers while reads go on;
* the CRC-32 of `src/engine/crc32.ts`, which is also the checksum of the log;
* the single-threaded TypeScript engine (`src/engine/storageEngine.ts`);
* the replication protocol of `src/engine/clusterSimulator.ts`;
* the Raft driver of one node (`go/pkg/raft/node.go`, `go/pkg/raft/log.go`), and elections among several.

`dafny verify dfyconfig.toml` checks everything.

## How it is laid out

| files | content |
|---|---|
| `Bytes`, `Entries` | little-endian integers, key order, records, lookups in lists and layers, writes and their latest values |
| `Crc32`, `Crc32Laws` | bit-serial division, linearity of the shift step, the table, the byte loop, detection of short bursts; the polynomial, the residue and the check value |
| `Wal` | frames, recovery of an arbitrary file, cuts, torn tails, damage; the log object |
| `Bloom` | the filter object, exact effect of `Add`, no false negatives, encoding |
| `TableFormat`, `TableProofs`, `SSTable`, `FileLayout` | the file format as functions; round trips and lookups; writer and reader with their loops; the bytes of a table file by position, and reading of arbitrary ones |
| `SkipList` | nodes with `Forward` arrays, and the memtable that rewires them |
| `Compaction` | stable sort, deduplication, the merge against newest-to-oldest lookup |
| `EngineAges`, `EngineModel` | the engine as a machine over its atomic steps, and an invariant of all its traces |
| `EngineLimits` | exactly when a step, and so a trace, keeps every lookup right |
| `EngineRuns` | runs that meet the hypotheses are right; for each hypothesis, a run from the empty engine that breaks it |
| `Engine`, `EngineSizes` | the engine object over real skip lists, log bytes and table files, refining `EngineModel`; when its memtables rotate, over runs of writes |
| `Recovery` | crashes before and after log resets, and what reopening keeps |
| `EngineLives`, `TableFiles` | any number of lives of one directory, and when each lookup stays right through them; the numbers in file names |
| `SimStore`, `SimEngine`, `SimLaws` | the simulated engine as a store, and as an object with frames, blocks and bits; what its operations do, by contents and numbers |
| `Quorum`, `Cluster`, `ClusterLaws`, `ClusterSim`, `ClusterReads` | majorities; the simulator's protocol over runs; what its operations do, field by field; the simulator's objects; what its leader reads |
| `RaftLog`, `RaftNode`, `RaftLaws`, `RaftLimits`, `RaftElection`, `RaftDriver` | the replicated log; one node over all interleavings; what its steps do and what becomes of a proposal; runs that overlap; several nodes; the node object |

Objects that the source updates in place are classes whose methods are proved against functions over
values; the properties over runs are proved about those functions. The modules whose names end in `Laws`,
with `EngineSizes` and `FileLayout`, say what those functions do without naming their parts: in the bytes of
a file, the fields of a node, the queries and proposals of a run. Where a property needs a hypothesis, a
lemma whose name ends in `Exact` says when a step keeps it, one about runs says the same of whole runs,
and a run from the initial state shows it fail.

## What fails in general, and when exactly it holds

* The Go engine answers with the last writes throughout a trace exactly when each install in it is harmless
  (`EngineLimits.TracesExact`), with no hypothesis on queues, keys, levels or overlapping compactions.
  A flush is harmless exactly when it hides nothing behind an older memtable still in memory, but deletions
  behind deletions (`FlushExact`). A compaction is exactly when every key that level 0 answers is not in
  level 1 and is answered alike by the snapshot, and no key comes back that neither level has
  (`InstallExact`); the comment at go/pkg/lsm/compaction.go:38 calls tombstones safely discarded there, but
  level 1 is not an input. `EngineRuns` has a run for each way to fail: `StaleRead` (a key in level 1 is
  compacted again), `LateFlushLost` (a flush between snapshot and install), `SkippedMemtableHides` (a
  rotation that meets a full queue) and `EmptyKeyUnread` (an empty key in level 1).
* A key that is answered right is so again after a crash, at any point of any trace and whatever has
  become of other keys, exactly as `Recovery.CrashExact` says: a key in the log unless its last record is a
  live empty value, any other key under a condition on memory and levels. `ResetLosesWrite` and
  `ReopenReadsLevel1` are the runs that lose a write to a log reset and to the order in which files load.
* Through any number of crashes and reopenings a directory answers with the last writes exactly when each
  flush, compaction and crash meets its guard (`EngineLives.LivesExact`), though files may then repeat
  records of the log, and timestamps tie. `LostValueReturns` is a life in which a key disappears at a crash
  and a later compaction brings it back. File numbers restart at the count of the files found, so files are
  never overwritten exactly when none has a greater number (`TableFiles.OpenedExact`); in
  `RestartLosesTables` a compaction after a restart overwrites, and then removes, its own input.
* README.md:129 of the repository says that a torn trailing frame is cut off; the code only seeks to the
  end of the file. Appends behind it are swallowed without an error until they fill it up
  (`Wal.TornTailSwallows`), and then the log is corrupt exactly when the checksum differs
  (`Wal.TornTailFilled`). Behind a stump shorter than a header the next frame is read as sizes, with the
  outcomes of `Wal.TornHeader`.
* An entry survives the table format exactly within the limits of its length fields
  (`TableProofs.EntrySurvivesExactly`), and a write survives the log unchanged exactly when it is not an
  empty live value (`Wal.LoggedIsFaithful`).
* Whatever the timestamps, a merge keeps the record that the layers answer exactly when every other one of
  the key is older (`Compaction.NewestFirstExact`, `MergeExact`); with equal timestamps it keeps the older
  table's (`EqualTimestampsResurrect`).
* The simulated engine is right throughout a run exactly when each compaction in it is faithful
  (`SimStore.RunsExact`), whatever the clock says; with growing timestamps that means that level 1 has none
  of the keys (`FaithfulExact`). `Level1Conflict` and `FallingClock` are runs that go wrong.
* A simulator node that returns keeps agreement exactly when nothing happened meanwhile
  (`Cluster.ReturnExact`). A run has at most one live leader exactly when no operation brings back an old
  one (`OneLeaderRuns`), and no two live leaders of one term exactly when none brings back a node that
  leads in a live leader's term (`LeadersDifferRuns`); `LeadersShareTerm` is a run with two, and an
  election's term is fresh exactly when the candidate has missed none (`FreshTermExact`).
* While nobody returns, and with faithful compactions behind it, the simulator's leader answers a key by the
  last PUT or DELETE query on it that was answered with success, exactly when that query reaches the stores,
  which a put without a value or with an empty one does not (`ClusterReads.LeaderReads`). After the leader
  has failed or was partitioned off no write is answered with success before an election
  (`ClusterLaws.NoWriteBeforeElection`).
* Two overlapping proposals can be applied in reverse (`RaftLimits.OverlappingPutsReorder`); a run applies
  entries in log order exactly when no entry is sent behind a later one (`RaftNode.LogOrderRuns`). A write whose client got an
  error can lie below the commit index (`RaftLimits.FailedBelowCommit`); a run avoids that exactly when no
  commit passes a failed write and no write fails behind the commit index (`RaftNode.NoneFailedRuns`).
* With vote requests that are always granted, as at go/pkg/raft/node.go:253-256, two nodes can lead in
  one term exactly when there are two (`RaftElection.AlwaysGrantingExact`).

The repository's README gives the footer 48 bytes and another magic number, and says compaction merges
overlapping level 1 tables; the code writes 40 bytes (go/pkg/lsm/sstable.go:15-17) and merges level 0
only. `Count` is documented as the number of active items (go/pkg/lsm/skiplist.go:225) and counts
tombstones too. The model follows the code.

## Model

| member | source | states |
|---|---|---|
| Crc32.ShiftLinear | src/engine/crc32.ts:6 | one shift step of the reflected division distributes over exclusive or |
| Crc32.ShiftsInjective | src/engine/crc32.ts:5-7 | any number of shift steps loses no information |
| Crc32.RunByte | src/engine/crc32.ts:13-16 | absorbing a byte at once and shifting eight times equals feeding its eight bits, lowest first, to the bit-serial register |
| Crc32.RegisterIsRun | src/engine/crc32.ts:12-16 | over whole messages the bytewise register is the bit-serial one |
| Crc32.TableStep | src/engine/crc32.ts:14-15 | a table lookup on the low byte, folded into the rest shifted down, is eight shift steps |
| Crc32.BuildTable | src/engine/crc32.ts:2-9 | the nested loops fill 256 entries, each eight shift steps of its index |
| Crc32.Crc32Ieee | src/engine/crc32.ts:11-18 | the table loop returns the complement of the bit-serial register of every byte sequence; Crc32Laws says that this is the CRC-32 of section 8 of RFC 1952 |
| Crc32.FeedWindow | src/engine/crc32.ts:13-16 | up to four bytes act on the register as one linear injection of their window |
| Crc32.WindowInjective | src/engine/crc32.ts:13-16 | different byte strings of one length up to four have different windows |
| Crc32.BurstDetected | src/engine/crc32.ts:11-18 | messages that differ only within at most four consecutive bytes have different checksums |
| Crc32.SameValue | src/engine/crc32.ts:17 | two checksums with the same number are the same |
| Crc32Laws.ShiftSubtracts | src/engine/crc32.ts:6 | what a shift subtracts is x^26+x^23+x^22+x^16+x^12+x^11+x^10+x^8+x^7+x^5+x^4+x^2+x+1 with x^0 in the highest bit, coefficient by coefficient |
| Crc32Laws.LeDigits | go/pkg/lsm/wal.go:80-97 | the bits of a little-endian number, in the order the checksum takes them, are its binary digits from the lowest |
| Crc32Laws.Residue | src/engine/crc32.ts:11-18 | after any message followed by its own checksum, little-endian, the register is 0xdebb20e3 |
| Crc32Laws.CheckValue | src/engine/crc32.ts:11-18 | the checksum of the text "123456789" is 0xcbf43926 |
| Bytes.LeRoundTrip | go/pkg/lsm/wal.go:80-82 | little-endian writing and reading of a number that fits its width are inverse |
| Bytes.LeByte | go/pkg/lsm/wal.go:80-82 | byte i of a number written so is its digit of weight 256^i |
| Bytes.LeTruncates | go/pkg/lsm/sstable.go:97-98 | a number too large for its width is read back modulo 256 to the width |
| Bytes.TimestampRoundTrip | go/pkg/lsm/wal.go:80 | a signed 64-bit timestamp survives the unsigned field, negative ones included |
| Bytes.TimestampBytes | go/pkg/lsm/wal.go:80 | the field holds two's complement: a negative timestamp stands there as its sum with 2^64 |
| Bytes.LessIsStrictTotalOrder | go/pkg/lsm/skiplist.go:69 | bytewise key comparison is a strict total order |
| Bytes.LessExact | go/pkg/lsm/skiplist.go:69 | one string is below another exactly when they agree up to some position where it ends or has the smaller byte |
| Entries.FindUpsert | go/pkg/lsm/skiplist.go:78-112 | inserting or overwriting answers the new record for its key and changes no other key |
| Entries.AscendingUpsert | go/pkg/lsm/skiplist.go:61-113 | it keeps keys strictly ascending |
| Entries.ReplayIsLatest | go/pkg/lsm/skiplist.go:61-216 | after any list of puts and deletes the ascending list holds exactly the last write of each key, once |
| Entries.LayersFlatten | go/pkg/lsm/engine.go:209-222 | lookup layer by layer is lookup in the layers laid end to end |
| Wal.FrameLayout | go/pkg/lsm/wal.go:76-97 | every field of a frame is found at its offset in any file that starts with the frame |
| Wal.FrameBytes | go/pkg/lsm/wal.go:66-97 | any record whose timestamp fits, byte by byte: at 0 the CRC-32 of the rest, at 4 the timestamp, at 12 and 16 the lengths modulo 2^32, at 20 key and value; a deletion has no value, and a value whose length is a multiple of 2^32 is written as zeros |
| Wal.HeaderDecides | go/pkg/lsm/wal.go:125-177 | what recovery does at the front of any bytes, decided by the numbers found at these offsets: panic, clean end, corruption error, or one record and on behind it |
| Wal.RecoverFrame | go/pkg/lsm/wal.go:128-177 | recovery of a whole frame takes that record and goes on behind it |
| Wal.RecoverTorn | go/pkg/lsm/wal.go:129-149 | any strict prefix of a frame ends recovery without an error and without a record |
| Wal.RecoverLog | go/pkg/lsm/wal.go:125-177 | a list of writes is recovered in order, before whatever follows |
| Wal.RecoverCut | go/pkg/lsm/wal.go:125-177 | cutting the file anywhere yields exactly the records whose frames lie wholly before the cut |
| Wal.CutFallsSomewhere | go/pkg/lsm/wal.go:125-177 | every cut is of that kind |
| Wal.LoggedIsFaithful | go/pkg/lsm/wal.go:161-168 | a record comes back unchanged exactly when it is a deletion or its value is not empty |
| Wal.TornTailSwallows | go/pkg/lsm/wal.go:146-149 | appends behind a torn frame with a whole header are not recovered, and no error is reported, until they fill it up (TornHeader has the shorter stumps) |
| Wal.TornTailFilled | go/pkg/lsm/wal.go:152-156 | once they do, recovery ends there as corrupt if and only if the checksum of what fills the frame differs |
| Wal.TornTailDetected | go/pkg/lsm/wal.go:152-156 | which it does whenever at most four bytes were missing and others took their place |
| Wal.TornHeader | go/pkg/lsm/wal.go:125-177 | behind a stump shorter than a header, the earlier records are recovered, and then: nothing more, the corruption error, a panic or a record never written, as the sizes and the checksum decide that are read across the stump and the next frame |
| Wal.RecoverDamaged | go/pkg/lsm/wal.go:152-156 | a frame altered within four bytes of its timestamp or of its data stops recovery as corrupt |
| Wal.CorruptionDetected | go/pkg/lsm/wal.go:137-156 | a log so altered in one frame recovers exactly the earlier records, with the corruption error |
| Wal.WAL.Write | go/pkg/lsm/wal.go:59-114 | appends exactly the frame of the record to the file |
| Wal.WAL.Recover | go/pkg/lsm/wal.go:117-185 | on any bytes whatever: the records, the error or the out-of-range slice of the uint32 size arithmetic that the parse function gives, and the file unchanged |
| Wal.WAL.Reset | go/pkg/lsm/wal.go:188-200 | leaves the empty file |
| Bloom.SetBit | go/pkg/lsm/bloom.go:72-74 | setting one bit in its byte sets that bit and no other |
| Bloom.ByteRoundTrip | go/pkg/lsm/bloom.go:107-121 | a byte of bits survives encoding |
| Bloom.DecodeEncode | go/pkg/lsm/bloom.go:102-129 | decoding an encoded filter gives the filter back |
| Bloom.BloomFilter.constructor | go/pkg/lsm/bloom.go:43-48 | an empty filter; it has a byte for every eight bits begun exactly when the size is at most 2^32 - 8, where the uint32 sum does not wrap |
| Bloom.BloomFilter.Add | go/pkg/lsm/bloom.go:65-77 | sets exactly the bits chosen by the 64-bit wrapping double hash, so the filter claims the key and whatever it claimed before, and counts it; all indices lie inside the array |
| Bloom.BloomFilter.MayContain | go/pkg/lsm/bloom.go:81-98 | true exactly when all chosen bits are set, and always for a filter without bits |
| Bloom.AskFilter | go/pkg/lsm/bloom.go:81-98 | on any decoded filter: yes, no, or the panic of an index past its bytes, whichever comes first |
| Bloom.AskSound | go/pkg/lsm/bloom.go:89-97 | a filter with a byte for each of its bits never panics, and says yes exactly when all chosen bits are set |
| FileLayout.BitPlace | go/pkg/lsm/bloom.go:70-74 | the i-th bit of a key is the first hash with the second added i times in 64 bits, modulo the number of bits, and lies in its byte counted from the lowest |
| FileLayout.AskExact | go/pkg/lsm/bloom.go:81-98 | whatever a decoded filter holds, the first of the key's bits that is clear or lies behind the bytes decides between no and a panic; without one the answer is yes |
| FileLayout.FilterBytes | go/pkg/lsm/bloom.go:102-129 | the filter block: three 32-bit counts at 0, 4 and 8, then the bytes; fewer than twelve bytes are no filter |
| TableFormat.DecodeEncodeEntry | go/pkg/lsm/sstable.go:83-104 | an entry within the length limits is read back, a tombstone without its value, with the right length |
| FileLayout.EntryBytes | go/pkg/lsm/sstable.go:83-104 | any record whose timestamp fits, byte by byte: lengths at 0 and 2 modulo 2^16 and 2^32, the deletion flag at 6, the timestamp at 7, key and value from 15 |
| FileLayout.RecordRead | go/pkg/lsm/sstable.go:380-407 | what is read at the front of any bytes, by those offsets; a flag other than one is no deletion |
| TableFormat.DecodeEncodeBlock | go/pkg/lsm/sstable.go:380-407 | so are the entries of a block, in order |
| TableFormat.ScanEncodedBlock | go/pkg/lsm/sstable.go:338-365 | the early-exit scan of an ascending block finds exactly what a linear search of its entries finds |
| TableFormat.ChunksFlatten | go/pkg/lsm/sstable.go:106-113 | the blocks hold the entries, in order, each once |
| TableFormat.ChunksSizes | go/pkg/lsm/sstable.go:108-113 | flushed blocks have reached 4096 bytes, the open one has not |
| TableFormat.BlocksTile | go/pkg/lsm/sstable.go:118-146 | every block but the last is at least 4096 bytes long and none is empty |
| TableFormat.BlocksCloseInTime | go/pkg/lsm/sstable.go:108-113 | and no block reaches 4096 bytes before its last record, so the split is the only one |
| TableFormat.BlocksAreContiguous | go/pkg/lsm/sstable.go:129-135 | index entry by index entry, the blocks tile the data region from 0 to the filter, without gap or overlap |
| TableFormat.BlockBytes | go/pkg/lsm/sstable.go:124-136 | the bytes an index entry points to are those of its block |
| TableFormat.DecodeEncodeIndex | go/pkg/lsm/sstable.go:158-167 | the index parse gives back the index that was written |
| FileLayout.IndexEntryBytes | go/pkg/lsm/sstable.go:158-167 | an index entry byte by byte: key length at 0, offset at 2, length at 10, key from 18 |
| TableProofs.SearchFinds | go/pkg/lsm/sstable.go:321-323 | on an ascending index the binary search returns the first block whose last key is not below the key |
| TableProofs.IndexOfAscending | go/pkg/lsm/sstable.go:129-133 | the index of an ascending entry list ascends, and each block's last key bounds its entries |
| TableProofs.FindInBlock | go/pkg/lsm/sstable.go:320-367 | a key of the table can only be in the block found, so looking there equals looking everywhere |
| TableProofs.OpenWritten | go/pkg/lsm/sstable.go:215-310 | opening a written file gives the index and the filter that were written |
| FileLayout.FileBytes | go/pkg/lsm/sstable.go:149-187 | a written file: records, filter, index, and forty bytes with the offset and length of the last two and the number 0x494E464F43524154 |
| FileLayout.OpenExact | go/pkg/lsm/sstable.go:215-289 | any file opens if and only if it has forty bytes, ends with that number, and the regions named there lie in it, the filter's with twelve bytes at least |
| FileLayout.IndexParse | go/pkg/lsm/sstable.go:269-289 | whatever bytes stand for an index, the entries read from them are the whole ones at the front: encoded again they are those bytes, and what is left is too short for another |
| TableProofs.ScanWritten | go/pkg/lsm/sstable.go:371-411 | scanning a written file returns the entries, tombstones without value |
| TableProofs.GetWritten | go/pkg/lsm/sstable.go:314-368 | for every strictly ascending list within the limits and every key, the lookup through filter, index, binary search and block scan answers as linear search over the list |
| FileLayout.SearchEnds | go/pkg/lsm/sstable.go:321-323 | on any index, sorted or not, the bisection ends behind a last key below the one looked for and before one that is not |
| FileLayout.ScanStops | go/pkg/lsm/sstable.go:338-365 | the scan of any block stops at its first record whose key is not below the one looked for, and answers with it if it has the key |
| FileLayout.HitIsScanned | go/pkg/lsm/sstable.go:314-411 | in any file whatever, a record that point lookup finds carries the key, and the scan finds it too |
| FileLayout.LookupFails | go/pkg/lsm/sstable.go:314-334 | a lookup panics only over a filter with too few bytes, and fails only if some index entry points outside the file |
| TableProofs.EntrySurvivesExactly | go/pkg/lsm/sstable.go:96-98 | an entry at the front of a block is read back as written exactly when key and value lengths fit their fields |
| SSTable.TrackedMinExact | go/pkg/lsm/sstable.go:73-75 | the tracked minimum of an ascending list is its first key exactly when that key is not empty or stands alone |
| SSTable.SSTableWriter.Add | go/pkg/lsm/sstable.go:72-116 | the writer then holds the entries so far with the new one: file, open block, index, offset, filter and key range all as the format function says |
| SSTable.SSTableWriter.FlushBlock | go/pkg/lsm/sstable.go:119-138 | appends the open block and its index entry, and empties it |
| SSTable.SSTableWriter.Finish | go/pkg/lsm/sstable.go:141-203 | the file is the format function of the entries and a filter that claims every key; the metadata is that of the entries |
| SSTable.ParseIndex | go/pkg/lsm/sstable.go:269-289 | the index loop computes the parse function on any bytes |
| SSTable.OpenTable | go/pkg/lsm/sstable.go:215-310 | so does opening, errors included, on any file, with the metadata that a fresh reader reports |
| SSTable.OwnMaxKey | go/pkg/lsm/sstable.go:291-306 | of a written file that is the last key of its entries |
| SSTable.SearchIndex | go/pkg/lsm/sstable.go:321-323 | the halving loop computes the search function |
| SSTable.PointGet | go/pkg/lsm/sstable.go:314-368 | the lookup computes its function on any reader, failed reads and panicking filters included |
| SSTable.ScanTable | go/pkg/lsm/sstable.go:371-411 | so does the scan |
| SkipList.NextUpInserted | go/pkg/lsm/skiplist.go:106-109 | inserting a tower changes, on each level it reaches, only the successor of its predecessor there |
| SkipList.SplicedIsLinked | go/pkg/lsm/skiplist.go:106-109 | rewiring the recorded predecessors on the new node's levels yields a skip list over the nodes with it inserted |
| SkipList.FootprintInserted | go/pkg/lsm/skiplist.go:111-112 | a new node adds key, value, eight bytes a level and 32 |
| SkipList.FootprintUpdated | go/pkg/lsm/skiplist.go:79-81 | an overwrite changes the footprint by the difference of the value lengths |
| SkipList.FootprintUpsert | go/pkg/lsm/skiplist.go:61-165 | an empty list weighs nothing; a write of a new key adds key, value, eight bytes a level of its tower and 32, an overwrite or deletion the difference of the value lengths |
| SkipList.Memtable.constructor | go/pkg/lsm/skiplist.go:35-46 | an empty memtable |
| SkipList.Memtable.Descend | go/pkg/lsm/skiplist.go:173-180 | the walk down the levels ends before the first node whose key is not below the key |
| SkipList.Memtable.DescendRecording | go/pkg/lsm/skiplist.go:65-75 | the same walk records the predecessor on every level |
| SkipList.Memtable.Levels | go/pkg/lsm/skiplist.go:68-73 | every level, walked by its pointers, is strictly sorted and a sublist of the level below; the ground level holds all nodes |
| SkipList.Memtable.FoundAt | go/pkg/lsm/skiplist.go:180-188 | what stands at the position decides whether the key is present |
| SkipList.Memtable.Put | go/pkg/lsm/skiplist.go:61-113 | for any height 1 to 16 the contents become those with the record inserted or overwritten, a new key's tower has that height and the others keep theirs, and size and count are those of the contents |
| SkipList.Memtable.Delete | go/pkg/lsm/skiplist.go:116-165 | the same with a tombstone |
| SkipList.Memtable.Get | go/pkg/lsm/skiplist.go:169-189 | answers as lookup in the contents |
| SkipList.Memtable.AllEntries | go/pkg/lsm/skiplist.go:200-216 | returns the contents, ascending |
| SkipList.Memtable.Size | go/pkg/lsm/skiplist.go:219-223 | the sum over all nodes of key length, value length, eight times the height and 32 |
| SkipList.Memtable.Count | go/pkg/lsm/skiplist.go:226-230 | the number of distinct keys, tombstones included |
| Compaction.StableSortIsStable | go/pkg/lsm/compaction.go:62-67 | the sort yields a sorted permutation that keeps equal records in their order |
| Compaction.StableSortIsOnly | go/pkg/lsm/compaction.go:62-67 | and every other sort that does so returns the same list, so the merge does not depend on how the library sorts |
| Compaction.FirstIsNewest | go/pkg/lsm/compaction.go:61-79 | in any stable sort the first record of a key is its newest, and the earliest of those with that timestamp |
| Compaction.DedupeAscends | go/pkg/lsm/compaction.go:70-88 | deduplicated records have strictly ascending keys |
| Compaction.FindDedupe | go/pkg/lsm/compaction.go:70-88 | for each key exactly the first record is kept, or nothing if that is a tombstone at the bottom |
| Compaction.MergeKeepsNewest | go/pkg/lsm/compaction.go:47-88 | the merge ascends, and holds for each key exactly the input record with the greatest timestamp, unless that is a tombstone and the level is the bottom; above the bottom it keeps tombstones |
| Compaction.NewestExact | go/pkg/lsm/compaction.go:61-79 | the merge keeps a record of a key if and only if every other one of the key is older, or as old and gathered behind a copy of it |
| Compaction.NewestFirstExact | go/pkg/lsm/engine.go:209-222 | so for any inputs and timestamps newest-to-oldest lookup and the merge pick the same record if and only if every other input record of the key is older in that sense |
| Compaction.MergeExact | go/pkg/lsm/compaction.go:39-112 | and the output answers as the inputs did if and only if that holds or both records are deletions that the merge drops |
| Compaction.MergeAgreesWithLayers | go/pkg/lsm/compaction.go:39-112 | when timestamps grow with table age, lookup in the output is newest-to-oldest lookup over the inputs |
| Compaction.EqualTimestampsResurrect | go/pkg/lsm/compaction.go:62-79 | two tables with one timestamp for a key: the layers answer the newer record, the merge keeps the older |
| Compaction.SliceStable | go/pkg/lsm/compaction.go:62-67 | a stable sort by key and descending timestamp |
| Compaction.DedupeLoop | go/pkg/lsm/compaction.go:70-88 | the loop with its last key computes the deduplication |
| Compaction.MergeSSTables | go/pkg/lsm/compaction.go:39-112 | over real table files: nothing if a scan fails or nothing is left, and otherwise the file of the merge of the scanned entries |
| EngineModel.LocateWrite | go/pkg/lsm/engine.go:132-170 | a write answers its key and changes no other |
| EngineModel.LocateRotate | go/pkg/lsm/engine.go:173-183 | a rotation changes no lookup, whether or not the queue has room |
| EngineModel.LocateFlush | go/pkg/lsm/engine.go:291-301 | installing the oldest pending flush changes no lookup |
| EngineModel.LocateInstalled | go/pkg/lsm/engine.go:343-347 | after any install, whatever the timestamps, a key that memory does not answer is answered by the old level 1, and otherwise by the snapshot's record with the greatest timestamp if that is live and in range |
| EngineModel.LocateCompaction | go/pkg/lsm/engine.go:343-347 | in a trace that record is the one with which the snapshot's newest table answers |
| EngineModel.InRangeExact | go/pkg/lsm/engine.go:226 | a record of a table passes the range test if and only if its key is not empty or it stands alone |
| EngineModel.NextKeepsInv | go/pkg/lsm/engine.go:132-350 | every step, orderly or not, keeps the order of ages, the queue within memory, all records from the history, and the log a suffix of it |
| EngineModel.TracesKeepInv | go/pkg/lsm/engine.go:132-350 | so this holds at every point of every trace |
| EngineRuns.SafeIsHarmless | go/pkg/lsm/engine.go:132-350 | under the hypotheses every step is harmless |
| EngineRuns.RunsAreCorrect | go/pkg/lsm/engine.go:132-350 | over every interleaving of writes, rotations, two-phase flushes and two-phase compactions under the hypotheses, each lookup returns exactly the last value put for the key, and nothing if it was deleted or never written |
| EngineRuns.StaleRead | go/pkg/lsm/engine.go:332-347 | a run from the empty engine that compacts a key twice, right until the second install, after which the older value is read |
| EngineRuns.LateFlushLost | go/pkg/lsm/engine.go:324-345 | a run with a flush between a compaction's snapshot and its install, after which the flushed key is gone |
| EngineRuns.SkippedMemtableHides | go/pkg/lsm/engine.go:178-182 | a run whose seventeenth rotation meets a full queue, after which a flushed newer value is hidden by it |
| EngineRuns.EmptyKeyUnread | go/pkg/lsm/engine.go:226 | a run that compacts an empty key, which is then not found |
| EngineLimits.FlushExact | go/pkg/lsm/engine.go:291-301 | installing any flush, in whatever order, keeps correctness if and only if wherever both the flushed memtable and an older one still in memory would answer a key, both answers are deletions |
| EngineLimits.InstallExact | go/pkg/lsm/engine.go:317-347 | installing any compaction of any earlier snapshot keeps correctness if and only if for every key memory does not answer: if level 0 does, level 1 does not and the snapshot's live newest record is the same; if neither does, the snapshot has no live one |
| EngineLimits.NextExact | go/pkg/lsm/engine.go:132-350 | a step keeps every lookup equal to the last write if and only if it is not a harmful install |
| EngineLimits.TracesExact | go/pkg/lsm/engine.go:132-350 | a trace is right at every point if and only if every install in it is harmless |
| EngineLimits.RewrittenKeyGoesStale | go/pkg/lsm/engine.go:224-241 | a compaction whose snapshot answers a key that level 1 also holds makes the engine wrong |
| EngineLimits.RangeExact | go/pkg/lsm/engine.go:226 | the level 1 range test admits every key of a table exactly when its first key is not empty or stands alone |
| Engine.HandleAnswers | go/pkg/lsm/engine.go:209-241 | an open table file answers as the list it was written from |
| Engine.HandleScans | go/pkg/lsm/engine.go:332 | and scans to that list |
| Engine.OpenEngine | go/pkg/lsm/engine.go:55-128 | no engine exactly when recovery fails; otherwise, over any log and files, the replayed records in a real memtable and a reader for each file that opens, in order, with limits of 16 MiB and four tables where none are given; valid, in the reopened state, whenever the log ends with a whole frame and the files that open are tables the engine wrote |
| Engine.LoadTables | go/pkg/lsm/engine.go:111-129 | of any files, exactly those that open join level 0, in order, with the metadata their readers report |
| Engine.OpenedHold | go/pkg/lsm/engine.go:111-129 | the readers of files that the engine wrote hold the tables they were written from |
| Engine.FilesReopen | go/pkg/lsm/engine.go:111-129 | so the engine opened over them answers as the state that Recovery reopens from those tables |
| Engine.WholeLogReopens | go/pkg/lsm/engine.go:85-96 | a log of whole frames recovers to records of which it is the log |
| Engine.Engine.constructor | go/pkg/lsm/engine.go:73-83 | the fields over a replayed memtable and loaded tables |
| Engine.Engine.RotateMemtable | go/pkg/lsm/engine.go:173-183 | takes the machine's rotation; the memtable joins the queue if fewer than 16 wait there |
| Engine.Engine.Put | go/pkg/lsm/engine.go:132-151 | appends the record's frame to the log, updates the skip list, and rotates if and only if the footprint of the memtable after the write has reached the limit: the machine's write step |
| Engine.Engine.Delete | go/pkg/lsm/engine.go:154-170 | the same for a tombstone |
| EngineSizes.RotatesAtLimit | go/pkg/lsm/engine.go:146-167 | over any run of writes and any positive limit, the active memtable is below the limit after every write, and every rotated one had reached it |
| EngineSizes.WritesAreSplit | go/pkg/lsm/engine.go:132-183 | the writes are cut into consecutive parts, one for each rotated memtable and one for the active: each memtable holds what its part left, and the last write of a rotated one is the one that took it to the limit |
| Engine.Engine.Get | go/pkg/lsm/engine.go:186-244 | through memtable, rotated memtables, level 0 and level 1 files: exactly the machine's answer, so the last write in every correct state |
| Engine.Engine.TakeFlush | go/pkg/lsm/engine.go:254-255 | the worker takes the oldest queued memtable |
| Engine.Engine.BuildTable | go/pkg/lsm/engine.go:261-289 | the file written from a memtable opens to a handle that answers as it |
| Engine.Engine.InstallFlush | go/pkg/lsm/engine.go:291-309 | the machine's install step: the table joins level 0, the memtable leaves the list, the log is emptied exactly when no rotated memtable is left; a compaction is due if and only if level 0 has then reached its limit |
| Engine.Engine.SnapshotL0 | go/pkg/lsm/engine.go:317-326 | nothing below two tables, and otherwise the snapshot step |
| Engine.Engine.MergeTables | go/pkg/lsm/engine.go:328-341 | merging the snapshot's files gives a handle to the merge of the lists they hold |
| Engine.Engine.InstallCompaction | go/pkg/lsm/engine.go:343-347 | the machine's install step: level 0 is emptied and the table joins level 1, and without a table nothing changes |
| Recovery.LogIsHistory | go/pkg/lsm/engine.go:132-170 | until the first reset the log is the frames of all writes, in order |
| Recovery.FilesFromHistory | go/pkg/lsm/engine.go:111-129 | every table file the engine has written so far, installed, replaced or not yet installed, holds written records only |
| Recovery.CrashBeforeReset | go/pkg/lsm/engine.go:85-128 | then a crash anywhere within the last frame reopens to exactly the fully framed writes, whichever such files are found |
| Recovery.ReopenedExact | go/pkg/lsm/engine.go:85-128 | a reopened engine answers a key by its last write exactly unless that was a live empty value, which the log cannot tell from a deletion |
| Recovery.CrashWithAnyFiles | go/pkg/lsm/engine.go:85-128 | for any table files in any order and any key answered right, whatever has become of the others: a logged key is kept exactly unless its last logged record is a live empty value, and any other exactly if the last loaded file that has it answers as memory and levels did |
| Recovery.CrashExact | go/pkg/lsm/engine.go:85-128 | at any point of any trace, whatever was reset, flushed or compacted: recovery succeeds, and the engine reopened from the log and the installed files in name order answers a key that was answered right so again if and only if the log has it and its last logged record is not a live empty value, or it does not and memory has nothing to lose and level 1 nothing older to bring forward |
| Recovery.ResetLosesWrite | go/pkg/lsm/engine.go:303-306 | a run in which the reset drops the active memtable's record from the log, and reopening loses it |
| Recovery.ReopenReadsLevel1 | go/pkg/lsm/engine.go:117-126 | a run after which reopening answers with an older level 1 record, since that file loads last |
| Recovery.OnlyEntriesCount | go/pkg/lsm/engine.go:111-129 | a reopened engine answers by the entries of its tables alone, not by the key ranges their readers report |
| Recovery.ReplayLog | go/pkg/lsm/engine.go:90-96 | replaying recovered records into a skip list holds the last one of each key |
| EngineLives.LivesKeepInv | go/pkg/lsm/engine.go:54-350 | through all steps and crashes: lists ascend, what waits for a flush is in memory, level 1 is live, and the log is a suffix of the history but for empty values |
| EngineLives.FlushExact | go/pkg/lsm/engine.go:291-301 | there too a flush keeps every lookup right if and only if wherever the flushed memtable and an older one would both answer a key they answer alike |
| EngineLives.InstallExact | go/pkg/lsm/engine.go:317-347 | and a compaction if and only if each key that level 0 answers is answered alike by level 1, or, if that lacks it, by the snapshot's record with the greatest timestamp, and no other comes back |
| EngineLives.CrashExact | go/pkg/lsm/engine.go:54-129 | and a crash, with any table files, if and only if each logged key was not last written with a live empty value, and each other is answered alike by the last file that has it |
| EngineLives.LivesExact | go/pkg/lsm/engine.go:54-350 | a directory is right at every point of any number of lives if and only if each flush, compaction and crash in them is so |
| EngineLives.LostValueReturns | go/pkg/lsm/engine.go:85-129 | a life in which an empty value is gone after a crash, its deletion in the log tying with the file that has it, and is back after a compaction |
| TableFiles.NeverOverwritesExact | go/pkg/lsm/engine.go:267-328 | no later flush or compaction, however many, writes over a file if and only if no file number is above the counter |
| TableFiles.OpenedExact | go/pkg/lsm/engine.go:111-129 | for an engine that has just opened, if and only if none is above the number of files |
| TableFiles.NumbersAreTaken | go/pkg/lsm/engine.go:267-328 | every flush and every compaction of a run takes a number of its own, those that write nothing too, and every new file has one of these |
| TableFiles.RestartLosesTables | go/pkg/lsm/engine.go:328-349 | a run that leaves one file, after which the reopened engine's first compaction overwrites its own input, and its cleaning removes it |
| SimStore.SortedDistinct | src/engine/storageEngine.ts:193-200 | the sorted memtable is ascending and answers as the memtable |
| SimStore.FindFirstLive | src/engine/storageEngine.ts:231-240 | the loop with its seen set keeps each key's first record, or nothing if that is a tombstone |
| SimStore.MergedExact | src/engine/storageEngine.ts:218-240 | the merge holds for each key the newest record of level 0, if it is live |
| SimStore.CompactExact | src/engine/storageEngine.ts:212-246 | a compaction keeps correctness if and only if it is faithful to every key it takes from level 0 |
| SimStore.AlikeExact | src/engine/storageEngine.ts:225-240 | that means: if level 1 has the key, its record answers as level 0's does; if not, no level 0 record of the key is later than the one that answers, or both are deletions |
| SimStore.FlushExact | src/engine/storageEngine.ts:190-210 | a flush with the compaction it may cause keeps correctness if and only if that compaction does |
| SimStore.ApplyExact | src/engine/storageEngine.ts:30-246 | every public operation keeps the bounds, and, whatever the timestamps, correctness if and only if the compaction in its cascade is faithful |
| SimStore.RunsKeepShape | src/engine/storageEngine.ts:30-246 | after each operation of any run at most 7 keys are in memory and 2 tables in level 0 |
| SimStore.RunsExact | src/engine/storageEngine.ts:30-246 | a run is right after every operation if and only if each compaction in it is faithful |
| SimStore.FaithfulExact | src/engine/storageEngine.ts:225-240 | when timestamps grow, a compaction is faithful if and only if level 1 has none of its keys |
| SimStore.RunsAreCorrect | src/engine/storageEngine.ts:30-246 | over runs with growing timestamps that compact no key level 1 has, get is the map of last writes after every operation |
| SimStore.Level1Conflict | src/engine/storageEngine.ts:171-246 | a run that compacts a key twice, right until the second compaction, after which the older value is read |
| SimStore.FallingClock | src/engine/storageEngine.ts:225-240 | a run whose clock falls between two puts of a key, after which the compaction keeps the older |
| SimLaws.WriteEffect | src/engine/storageEngine.ts:30-137 | a put or delete that leaves at most seven keys in memory changes only the memtable; with the eighth key the memtable becomes a table of level 0, and the third table there makes one of level 1 |
| SimLaws.FlushEffect | src/engine/storageEngine.ts:190-210 | a flush makes the memtable, sorted, the newest table of level 0, and with the third table there starts a compaction; an empty memtable changes nothing |
| SimLaws.CompactEffect | src/engine/storageEngine.ts:212-246 | a compaction of two tables or more empties level 0 and puts a table of each key's newest live record behind those of level 1, or none if nothing is live |
| SimLaws.SetKeyPlace | src/engine/storageEngine.ts:76-78 | a key written again keeps its place in the memtable, and a new one comes last |
| SimEngine.SimulatedLsmEngine.constructor | src/engine/storageEngine.ts:13-19 | the store after a put of each initial record, in order |
| SimEngine.SimulatedLsmEngine.Put | src/engine/storageEngine.ts:30-86 | the store's write, with its cascade, and one more log frame |
| SimEngine.SimulatedLsmEngine.Delete | src/engine/storageEngine.ts:88-137 | the same for a tombstone |
| SimEngine.SimulatedLsmEngine.AppendFrame | src/engine/storageEngine.ts:71-73 | frames are kept newest first, at most 50, each starting where the one before it ended, with the checksum of its payload |
| SimEngine.SimulatedLsmEngine.Get | src/engine/storageEngine.ts:139-188 | the store's answer, through bits, ranges and blocks |
| SimEngine.SimulatedLsmEngine.RotateAndFlush | src/engine/storageEngine.ts:190-210 | the store's flush |
| SimEngine.SimulatedLsmEngine.TriggerCompaction | src/engine/storageEngine.ts:212-246 | the store's compaction |
| SimEngine.SimulatedLsmEngine.CreateSSTable | src/engine/storageEngine.ts:248-305 | a table of the entries whose blocks of three tile it and whose set bits are exactly those of its keys |
| SimEngine.SimulatedLsmEngine.SetBits | src/engine/storageEngine.ts:255-267 | exactly the bits chosen by the keys are set, so every key is covered |
| SimEngine.SimulatedLsmEngine.CheckBloomFilter | src/engine/storageEngine.ts:307-320 | true exactly when the four bits of the key are set |
| SimEngine.SkippedTable | src/engine/storageEngine.ts:157-174 | a table skipped by its bits or its range does not hold the key |
| SimLaws.TableNumbers | src/engine/storageEngine.ts:248-305 | a table by its numbers: bit b of 64 is set exactly if one of four hash values of some key is b; blocks of three, one behind the other, with the length of their records and 15 bytes for each; the file size is that of all records and 104 more |
| SimLaws.FramesShown | src/engine/storageEngine.ts:71-72 | a new frame comes to the front, and only the fifty-first falls off |
| SimLaws.FrameShown | src/engine/storageEngine.ts:49-69 | a frame is shown with the checksum that stands before its bytes in the log |
| Quorum.MajoritiesMeet | go/pkg/raft/node.go:205-206 | two majorities of one member set share a member |
| Cluster.LogsGrow | src/engine/clusterSimulator.ts:268-277 | no operation removes or changes a log entry |
| Cluster.AckedOnMajority | src/engine/clusterSimulator.ts:247-312 | a write reported successful is in the logs of a majority |
| Cluster.AckedStaysOnMajority | src/engine/clusterSimulator.ts:247-393 | in every run of queries, elections, failures and rejoins it stays there for ever |
| Cluster.MajorityRemembers | src/engine/clusterSimulator.ts:247-393 | so every majority of nodes, at any later time, contains one that holds it |
| Cluster.TickElects | src/engine/clusterSimulator.ts:110-125 | an election gives the shard a live leader and strictly raises the term of every live node |
| Cluster.TickAgrees | src/engine/clusterSimulator.ts:110-125 | an election keeps agreement and loses no entry from the live logs |
| Cluster.ApplyAgrees | src/engine/clusterSimulator.ts:104-393 | no operation that brings no node back breaks agreement, and an acknowledged write is then in every live log |
| Cluster.InitAgrees | src/engine/clusterSimulator.ts:29-102 | the initial shard agrees and has one leader |
| Cluster.OneLeaderExact | src/engine/clusterSimulator.ts:110-125 | an operation keeps at most one live leader, the shard's own, if and only if it brings back no node that still holds itself to be leader |
| Cluster.OneLeaderRuns | src/engine/clusterSimulator.ts:104-393 | a run has at most one live leader throughout if and only if none of its operations does |
| Cluster.LeadersDifferExact | src/engine/clusterSimulator.ts:104-393 | an operation keeps live leaders in different terms if and only if it brings back no node that holds itself to be leader in a live leader's term |
| Cluster.LeadersDifferRuns | src/engine/clusterSimulator.ts:104-393 | a run keeps them so throughout if and only if none of its operations does |
| Cluster.ApplyKeepsOneLeader | src/engine/clusterSimulator.ts:112-124 | no operation without a return makes a second live leader |
| Cluster.FreshTermExact | src/engine/clusterSimulator.ts:112-115 | an election's term is above every term in the shard if and only if the candidate's was not below any |
| Cluster.FailStopAgreement | src/engine/clusterSimulator.ts:104-327 | in every run without returns all live nodes have the same log with index equal to position, the same term, commit index and applied commands, at most one of them leads, and every acknowledged write is in every live log |
| Cluster.NoCatchUp | src/engine/clusterSimulator.ts:268-277 | two live nodes' logs stay as far apart in length as they were |
| Cluster.RejoinExact | src/engine/clusterSimulator.ts:365-393 | a return from a failure or a partition keeps agreement exactly when the node is where the live ones are |
| Cluster.ReturnExact | src/engine/clusterSimulator.ts:365-393 | after any fail-stop run, a node that failed or was partitioned off from an agreeing shard can return without breaking agreement if and only if no write found a leader and no election was held meanwhile |
| Cluster.LeadersShareTerm | src/engine/clusterSimulator.ts:112-124 | a run of six operations after which two live nodes are leader in one term |
| ClusterLaws.InitialShard | src/engine/clusterSimulator.ts:43-102 | the initial nodes by their fields: the first leads, all can be reached and hold the two entries "cluster:init" and "sys:epoch", committed and applied |
| ClusterLaws.AcknowledgedExact | src/engine/clusterSimulator.ts:167-312 | a query is acknowledged if and only if the shard's leader and a majority of its nodes can be reached, and the entry then has the query's command, key and value, the leader's term and the next index of its log |
| ClusterLaws.AckedAreQueries | src/engine/clusterSimulator.ts:247-362 | the acknowledged entries of any run are exactly its queries that met such a shard, in order, field by field |
| ClusterLaws.QueryEffect | src/engine/clusterSimulator.ts:247-327 | what a query leaves of every node: an unreachable one as it was, a reachable one with the entry, committed, applied and handed to its store exactly as the majority and the value decide |
| ClusterLaws.HeartbeatEffect | src/engine/clusterSimulator.ts:106-127 | a heartbeat holds an election exactly when the shard's leader cannot be reached and two nodes can; the first of them then leads in the term behind its own and the others follow in it |
| ClusterLaws.HeartbeatInVain | src/engine/clusterSimulator.ts:106-127 | with no node to be reached it changes nothing |
| ClusterLaws.SwitchEffect | src/engine/clusterSimulator.ts:365-393 | a toggle turns one switch of one node, and nothing for an unknown number |
| ClusterLaws.LeaderLostExact | src/engine/clusterSimulator.ts:365-393 | an operation takes the shard's leader from it if and only if it fails that node or partitions it off, and gives it another only in an election |
| ClusterLaws.NoWriteBeforeElection | src/engine/clusterSimulator.ts:104-393 | after that, whatever fails and returns, no write is acknowledged and no log grows until a heartbeat has held an election |
| ClusterReads.AppliedIsAcknowledged | src/engine/clusterSimulator.ts:315-327 | in a run without returns a node live at its end has applied exactly the acknowledged writes, in order, but for puts without a value or with an empty one |
| ClusterReads.LeaderReadsEntries | src/engine/clusterSimulator.ts:209-245 | GET at the leader, if its store's compactions are faithful, answers a key with its last acknowledged entry if and only if that reached the stores |
| ClusterReads.LeaderReads | src/engine/clusterSimulator.ts:209-327 | and GET at the leader, if its store's compactions are faithful, answers a key by the run's last acknowledged PUT or DELETE query on it if and only if that query reached the stores, and otherwise by the last that did, or the initial data |
| ClusterSim.NodeState.constructor | src/engine/clusterSimulator.ts:61-102 | a node with the two initial entries, committed and applied |
| ClusterSim.ShardState.constructor | src/engine/clusterSimulator.ts:43-58 | the initial shard |
| ClusterSim.ShardState.FindLeader | src/engine/clusterSimulator.ts:167 | a node exactly when the leader's id names a reachable one |
| ClusterSim.ShardState.ExecuteWrite | src/engine/clusterSimulator.ts:247-362 | the protocol's write on the node objects, with success exactly when it is acknowledged; ClusterLaws.AcknowledgedExact and QueryEffect say what that is |
| ClusterSim.ShardState.Replicate | src/engine/clusterSimulator.ts:268-277 | every reachable node gets the entry, and the acknowledgements are counted |
| ClusterSim.ShardState.Commit | src/engine/clusterSimulator.ts:315-327 | every reachable node commits and applies |
| ClusterSim.ShardState.HeartbeatTick | src/engine/clusterSimulator.ts:106-127 | the protocol's election (ClusterLaws.HeartbeatEffect) |
| ClusterSim.ShardState.ToggleNodeHealth | src/engine/clusterSimulator.ts:365-378 | the protocol's failure or recovery of a node, and nothing for an unknown id; ClusterLaws.LeaderLostExact says when the shard loses its leader |
| ClusterSim.ShardState.ToggleNodePartition | src/engine/clusterSimulator.ts:380-393 | the same for partitions |
| RaftLog.ReplicatedLog.Append | go/pkg/raft/log.go:32-36 | appends the entries |
| RaftLog.ReplicatedLog.TruncateFrom | go/pkg/raft/log.go:39-45 | keeps the entries before the index, and an indexed log stays one exactly when the index is not 0 |
| RaftLog.ReplicatedLog.GetEntry | go/pkg/raft/log.go:48-55 | found exactly below the length; in an indexed log the entry found carries its index |
| RaftLog.ReplicatedLog.GetEntriesFrom | go/pkg/raft/log.go:58-67 | what the log holds behind the entries before the index |
| RaftLog.ReplicatedLog.LastLogInfo | go/pkg/raft/log.go:70-75 | in an indexed log the last index and the greatest term; no result for an empty slice |
| RaftLog.ReplicatedLog.LastIndex | go/pkg/raft/log.go:78-82 | the last index, wrapping for an empty slice |
| RaftLog.ReplicatedLog.EntriesSnapshot | go/pkg/raft/log.go:85-91 | all entries |
| RaftLog.AppendKeepsIndexed | go/pkg/raft/node.go:179-184 | a log stays indexed with terms that never decrease exactly when the entry's index is its length and its term is not below the last |
| RaftNode.TallyOne | go/pkg/raft/node.go:216-226 | counting an awaited peer keeps the counter one more than the number of distinct peers counted |
| RaftNode.TimeoutKeepsInv | go/pkg/raft/node.go:194-211 | starting an election keeps the node's invariant |
| RaftNode.VoteKeepsInv | go/pkg/raft/node.go:216-226 | so does an answer to any election, current or past |
| RaftNode.ProposeKeepsInv | go/pkg/raft/node.go:171-188 | so does a proposal |
| RaftNode.AdvanceKeepsInv | go/pkg/raft/node.go:305-310 | so does advancing the commit index |
| RaftNode.SendKeepsInv | go/pkg/raft/node.go:312 | so does passing an entry to the apply channel |
| RaftNode.RecordKeepsInv | go/pkg/raft/node.go:329-331 | so does setting lastApplied, which never passes the commit index |
| RaftNode.RunsKeepInv | go/pkg/raft/node.go:146-334 | so does every interleaving of all steps |
| RaftNode.LogIsOrdered | go/pkg/raft/node.go:179-184 | in every run entry i has index i, terms in the log never decrease nor exceed the current term, and lastApplied is at most the commit index, which is at most the last index |
| RaftNode.StepIsMonotone | go/pkg/raft/node.go:264-313 | the log and what was applied only grow, commit index and term never fall, answers stay, and a leader stays leader of its term |
| RaftNode.RepliesAreTrue | go/pkg/raft/node.go:264-334 | in every run a success reply means committed, held by a majority and taken by the apply worker exactly once; an error reply means no majority, and never taken |
| RaftNode.LeaderWasElected | go/pkg/raft/node.go:194-243 | in every run a leader has counted a majority, with itself, in the election of its current term |
| RaftNode.NoneFailedExact | go/pkg/raft/node.go:264-310 | a step keeps every failed write above the commit index if and only if it neither commits past one nor fails one the commit index has passed |
| RaftNode.NoneFailedRuns | go/pkg/raft/node.go:264-310 | a run keeps them above throughout if and only if all its steps do |
| RaftNode.SendInOrderExact | go/pkg/raft/node.go:312 | sending keeps the pipeline in log order if and only if no later entry was sent before |
| RaftNode.LogOrderExact | go/pkg/raft/node.go:146-334 | a step keeps what was taken and what waits in log order if and only if it sends no entry behind a later one |
| RaftNode.LogOrderRuns | go/pkg/raft/node.go:146-334 | so a run applies entries in log order throughout if and only if none of its steps does |
| RaftNode.OneAtATimeInOrder | go/pkg/raft/node.go:171-188 | that is the case, in every run, if each proposal waits for the answer to the one before |
| RaftNode.StepInOrder | go/pkg/raft/node.go:316-334 | and then lastApplied never falls |
| RaftLaws.ProposalsAreLogged | go/pkg/raft/node.go:171-188 | in every run the k-th proposal that met a leader is entry k + 1 of the log and of replication k, with its command, key and value and the term of that leader |
| RaftLaws.RequestsAreAnswered | go/pkg/raft/node.go:171-334 | so a success reply to it means that it is committed on a majority, and that exactly one entry with its index is taken for storage, asking for the put or delete that was proposed; an error reply means that none is |
| RaftLaws.TakeAsks | go/pkg/raft/node.go:321-328 | each entry taken asks storage for its put or its delete, behind what was asked before, and for nothing if it is neither |
| RaftLaws.OthersAskNothing | go/pkg/raft/node.go:146-334 | and no other step asks it anything |
| RaftLaws.StartEffect | go/pkg/raft/node.go:70-110 | the initial node by its fields |
| RaftLaws.AckEffect | go/pkg/raft/node.go:274-284 | an acknowledgement is counted for the peer it comes from, and a refusal is not |
| RaftLaws.CountedAnswered | go/pkg/raft/node.go:214-284 | in every run whoever is counted for a proposal has acknowledged it, and whoever is counted as a voter has granted the vote |
| RaftLaws.TimeoutEffect | go/pkg/raft/node.go:154-211 | the election timer by its fields: a node that neither leads nor is paused stands in the next term, and leads at once exactly if it is alone |
| RaftLaws.VoteEffect | go/pkg/raft/node.go:216-226 | a grant counts exactly for the candidate of its term, and more than half of all members make it leader |
| RaftLaws.LeadingEffect | go/pkg/raft/node.go:232-243 | a new leader names itself so, with every peer's next index behind the last entry |
| RaftLaws.LeaderKeepsPeers | go/pkg/raft/node.go:171-313 | and keeps those records while it leads |
| RaftLaws.PausedKeepsTerm | go/pkg/raft/node.go:154-160 | a paused node stays in its term and starts no election until it is resumed |
| RaftLaws.QuorumTestEffect | go/pkg/raft/node.go:288-302 | what the two looks at the counter decide, by more than half of all members |
| RaftLaws.CommitEffect | go/pkg/raft/node.go:305-310 | the commit index rises to the entry if it is below it |
| RaftLaws.SendEffect | go/pkg/raft/node.go:312 | the entry goes to the channel exactly while fewer than 256 wait there |
| RaftLaws.WorkerEffect | go/pkg/raft/node.go:316-334 | the worker takes the oldest entry, one at a time, and records its index |
| RaftLimits.OverlappingPutsReorder | go/pkg/raft/node.go:188 | a run in which the second of two puts to one key is applied first, and lastApplied falls |
| RaftLimits.FailedBelowCommit | go/pkg/raft/node.go:300-310 | a run in which a write that was answered with an error lies below the commit index |
| RaftElection.AtMostOneLeader | go/pkg/raft/node.go:194-243 | if each member votes for at most one candidate in a term, itself included, no two nodes ever lead in one term, over all delays and orders and at different times |
| RaftElection.GrantedLeads | go/pkg/raft/node.go:216-226 | a node that every peer votes for comes to lead in its term |
| RaftElection.AlwaysGrantingExact | go/pkg/raft/node.go:253-256 | when every request is granted, some run has two leaders in one term if and only if there are two nodes |
| RaftDriver.Node.constructor | go/pkg/raft/node.go:70-110 | the initial node, with one record for each other member |
| RaftDriver.Node.BecomeLeader | go/pkg/raft/node.go:232-243 | the machine's leader, every peer's next index behind the last entry |
| RaftDriver.Node.StartElection | go/pkg/raft/node.go:194-211 | the machine's election, won at once by a node that is a quorum alone |
| RaftDriver.Node.CountVote | go/pkg/raft/node.go:216-226 | the machine's tally, which ignores grants for an earlier term or role |
| RaftDriver.Node.HandleProposal | go/pkg/raft/node.go:171-184 | a leader appends an entry of its term and the next index with the command, key and value proposed, and another node nothing; RaftLaws.ProposalsAreLogged carries that over runs |
| RaftDriver.Node.ReplicateAndCommit | go/pkg/raft/node.go:264-302 | commits exactly when a quorum with the node itself acknowledged, whenever the answers came; then the entry is sent and answered unless the apply channel is full, where both wait, and otherwise nothing changes |
| RaftDriver.GoroutineIsMethod | go/pkg/raft/node.go:264-302 | the method does what the machine's separate steps of one goroutine do when no other comes between: answers, quorum test, answers, quorum test, commit, send, reply, the last two waiting for room in the channel |
| RaftDriver.Node.CommitEntry | go/pkg/raft/node.go:305-313 | raises the commit index to the entry if it is below, and sends the entry exactly if the channel has room |
| RaftDriver.Node.ApplyNext | go/pkg/raft/node.go:321-331 | takes the oldest entry of the channel, asks storage for its put or its delete and for nothing else, and records its index |

## Left out

- Disk and operating system: file errors, fsync, handles, removal of compacted files but for their names, allocation failures for huge length fields, file sizes from 2^63 on, and overflow of the int64 size counter.
- Random heights, the two hash functions, the sizes of a Bloom filter and the clock are parameters; time.Now is assumed to grow from write to write, as Go's nanosecond clock need not.
- Bloom sizing and false-positive rate (go/pkg/lsm/bloom.go:28-41, 132-139): floating point.
- Goroutines, locks and the Go memory model: lock-protected regions, channel operations and reads of the `acks` counter are atomic steps.
- Nil and empty values are the same value.
- Engine.Engine.RotateMemtable: rotated memtables are kept as the ascending lists of their entries with a number for the pointer's identity; that their skip lists stay linked after rotation is not restated, because nothing writes to them.
- EngineRuns.RunsAreCorrect: assumes that rotation never meets a full queue, no flush installs between a compaction's snapshot and its install, compacted keys are not in level 1, and keys are not empty; EngineLimits.TracesExact says exactly what happens without.
- Recovery.CrashExact: compares with a reopening from the installed files, CrashWithAnyFiles from any. File numbers are taken to have at most six digits, so that names sort as numbers.
- EngineLives.LivesExact: a crash comes between two steps, so the log ends with a whole frame; Wal.TornTailSwallows, TornTailFilled and TornHeader say what a torn one does to later lives. Tables are values there, so an overwritten file (TableFiles) is not one of its events.
- Engine.OpenEngine: promises a valid engine only for a log that ends with a whole frame, and for table files that, if they open, the engine wrote; of a foreign file that opens it promises the reader, not what its lookups mean.
- Wal.CorruptionDetected: damage to the length fields is not covered, since it moves the end of the frame.
- Metrics, `Stats`, `Close`, and the scheduling of the flush worker and of the compactions that flushes start.
- Simulated engine: location strings, heights, hexadecimal dumps and file names; string lengths are taken in bytes, and `localeCompare` as bytewise order, the one the range test uses.
- SimStore.RunsAreCorrect: assumes growing timestamps and that compacted keys are not in level 1; RunsExact needs neither.
- Cluster simulator: latency, history, metrics, shard routing, timestamps in log entries; in Cluster and ClusterSim a node's engine is the list of commands applied to it, which ClusterReads joins to a store.
- Raft: the bodies of the remote calls are stubs, so their answers come from the environment; there are no receivers, hence no log matching and no step-down. Timers, heartbeats and contexts are left out, and terms are unbounded numbers.
- RaftDriver.Node.HandleProposal: assumes that the log's length fits 64 bits.
- RaftDriver.Node.ReplicateAndCommit: runs a goroutine at one go; steps of others between its own are those of RaftNode.
- ClusterReads.LeaderReads: takes initial data without empty values, as the simulator's is.
- ClusterSim.NodeState.constructor: leaves out the initial data of the node's engine; SimEngine.SimulatedLsmEngine.constructor and ClusterReads.LeaderReads have it.
- RaftElection.AtMostOneLeader: that voters grant once per term is an assumption about peers whose code is not part of this model.
- User interface, gRPC, Prometheus, command line, benchmarks, the shard router.
