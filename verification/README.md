# Models and proofs for the systems workspace

This project models the state-carrying parts of a Rust workspace in Dafny and proves what they are
for. `dafny verify dfyconfig.toml` checks everything; each file verifies with the others and needs
nothing else.

| component | files |
|---|---|
| `lsmkv`, a crash-safe LSM store | `Crc32` `Encoding` `Wal` `LogTail` `KeyOrder` `MemTable` `Levels` `SsTable` `TableErrors` `Disk` `Compaction` `Lsm` `LsmInvariant` `LsmRecovery` `LsmCrash` `LsmReads` `LsmRuns` `LsmReachable` `LsmThreshold` `LsmTornTail` `LsmDurability` `LsmRepair` `LsmExamples` `LsmDb` |
| `rudis`, an in-memory server | `Utf8` `Numerals` `Resp` `Keyspace` `Connection` `Replies` `Sessions` `CommandLaws` `RequestLaws` `Snapshot` `Tokens` |
| `logcrunch`, parallel log analysis | `LogStats` `LogReport` `Pipeline` `LogChunks` `LogAnalysis` |
| the row challenge | `Temperatures` `Stations` `StationFiles` |
| the Bloom filter | `WordBits` `Hashing` `Bloom` |
| shared | `Bytes` `Division` `Splitting` |

Code that updates objects and buffers in place is a class or a loop here too (`Db`, `MemTable`,
`Disk`, `Store`, `Connection`, `EventLoop`, `Accumulator`, `Bloom`); each such method is proved
equal to a function of the old state, and the theorems are about those functions. Where a Rust
panic depends on the data it is a `None`, `Panicked` or `Crashed` result.

**lsmkv.** The disk has, for every file, the bytes certainly on the device and the bytes readers
see, and a list of directory changes not yet synced. Each operation is a list of system calls; a
crash may fall before any of them and keep any prefix of unsynced bytes and of pending directory
changes. `Db` performs these calls one by one, and `LsmRuns` proves that every run of operations,
crashes and reopenings reads like a map, under two conditions on its crashes. `LsmReachable` says
what is left without them: every run at all keeps the counters ahead and can be reopened, and the
condition on logs alone keeps the levels in order and `get` and `scan` in agreement. `LsmThreshold`
says when a write flushes and bounds the memtable, and `TableErrors` says what happens on files of
any bytes.

**rudis.** The parser, the command interpreter and the connection buffers are composed into one
session, so chunked input and partial output are handled together. `Keyspace.Plain` is a timed map
with every reply written out, and `Sessions` proves that what a client is sent are that map's replies
to the requests it sent. `CommandLaws` and `RequestLaws` say what that means from one request to the
next. Time is a parameter.

**logcrunch and the row challenge.** The bounded-channel pipeline is a state machine over the steps
of its threads. Both splitters share one notion of newline-aligned tiling; merging is proved
independent of how a buffer was tiled. `LogAnalysis` and `StationFiles` state the results as numbers
of lines and rows of the input.

**Bloom filter.** Words are numbers with bitwise operations defined bit by bit, so the wrapping
64-bit arithmetic of the probe sequence is exact.

## What the code does differently from its comments

The model follows the code. Each point has a lemma in the table below; the first three also have
a run from an empty directory in `LsmExamples`.

- `Wal::open` appends without cutting a torn tail. Acknowledged writes that stay in the log survive
  exactly when the log has no such tail. A flush cut before the log reset leaves `get` and `scan` in
  agreement exactly when the memtable that the log replays to is stale over neither set of tables.
  Crash safety over many crashes is therefore proved for runs in which no write is at stake behind a
  torn tail, which a flush ends, and for all runs of a store that cuts the log.
- `Db::compact` unlinks its inputs newest first. That is safe exactly when no put is shadowed: no
  key that the tables read as deleted, and the memtable does not hold, has a put further down.
  Oldest first would always be safe, and with both repairs no condition on a run remains.
- A restart can reissue a sequence number after compaction dropped its record. What holds, in every
  state of every run, is that the next number is above everything still stored. With no write at
  stake behind a torn tail, the counter survives exactly when its last number does.
- `Db::open_with` never flushes. The flush threshold bounds the memtable once a write or a flush has
  completed, and a crash keeps the bound exactly when it cuts no write that reaches the threshold.
- `Resp::parse` slices out of range when a CRLF stands where a value should begin.
- The reply to an unknown command quotes its name. The replies of a session can be read back exactly
  when no command name holds a CRLF.
- `Bloom::from_bytes` accepts bit counts that no constructor produces.
- The row challenge ignores a last line without a newline, in both paths alike.

## Assumptions

- I/O succeeds or the process crashes. Unsynced bytes survive as a prefix, directory changes reach
  the device in order, truncation to zero is atomic, and the name `wal.log` is durable.
- Lengths and counters fit their u32 and u64 fields: `Room` states this for a store operation,
  `Storable` for a snapshot, `WellFormed` for a RESP value, `KeysFit` for the keys of a session.
  `usize` has 64 bits.
- Overflow wraps as in a build without overflow checks: `INCR`, `EX`, `EXPIRE` and the digits of a
  malformed temperature.
- A command reads the clock once. The clock never goes back.
- A `BTreeMap` is its key-sorted record list, a `HashMap` a map iterated in any order. The
  memory-mapped file is a byte sequence.

## Model

| member | source | states |
|---|---|---|
| `LsmRuns.RunRefinesMap` | 10-database-internals/src/db.rs:104-264 | After every run of put, delete, flush and compact, each completed or cut by a crash before any of its system calls and reopened, the store satisfies all invariants and reads like a map holding every acknowledged write, plus at most the one write each crash cut short; the crashes excluded are those behind a torn log tail and those inside an unlink loop with a shadowed put |
| `LsmDurability.AcknowledgedWritesSurviveIff` | 10-database-internals/src/wal.rs:42-144 | For every durable store: every acknowledged write that stays in the log is still there after any power failure, and leaves a durable store, if and only if the log it was appended to has no torn or corrupt tail |
| `LsmDurability.WriteIsLost` | 10-database-internals/src/wal.rs:42-144 | For every durable store over a log with such a tail, however short or long the tail, a put and a crash image that loses no byte are given after which the store does not read the put |
| `LogTail.AppendSurvivesIff` | 10-database-internals/src/wal.rs:62-144 | Over arbitrary log bytes: every record with the next sequence number is replayed once its frame is appended, if and only if the log has no torn or corrupt tail |
| `LogTail.LossPutIsLost` | 10-database-internals/src/wal.rs:103-144 | Behind any non-empty tail without a frame, the chosen put is not read back, whatever checksums happen to match |
| `LsmRepair.CutRunRefinesMap` | 10-database-internals/src/wal.rs:89-144 | If open cut the log to the replayed prefix, durability would hold over any number of crashes with no condition on torn tails; the condition on the unlink loop stays only while it runs newest first |
| `LsmRepair.RepairedRunRefinesMap` | 10-database-internals/src/db.rs:104-264 | With the log cut on open and inputs unlinked oldest first, every run that can happen, crashed anywhere any number of times, refines the map, without any condition |
| `LsmRepair.FreshOpened` | 10-database-internals/src/db.rs:104-141 | An empty directory opens into a store these two run theorems apply to, reading like the empty map |
| `LsmRepair.CutIsClean` | 10-database-internals/src/wal.rs:89-144 | Cutting a log to its replayed prefix keeps its replay and leaves no bad tail |
| `LsmRepair.OldestFirstCrashSafe` | 10-database-internals/src/db.rs:244-264 | Unlinking oldest first, every crash image of every point of a compaction recovers with the same reads, unconditionally |
| `LsmRuns.CrashRefinesMap` | 10-database-internals/src/db.rs:104-239 | A crash before any single system call of any operation, keeping any prefix of what was not synced: open succeeds, the recovered store is durable again, and it reads like the map before or after the operation; once the log frame was synced, after it |
| `LsmRuns.OperationRefinesMap` | 10-database-internals/src/db.rs:184-264 | Every completed operation does to the reads of the store what it does to a plain map, with or without the automatic flush |
| `LsmRuns.OperationKeepsOrder` | 10-database-internals/src/db.rs:184-264 | Every operation keeps the invariants of the open store (levels in sequence order, counters above everything stored, directory equal to the live tables), even when the log has a torn tail |
| `LsmRuns.OperationKeepsDurable` | 10-database-internals/src/wal.rs:76-87 | A flush makes the store independent of the log; a write keeps it recoverable provided the log has no torn tail |
| `LsmRuns.CrashFreeRunIsMap` | 10-database-internals/src/db.rs:184-264 | Without crashes the map in RunRefinesMap is forced: exactly the operations applied in order |
| `LsmReachable.CountersStayAhead` | 10-database-internals/src/db.rs:104-264 | In every state of every run that can happen, with crashes behind torn log tails and inside unlink loops over shadowed puts included: the next seq is above every stored seq, the next table id is above every table, and whatever crash comes next, open succeeds |
| `LsmReachable.ReadsAgreeAlongRuns` | 10-database-internals/src/db.rs:152-290 | In every state of every run whose crashes find no write at stake behind a torn log tail, crashes inside unlink loops over shadowed puts included: levels are in sequence order, two stored records with equal seq are the same record, and scan lists, in strictly ascending key order, exactly the pairs that get finds |
| `LsmReachable.RunKeepsOrder` | 10-database-internals/src/db.rs:104-264 | Every such run keeps all invariants of the open store and its directory |
| `LsmReachable.ScanListsMap` | 10-database-internals/src/db.rs:273-290 | After every run covered by RunRefinesMap, scan lists exactly a map holding all acknowledged writes |
| `LsmReachable.OperationKeepsShape` | 10-database-internals/src/db.rs:184-264 | Whatever the log holds and however stale the memtable is, every operation leaves a sorted memtable, readable tables, counters above everything stored and a directory equal to the live tables |
| `LsmReachable.CrashTables` | 10-database-internals/src/db.rs:104-264 | Every crash before any system call of any operation, from such a state, leaves a directory of readable tables |
| `LsmReachable.OrderedIsShaped` | 10-database-internals/src/db.rs:104-141 | Every state with the full invariants, such as the store opened on an empty directory, satisfies the weaker ones these runs start from |
| `LsmThreshold.MemtableStaysSmall` | 10-database-internals/src/db.rs:184-213 | In every state of every run, with any number of crashes, in which some put, delete or flush completed since the last crash: the memtable is empty or its byte estimate is below the flush threshold |
| `LsmThreshold.FreshStaysSmall` | 10-database-internals/src/db.rs:184-213 | The same for every state of every run without crashes from an empty directory |
| `LsmThreshold.WriteFlushesIff` | 10-database-internals/src/db.rs:306-311 | A write whose record leaves the byte estimate below the threshold keeps tables and next table id and its record in the memtable; any other leaves an empty memtable and exactly one new table, holding the memtable with the record |
| `LsmThreshold.WriteLogIff` | 10-database-internals/src/db.rs:184-239 | On disk the same write leaves the old log with its frame appended, or an empty log, by the same condition |
| `LsmThreshold.CrashKeepsSmallIff` | 10-database-internals/src/db.rs:104-141 | The bound can fail after a crash, since open never flushes: a durable store within the bound reopens within it from every crash image of every point of an operation, if and only if the operation is no write whose record brings the estimate to the threshold |
| `LsmThreshold.CutFlushReopensLarge` | 10-database-internals/src/db.rs:104-141 | Every such write, cut after its log sync, has a crash image that reopens with the whole memtable |
| `LsmThreshold.FootprintParts` | 10-database-internals/src/memtable.rs:82-91 | The byte estimate is additive, with key length, value length and 48 for each record |
| `LsmThreshold.CompactLeavesOne` | 10-database-internals/src/db.rs:244-264 | Compacting two or more tables leaves one table, under the next id, with the merged records, alone in the directory; fewer are left alone |
| `LsmReads.ScanMatchesGetIff` | 10-database-internals/src/db.rs:152-290 | For every store over tables in sequence order and any memtable: scan lists exactly what get finds if and only if the memtable has no key for which the first hit in the tables has another value and a seq that is not lower |
| `LsmReads.FlushReadsAgreeIff` | 10-database-internals/src/db.rs:225-239 | For every store in sequence order over any log: every crash image of every point of a flush reopens with get and scan in agreement, if and only if the memtable the log replays to is stale neither over the tables nor over the flushed memtable in front of them |
| `LsmReads.RecoveredReadsIff` | 10-database-internals/src/db.rs:104-141 | The same for what open makes of any log next to tables in sequence order |
| `LsmReads.ScanMatchesGet` | 10-database-internals/src/db.rs:266-290 | With all levels in sequence order that always holds: one takes the highest seq, the other the first hit |
| `LsmCrash.CrashWhileLogging` | 10-database-internals/src/db.rs:184-195 | Cut during append or fsync, a write either happened or did not; synced, it happened |
| `LsmCrash.CrashWhileFlushing` | 10-database-internals/src/db.rs:225-239 | Cut anywhere between the temporary file and the log reset, a flush changes no read, also when table and log both hold the records |
| `LsmCrash.CrashWhileCompacting` | 10-database-internals/src/db.rs:244-264 | Cut anywhere, a compaction changes no read, except inside the unlink loop when some put is shadowed by a tombstone |
| `LsmCrash.CompactionCrashSafeIff` | 10-database-internals/src/db.rs:244-264 | For every durable store: every crash image of every point of a compaction recovers with the same reads if and only if no put is shadowed as it starts |
| `LsmCrash.CompactionResurrects` | 10-database-internals/src/db.rs:254-261 | For every shadowed put a system call and a crash image are given after which its deleted key is back |
| `LsmExamples.DeletedKeyComesBack` | 10-database-internals/src/db.rs:244-264 | Such a state is reachable: from an empty directory put, flush, delete, flush, and a power failure inside compact bring any small key back with any flush threshold |
| `LsmExamples.AcknowledgedWriteVanishes` | 10-database-internals/src/wal.rs:42-52 | From an empty directory: a put torn behind its frame header, a reopen, a smaller put that is acknowledged and reads back, and a power failure that loses no byte leave that key absent |
| `LsmExamples.NumberIsReissued` | 10-database-internals/src/encoding.rs:22-25 | From an empty directory: put, flush, delete, flush, compact and a restart hand out number 1 again, against the documented "never reused" |
| `LsmExamples.CounterSurvivesIff` | 10-database-internals/src/db.rs:126-128 | After any power failure between operations, with no write at stake behind a torn tail, the counter continues if and only if its last number is still carried by some record on disk, or none was ever given |
| `LsmRecovery.RestartKeepsCounterIff` | 10-database-internals/src/db.rs:126-128 | The same for any log and tables |
| `LsmCrash.CompactedOk` | 10-database-internals/src/db.rs:244-264 | A completed compaction keeps every invariant, every read and the log |
| `LsmCrash.FlushedDurable` | 10-database-internals/src/db.rs:225-239 | A completed flush leaves an empty log and a store that recovers from its tables alone, whatever the log held |
| `LsmCrash.UnlinkImage` | 10-database-internals/src/db.rs:254-262 | A crash in the unlink loop finds the merged table in front of some suffix of the inputs |
| `LsmInvariant.CompactionPreservesReads` | 10-database-internals/src/compaction.rs:45-55 | Every read is unchanged with the tombstone-free merge in front of all its inputs and with the merge alone, for every memtable |
| `LsmInvariant.MergeKeeps` | 10-database-internals/src/compaction.rs:45-55 | The merge in front of any suffix of its inputs keeps per-key sequence order |
| `LsmInvariant.MergeInFront` | 10-database-internals/src/compaction.rs:45-55 | The same for any part of the inputs, kept in order |
| `LsmInvariant.InsertKeeps` | 10-database-internals/src/db.rs:184-195 | A write under the highest seq so far keeps per-key sequence order across all levels |
| `LsmInvariant.FlushKeeps` | 10-database-internals/src/db.rs:225-239 | Copying the memtable into a new first level keeps the order both before and after the memtable is cleared |
| `LsmInvariant.OldestFirstIsSafe` | 10-database-internals/src/db.rs:254-261 | Removing inputs oldest first would leave every read unchanged at every point of the loop |
| `LsmInvariant.UnlinkLoopSafeIff` | 10-database-internals/src/db.rs:254-261 | The code's newest-first loop preserves every read at all its crash points if and only if no put is shadowed, that is, stands in the tables under a key they read as deleted and the memtable does not hold |
| `LsmInvariant.NewestFirstResurrects` | 10-database-internals/src/db.rs:254-261 | For every shadowed put there is a crash point at which its deleted key reads as that old value |
| `LsmTornTail.AcknowledgedWriteLost` | 10-database-internals/src/wal.rs:42-52 | A crash that tears a frame behind its header, a reopen, and any one acknowledged write shorter than what the frame lacks: after the next crash the store reads like before the tear. The exact condition for survival is LsmDurability.AcknowledgedWritesSurviveIff |
| `LsmTornTail.StaleGetAfterTornFlush` | 10-database-internals/src/wal.rs:42-52 | One way to fail the condition of LsmReads.FlushReadsAgreeIff: behind the same tear a flush cut before the log reset makes get return the value of before the write while scan lists the value after it |
| `LsmExamples.GetGoesStale` | 10-database-internals/src/wal.rs:42-52 | That is reachable: from an empty directory one key written, torn, written again and flushed makes get return the first value and scan the last |
| `LsmTornTail.TearIsPossible` | 10-database-internals/src/wal.rs:62-74 | Every torn log used above is one a crash between append and sync can leave |
| `LsmRecovery.RecoverOpens` | 10-database-internals/src/db.rs:104-141 | Opening a directory of written tables succeeds and yields those tables, newest first, with the replayed memtable |
| `LsmRecovery.RecoveredOk` | 10-database-internals/src/db.rs:104-141 | Whatever is consistent on disk reopens into a store satisfying every invariant |
| `LsmRecovery.RecoveredSeqBound` | 10-database-internals/src/db.rs:126-128 | The restored counter is never above a strict bound on all stored numbers |
| `LsmRecovery.RecoveredNextId` | 10-database-internals/src/db.rs:116 | The next table id is one above the highest on disk, or 0 |
| `Disks.AnyPrefixIsPossible` | 10-database-internals/src/db.rs:225-239 | The crash model admits every prefix of unsynced log bytes together with every prefix of pending directory changes |
| `LsmDb.Db.Put` | 10-database-internals/src/db.rs:184-195 | The object ends in the state, and the disk in the state and call-by-call history, of the put: seq taken, frame appended, fsync, memtable, then a flush; afterwards the memtable is empty or its byte estimate is below the threshold, and it holds the record if the estimate with it was below |
| `LsmDb.Db.Delete` | 10-database-internals/src/db.rs:202-213 | The same for a tombstone, whose value adds nothing to the estimate |
| `LsmDb.Db.Commit` | 10-database-internals/src/db.rs:184-192 | Log append and fsync come before the memtable insert, which stores exactly the logged record |
| `LsmDb.Db.MaybeFlush` | 10-database-internals/src/db.rs:306-311 | Flushes if and only if the byte estimate has reached the threshold |
| `LsmDb.Db.Flush` | 10-database-internals/src/db.rs:225-239 | Temporary file, write, fsync, rename, directory fsync, then truncation and fsync of the log, in that order; an empty memtable does nothing |
| `LsmDb.Db.Compact` | 10-database-internals/src/db.rs:244-264 | Merged table written and durable, then every input unlinked newest first, then one directory sync; fewer than two tables do nothing |
| `LsmDb.Db.Get` | 10-database-internals/src/db.rs:152-170 | Over any readable tables, stale memtable or not: first-hit search equals the specified read, tombstones reading as absent, and no table read fails |
| `LsmDb.Db.Scan` | 10-database-internals/src/db.rs:273-290 | Over any readable tables, stale memtable or not: the keep-newest loop over tables and memtable gives the specified scan |
| `LsmDb.OpenWith` | 10-database-internals/src/db.rs:104-141 | Opening fails exactly when recovery does, hence never over readable tables; otherwise tables, memtable and both counters are the recovered ones, and the object is one every method accepts |
| `LsmDb.OpenAll` | 10-database-internals/src/db.rs:108-116 | Opening every table file in turn gives the specified table list or its first failure |
| `LsmDb.LogRecord` | 10-database-internals/src/wal.rs:62-87 | One append of the frame and one fsync, nothing else |
| `LsmDb.ResetLog` | 10-database-internals/src/wal.rs:153-163 | Truncation to zero followed by fsync |
| `LsmDb.WriteTable` | 10-database-internals/src/sstable.rs:100-150 | The five durable steps of writing a table, with the bytes of its image |
| `LsmDb.RemoveAll` | 10-database-internals/src/db.rs:254-262 | One unlink per input in order, then one directory sync |
| `Levels.ReadsAgree` | 10-database-internals/src/db.rs:152-170 | With per-key sequence order, the first hit from the newest level and the highest-seq record of the union are the same record of every key |
| `Levels.FirstHitIsNewest` | 10-database-internals/src/db.rs:152-170 | The first hit is stored, has the key, and every other stored record of the key has a lower seq |
| `Levels.NewestPerKeySummarises` | 10-database-internals/src/compaction.rs:57-73 | One record per key, sorted by key, each a highest-seq record of its key |
| `Levels.NewestPerKeyLoop` | 10-database-internals/src/compaction.rs:61-73 | The loop over the best map computes that summary |
| `Compaction.LookupDropTombstones` | 10-database-internals/src/compaction.rs:52-52 | Dropping tombstones keeps exactly the keys whose newest record is a put |
| `Compaction.MergeTables` | 10-database-internals/src/compaction.rs:45-55 | Reading and merging succeeds exactly when every table iterates, and then gives the tombstone-free newest records |
| `WalFormat.ReplayMonotone` | 10-database-internals/src/wal.rs:103-144 | For arbitrary bytes, the replay of a log is a prefix of the replay of any extension of it |
| `WalFormat.ReplayRecovers` | 10-database-internals/src/wal.rs:103-144 | Frames of any record list followed by any strict prefix of one more frame replay to exactly that list |
| `WalFormat.ReplayFrames` | 10-database-internals/src/wal.rs:62-74 | Replay over written frames gives their records and continues behind them |
| `WalFormat.ReplayBehindClean` | 10-database-internals/src/wal.rs:103-144 | Behind a log without a torn tail, replay simply continues with what follows |
| `WalFormat.TornFrameStops` | 10-database-internals/src/wal.rs:124-136 | A frame cut anywhere short of its end is not accepted when nothing follows it; cut behind its header, also not when fewer bytes follow than it lacks |
| `WalFormat.WritesBehindTornFrameAreLost` | 10-database-internals/src/wal.rs:124-136 | Complete frames appended behind a frame cut behind its header are never replayed while they are shorter than what that frame lacks; LogTail.AppendSurvivesIff decides the remaining tails |
| `WalFormat.DamagedFrameStops` | 10-database-internals/src/wal.rs:128-131 | A payload damaged inside four consecutive bytes stops replay exactly before its frame |
| `WalFormat.ReplayLog` | 10-database-internals/src/wal.rs:103-144 | The position-advancing loop computes the replay |
| `WalFormat.NextFrame` | 10-database-internals/src/wal.rs:120-141 | One turn of the loop accepts a frame exactly when header, length, checksum and record all fit |
| `WalFormat.BuildFrame` | 10-database-internals/src/wal.rs:62-74 | The buffer that append writes is the frame: checksum, length, encoding |
| `WalFormat.FrameLayout` | 10-database-internals/src/wal.rs:62-74 | A frame is checksum, little-endian length and encoding, in that order, both about the encoding |
| `Crc32.CrcIsPolynomialRemainder` | 10-database-internals/src/encoding.rs:155-191 | For every input the checksum is the remainder of the bit-reversed, complemented message polynomial times x^32 (section 8 of RFC 1952), complemented |
| `Crc32.Crc32` | 10-database-internals/src/encoding.rs:159-166 | The table-driven loop computes that checksum |
| `Crc32.BuildTable` | 10-database-internals/src/encoding.rs:173-191 | The table builder fills all 256 entries with the eight-step register of their index |
| `Crc32.TableStep` | 10-database-internals/src/encoding.rs:159-166 | Eight single-bit steps are one shift and one table look-up |
| `Crc32.PolyIsTheConstant` | 10-database-internals/src/encoding.rs:179-181 | The generator used in the proofs is the constant 0xEDB88320 |
| `Crc32.WindowDetected` | 10-database-internals/src/encoding.rs:155-166 | Messages of equal length that differ only inside four consecutive bytes never have the same checksum |
| `Crc32.BurstDetected` | 10-database-internals/src/encoding.rs:155-166 | The same for any run of 32 bits, not only aligned bytes |
| `Encoding.RoundTripIff` | 10-database-internals/src/encoding.rs:98-150 | A record survives encoding and decoding if and only if key and value lengths fit their u32 fields |
| `Encoding.RoundTrip` | 10-database-internals/src/encoding.rs:98-150 | Decoding an encoding followed by any bytes gives the record and exactly its length |
| `Encoding.DecodeIgnoresTail` | 10-database-internals/src/encoding.rs:123-150 | Appending bytes never changes what was decoded |
| `Encoding.DecodeRejectsShortTail` | 10-database-internals/src/encoding.rs:123-150 | Every strict prefix of an encoding decodes to None |
| `Encoding.DecodeIsCanonical` | 10-database-internals/src/encoding.rs:123-150 | Bytes that decode as a put are exactly that put's encoding |
| `Encoding.EncodeRecord` | 10-database-internals/src/encoding.rs:98-112 | The push sequence builds the wire image |
| `Encoding.DecodeRecord` | 10-database-internals/src/encoding.rs:123-150 | The position-advancing decoder with its length checks equals the specified decoding |
| `Encoding.RecordLayout` | 10-database-internals/src/encoding.rs:98-112 | Every field of an encoding stands where the format says, read back as a little-endian number or the bytes themselves |
| `Encoding.ForeignKind` | 10-database-internals/src/encoding.rs:123-150 | A kind byte other than 0 and 1 is rejected |
| `SsTables.OpenWritten` | 10-database-internals/src/sstable.rs:100-212 | Opening the image of any sorted record list recovers its index, data length and highest seq |
| `SsTables.IterWritten` | 10-database-internals/src/sstable.rs:255-269 | Iterating the opened image gives back every record in key order |
| `SsTables.GetWritten` | 10-database-internals/src/sstable.rs:224-246 | Look-up through the index equals linear look-up in the records, for every key, present or not |
| `SsTables.IndexPointsAt` | 10-database-internals/src/sstable.rs:100-150 | Every index slot locates the encoding of its own record |
| `SsTables.IndexOfSorted` | 10-database-internals/src/sstable.rs:100-150 | The index of a sorted record list is sorted, as binary search needs |
| `SsTables.MaxSeqBounds` | 10-database-internals/src/sstable.rs:274-276 | max_seq is an upper bound that is attained |
| `SsTables.BinarySearch` | 10-database-internals/src/sstable.rs:224-234 | Binary search over a sorted index finds what linear search finds |
| `SsTables.GetRecord` | 10-database-internals/src/sstable.rs:224-246 | Search, positioned read and decode equal the specified look-up, errors included |
| `SsTables.BuildImage` | 10-database-internals/src/sstable.rs:100-136 | The writer's running offsets produce data, index and footer of the image |
| `SsTables.OpenTable` | 10-database-internals/src/sstable.rs:161-212 | The footer and index reader accepts and rejects exactly as specified |
| `SsTables.IterTable` | 10-database-internals/src/sstable.rs:255-269 | The decode walk equals the specified iteration, corrupt records included |
| `TableErrors.OpensIff` | 10-database-internals/src/sstable.rs:161-212 | For every file: open fails cleanly exactly when the magic number or room for the footer is missing, or the index region leaves the file; it slices out of range exactly when that region is not the written form of an index; otherwise it succeeds |
| `TableErrors.StoreOpensIff` | 10-database-internals/src/db.rs:104-141 | The store opens on a directory of any bytes exactly when every table file in it opens, whatever the log holds |
| `TableErrors.GetsIff` | 10-database-internals/src/sstable.rs:224-246 | On any table, written or not: None exactly when no slot has the key, a record only where a slot of the key points at one, an error only where a slot of the key points at none; never a panic |
| `TableErrors.IteratesIff` | 10-database-internals/src/sstable.rs:255-269 | Iterating any table gives records exactly when the data region falls into pieces that decode, whole, to them |
| `TableErrors.FileLayout` | 10-database-internals/src/sstable.rs:100-136 | A written file is data, index and a 36-byte footer with index offset, index length, count, highest seq and magic |
| `SsTables.OpenedIsExact` | 10-database-internals/src/sstable.rs:161-212 | What opens has the magic number at its end, and every field of the result is the one the footer and index region hold |
| `SsTables.ParseIndexExact` | 10-database-internals/src/sstable.rs:188-203 | An index that was read re-encodes to the very bytes it was read from |
| `KeyOrder.LookupInsert` | 10-database-internals/src/memtable.rs:38-53 | An inserted record is found under its key and every other key is unaffected |
| `KeyOrder.SortedUnique` | 10-database-internals/src/memtable.rs:56-58 | A key-sorted record list is determined by its look-ups, so the sorted map is a sound model of the BTreeMap |
| `KeyOrder.LessIsLexicographic` | 10-database-internals/src/memtable.rs:23-25 | The key order is lexicographic: a is less where the two first differ, or is a proper prefix |
| `MemTables.MemTable.Insert` | 10-database-internals/src/memtable.rs:38-44 | Newest wins in place, and the byte counter stays the exact footprint of the entries |
| `MemTables.FootprintInsert` | 10-database-internals/src/memtable.rs:82-91 | Inserting changes the footprint by the new entry minus the replaced one |
| `MemTables.MemTable.Clear` | 10-database-internals/src/memtable.rs:76-79 | Empties the map and the counter together |
| `RespProtocol.ParseEncoded` | 07-systems-programming/src/resp.rs:72-184 | For every nested value without CRLF in its text, parsing its encoding followed by any bytes returns that value and exactly its length |
| `RespProtocol.RoundTripIff` | 07-systems-programming/src/resp.rs:72-184 | Values encoded back to back, followed by anything, parse back to the same values if and only if every text in them is UTF-8 without CRLF and every number and length fits an i64 |
| `RespProtocol.ParsedIsWellFormed` | 07-systems-programming/src/resp.rs:72-141 | Whatever buffer it is given, the parser only ever produces such values |
| `RespProtocol.StrictPrefixNeedsMore` | 07-systems-programming/src/resp.rs:62-141 | Every strict prefix of an encoding is incomplete, never an error |
| `RespProtocol.ParseStable` | 07-systems-programming/src/resp.rs:62-141 | Once a buffer gives a value, an error or a panic, appending bytes never changes that result |
| `RespProtocol.PanicsIff` | 07-systems-programming/src/resp.rs:76-80 | The slice goes out of range if and only if a CRLF stands where a value should begin, at the front or at an array item |
| `RespProtocol.ParseBuffer` | 07-systems-programming/src/resp.rs:72-141 | The recursive parser with its item loop equals the specified parse |
| `RespProtocol.EncodeInto` | 07-systems-programming/src/resp.rs:148-184 | Encoding appends exactly the specified bytes to the caller's buffer |
| `RespProtocol.ParseTextLine` | 07-systems-programming/src/resp.rs:84-93 | Behind + or - the line is the text, if it is UTF-8 |
| `RespProtocol.ParseIntegerLine` | 07-systems-programming/src/resp.rs:94-101 | Behind : it is an integer, or an error |
| `RespProtocol.ParseBulkLine` | 07-systems-programming/src/resp.rs:102-117 | Behind $ it is a length: negative for null, incomplete until that many bytes and two more have arrived, which are not looked at |
| `RespProtocol.ParseArrayLine` | 07-systems-programming/src/resp.rs:118-138 | Behind * it is a count: negative for null, otherwise of values back to back, whose first failure is the result |
| `RespProtocol.ParseForeignLine` | 07-systems-programming/src/resp.rs:139 | Any other first byte is an error |
| `Numerals.NumeralRoundTrip` | 07-systems-programming/src/resp.rs:98-104 | Every i64 printed in decimal parses back to itself |
| `Numerals.ParseI64Iff` | 07-systems-programming/src/resp.rs:94-101 | A text reads as an i64 exactly when it is an optional sign and that number's decimal digits, leading zeros allowed, and nothing else |
| `Numerals.ParseU64Iff` | 07-systems-programming/src/command.rs:156-159 | The EX, PX and EXPIRE amounts: a text reads as n exactly when it is an optional plus and the decimal digits of n, leading zeros allowed, and n is below 2^64; everything else is rejected |
| `Numerals.DigitsOfValue` | 07-systems-programming/src/command.rs:156-159 | Every run of digits is the canonical decimal text of its value behind zeros |
| `Numerals.ValueOfConcat` | 07-systems-programming/src/command.rs:156-159 | The value of digits is positional: a front part counts by the power of ten of what follows |
| `Connections.ParseCommandIff` | 07-systems-programming/src/command.rs:52-183 | A frame is read as a command if and only if it is a non-empty bulk array with that command's name, each letter of it capital or small, the argument count the command demands and parseable numbers; PING, DBSIZE, SAVE and COMMAND accept extra arguments |
| `Replies.FrameRefusedIff` | 07-systems-programming/src/command.rs:52-183 | Which error any other frame gets: the exact message for each wrong shape, wrong count, unreadable number, wrong unit and unknown name |
| `Utf8.UpperIsAnyCase` | 07-systems-programming/src/command.rs:93 | Comparing a name in upper case accepts exactly the spellings in which every letter is the capital one or 32 above it |
| `Utf8.UpperKeepsOthers` | 07-systems-programming/src/command.rs:93 | Upper case changes no byte but the small letters |
| `Connections.UnitNames` | 07-systems-programming/src/command.rs:161-166 | The same for the units EX and PX |
| `Connections.ChunkIndependence` | 07-systems-programming/src/connection.rs:67-81 | However the client's bytes are cut into reads, replies, store, status and leftover bytes are those of one read of them all |
| `Connections.SessionOutcome` | 07-systems-programming/src/connection.rs:67-106 | Chunked reads and partial writes together are invisible: bytes sent followed by bytes still buffered are those of one read of the whole input |
| `Connections.OutputIsRepliesInOrder` | 07-systems-programming/src/connection.rs:83-106 | Under any pattern of partial, blocked, interrupted or failed writes, sent bytes followed by the write buffer equal all encoded replies in order |
| `Sessions.SessionAnswers` | 07-systems-programming/src/connection.rs:67-106 | For every interleaving of reads and partial writes: the bytes sent, followed by those still buffered, are the encoded replies of the timed map to the requests in everything that arrived, in order; a frame that is no command gets its error and changes nothing; the connection fails or panics exactly when the bytes behind the last request can never become one |
| `Sessions.RequestsAnswered` | 07-systems-programming/src/connection.rs:67-106 | Hence a client that sends well-formed requests, however cut up, and is sent everything, receives exactly the timed map's replies to them |
| `Sessions.AnsweredAsAsked` | 07-systems-programming/src/command.rs:91-257 | A frame that asks for a command, on a store no client can tell from a timed map, is answered with that map's reply and leaves such a store |
| `Sessions.RefusedOtherwise` | 07-systems-programming/src/connection.rs:73-76 | Any other frame leaves the store unchanged and is answered with its error |
| `Sessions.ProcessAnswers` | 07-systems-programming/src/connection.rs:67-81 | Draining any read buffer appends the encoded replies of the timed map to its requests, leaves exactly the bytes that are no complete value yet, and sets the status by them |
| `Sessions.GetIsAnswered` | 07-systems-programming/src/connection.rs:67-81 | The bytes of "get k" are answered with the bytes of the value, or with $-1 |
| `Connections.PipelinedRequests` | 07-systems-programming/src/connection.rs:67-81 | Back-to-back well-formed requests are answered one by one, in order, each at its own clock reading, leaving nothing in the read buffer; what each reply is, Sessions.ProcessAnswers says |
| `Connections.NameAsSent` | 07-systems-programming/src/command.rs:93-183 | Decoding the command name lossily before matching it makes no request a different command |
| `Replies.RepliesReadBackIff` | 07-systems-programming/src/connection.rs:67-81 | For every list of parsed requests: the client reads back exactly the replies that were sent, in order, if and only if no request has a command name with a CRLF in it, which an error reply would quote |
| `Replies.ReplyWellFormedIff` | 07-systems-programming/src/command.rs:92-256 | One request: its reply can be framed if and only if its command name holds no CRLF, whatever the store holds |
| `Replies.LossyKeepsCrlf` | 07-systems-programming/src/command.rs:93 | Lossy decoding of a name neither makes nor removes a CRLF |
| `Utf8.BrokenIsMaximal` | 07-systems-programming/src/command.rs:93 | Where the bytes are no character, each replacement stands for the longest beginning of a character there, or else for one byte |
| `Utf8.LossyIsUtf8` | 07-systems-programming/src/command.rs:93 | Whatever the bytes, lossy decoding gives valid UTF-8 |
| `Utf8.LossyKeepsText` | 07-systems-programming/src/command.rs:93 | It changes nothing if and only if the bytes were valid UTF-8 |
| `Utf8.ValidIff` | 07-systems-programming/src/resp.rs:84-93 | Bytes are valid UTF-8 exactly when they are the encodings of Unicode scalar values in order |
| `Connections.Connection.ProcessLoop` | 07-systems-programming/src/connection.rs:67-81 | The draining loop leaves exactly the buffers, store and status that Sessions.ProcessAnswers describes in terms of the timed map |
| `Connections.Connection.ReadIntoBuf` | 07-systems-programming/src/connection.rs:49-63 | For every script of read results: the bytes of the reads before the first that blocks, ends or fails are appended in order, interrupted reads skipped, and that ending is reported |
| `Connections.Connection.Receive` | 07-systems-programming/src/server.rs:138-158 | A readable event drains the socket and processes what arrived; a failed read processes nothing; the connection is dropped exactly on failure, protocol error or end of stream |
| `Connections.Connection.FlushWriteBuf` | 07-systems-programming/src/connection.rs:88-106 | For every script of write results: as many bytes move from the buffer to the socket as the writes before the first zero, blocked or failed one report, interruptions skipped, or all if there are fewer; and the outcome is an error exactly when that one fails with bytes left |
| `Connections.AcceptedIs` | 07-systems-programming/src/connection.rs:91-106 | The same of the specified count, for every script: the lesser of the buffer length and the sum of the counts before the loop ends |
| `Connections.WritesDrain` | 07-systems-programming/src/connection.rs:91-106 | Every script of positive writes and interruptions whose counts reach the buffer's length sends all of it and empties the buffer |
| `Connections.OneWriteDrains` | 07-systems-programming/src/connection.rs:91-106 | One write of everything behind any interruptions does so too; a blocked socket behind them takes nothing |
| `Connections.ReceivedIs` | 07-systems-programming/src/connection.rs:49-63 | What arrives in one readable event is the concatenation of the reads before the first that blocks, ends or fails |
| `Keyspace.RunRefinesTimedMap` | 07-systems-programming/src/command.rs:202-257 | With a nondecreasing clock, every reply of every run of commands and sweeps equals that of a map in which a key is visible exactly while now is before its deadline, with the reply to every command written out |
| `Keyspace.CommandRefinesTimedMap` | 07-systems-programming/src/command.rs:202-257 | One command on states no client can tell apart gives the same reply and such states again, whatever lazy removals happened |
| `CommandLaws.SetThenGet` | 07-systems-programming/src/command.rs:209-221 | GET after SET replies the value, until the deadline, and then null |
| `CommandLaws.DelThenGet` | 07-systems-programming/src/command.rs:223-226 | DEL counts the key if it was live, and GET then replies null |
| `CommandLaws.ExpireThenTtl` | 07-systems-programming/src/store.rs:166-190 | TTL after EXPIRE counts the seconds down, rounded down, and is -2 from the deadline on |
| `CommandLaws.TtlOtherwise` | 07-systems-programming/src/store.rs:166-192 | EXPIRE replies 0 and TTL -2 on a key that is not live; TTL replies -1 on one without a deadline |
| `CommandLaws.IncrThenGet` | 07-systems-programming/src/command.rs:233-236 | INCR replies one more than the integer text that was there, or 1, and GET then replies that text |
| `CommandLaws.IncrRefuses` | 07-systems-programming/src/store.rs:146-164 | INCR on a live value that is no integer replies the error and changes nothing |
| `CommandLaws.OtherKeysAreSpared` | 07-systems-programming/src/command.rs:202-257 | Every command leaves every key it does not name exactly as it was, value and deadline |
| `RequestLaws.SetGet` | 07-systems-programming/src/command.rs:144-177 | On the words a client sends: "set k v" and "get k" reply OK and v, on any store |
| `RequestLaws.SetExpiring` | 07-systems-programming/src/command.rs:144-177 | Likewise "set k v ex n" makes "get k" reply v for n seconds and null afterwards, "px n" for n milliseconds |
| `RequestLaws.ExpireTtl` | 07-systems-programming/src/command.rs:133-142 | "expire k n" on a live key replies 1, and "ttl k" the seconds left |
| `RequestLaws.ExistsDel` | 07-systems-programming/src/command.rs:121-132 | "exists k k" on a live key replies 2 and "del k k" 1 |
| `RequestLaws.EchoIncr` | 07-systems-programming/src/command.rs:97-114 | "echo t" replies t and "incr k" one more than the text of k |
| `Keyspace.SweepKeepsView` | 07-systems-programming/src/store.rs:65-71 | The active sweep changes no view |
| `Keyspace.DelAllCounts` | 07-systems-programming/src/command.rs:223-226 | DEL with repeated keys returns exactly the drop in the number of live keys and removes exactly those keys |
| `Keyspace.ExistsAllCounts` | 07-systems-programming/src/command.rs:228-231 | EXISTS counts every live listed key, repeats included, and changes no view |
| `Keyspace.IncrKeepsDeadline` | 07-systems-programming/src/store.rs:143-164 | INCR on a live integer key keeps its deadline, adds one below i64::MAX, and touches no other key |
| `Keyspace.Deadline` | 07-systems-programming/src/store.rs:166-178 | The deadline lies the given seconds after now, in milliseconds, unless the u64 sum wraps |
| `Keyspace.Store.Lookup` | 07-systems-programming/src/store.rs:104-116 | get returns exactly the visible value, removes a dead entry it meets and changes no view |
| `Keyspace.Store.Increment` | 07-systems-programming/src/store.rs:146-164 | incr fails exactly on a visible value that is no number, then changes nothing visible; otherwise the key reads as the new number and no other visible key changes |
| `Keyspace.Store.SetDeadline` | 07-systems-programming/src/store.rs:168-178 | expire succeeds exactly on a visible key, keeps its value, sets its deadline and changes no other visible key |
| `Keyspace.Store.PurgeExpired` | 07-systems-programming/src/store.rs:68-71 | retain leaves exactly the live entries |
| `Keyspace.Store.Run` | 07-systems-programming/src/command.rs:202-257 | The command dispatcher leaves the specified map and reply |
| `Snapshots.SnapshotRoundTrip` | 07-systems-programming/src/persistence.rs:73-140 | Saving in any map iteration order and loading later into an empty store gives exactly the entries still live, deadlines included |
| `Snapshots.CutSnapshot` | 07-systems-programming/src/persistence.rs:111-137 | A file cut inside a record is rejected without reading out of bounds, with exactly the complete records before it already loaded; cut between records it loads |
| `Snapshots.MarkerIsUnambiguous` | 07-systems-programming/src/store.rs:77-102 | The marker 0 never stands for a real deadline of a live entry |
| `Snapshots.ReadCut` | 07-systems-programming/src/persistence.rs:49-67 | No strict prefix of a record at the end of a file is ever read as a record |
| `Snapshots.MagicIsNeeded` | 07-systems-programming/src/persistence.rs:117-119 | Load rejects a file as foreign, changing nothing, exactly when it does not begin with the eight bytes RUDISDB1 |
| `Snapshots.RecordLayout` | 07-systems-programming/src/persistence.rs:79-85 | Every field of a saved entry stands where the format says, the marker 0 for no deadline |
| `Snapshots.Save` | 07-systems-programming/src/persistence.rs:73-85 | The saving loop writes the magic and one record per live entry in iteration order |
| `Snapshots.LoadInto` | 07-systems-programming/src/persistence.rs:111-140 | The loading loop with its offset checks leaves the specified map and outcome |
| `Tokens.TokensNeverCollide` | 07-systems-programming/src/server.rs:106-114 | Over every run of accepts and closes below capacity, a new connection never gets a reserved token or one in use, and a connection leaves the table only by its own close |
| `Tokens.InvariantHolds` | 07-systems-programming/src/server.rs:106-184 | In every state of every run all live tokens are client tokens, no connection has two, and the next token is free |
| `Tokens.HeldIff` | 07-systems-programming/src/server.rs:106-184 | In every state of every run a token belongs to a connection exactly when it was handed to it and not closed since |
| `Tokens.NextFreeToken` | 07-systems-programming/src/server.rs:56-63 | The search ends and returns the first free token after the start in wrap-around order |
| `Tokens.ReturnsToStartIff` | 07-systems-programming/src/server.rs:56-63 | It comes back to its start exactly when every other token is taken |
| `Tokens.EventLoop.Accept` | 07-systems-programming/src/server.rs:106-114 | Hands out the prepared token and prepares another free one, although the search runs before the new connection is recorded |
| `Tokens.EventLoop.Close` | 07-systems-programming/src/server.rs:180-184 | Removes that connection and nothing else |
| `Pipeline.PipelineMatchesSequential` | 04-concurrency/src/pipeline.rs:18-79 | For every interleaving and any number of workers the queue stays within its 64 slots and the number of steps is bounded; with a worker, or no line to count, some thread can always move until all have returned, and then the merge equals the sequential aggregate up to sample order |
| `Pipeline.PoolWorksIff` | 04-concurrency/src/pipeline.rs:18-79 | No schedule deadlocks or miscounts if and only if there is a worker, or no line to count |
| `Pipeline.PipelineReport` | 04-concurrency/src/pipeline.rs:18-79 | A finished pipeline has exactly the reports of the sequential aggregate, leaderboards, sorted samples and truncation included |
| `Pipeline.NoDeadlock` | 04-concurrency/src/pipeline.rs:18-79 | With a worker, or nothing pending, some thread is enabled in every reachable unfinished state |
| `Pipeline.StepDecreases` | 04-concurrency/src/pipeline.rs:18-79 | Every step of every thread strictly decreases one measure |
| `Pipeline.StepKeepsTotal` | 04-concurrency/src/pipeline.rs:18-79 | No step loses or duplicates a line: counted, held, queued and unread lines always add up to the same aggregate |
| `Pipeline.AnalyzePipeline` | 04-concurrency/src/pipeline.rs:18-79 | Under an arbitrary scheduler and for any number of workers the pipeline ends: with the sequential aggregate up to sample order if there is a worker or no line; otherwise it blocks or returns the empty aggregate |
| `Pipeline.BatchesAreFull` | 04-concurrency/src/pipeline.rs:28-46 | In every reachable state every queued batch holds 1024 lines, except a last one sent after all lines were read |
| `LogStats.MergeIsCommutativeMonoid` | 04-concurrency/src/stats.rs:110-128 | Merge is associative, has the default as unit, and commutes up to sample order |
| `LogStats.SequentialCounts` | 04-concurrency/src/stats.rs:36-49 | The sequential aggregate is exact: totals, malformed lines, samples in order, and for every status, path and address its number of entries |
| `LogStats.SequentialConcat` | 04-concurrency/src/stats.rs:110-128 | Analyzing two parts and merging is analyzing the whole |
| `LogStats.TakeAllIsMerge` | 04-concurrency/src/stats.rs:36-49 | Recording lines into an aggregate is merging their own aggregate into it |
| `LogReports.SameReport` | 04-concurrency/src/stats.rs:67-107 | Aggregates equal up to sample order have one and the same sorted, truncated report, whatever order the hash maps are iterated in |
| `LogReports.IntoReport` | 04-concurrency/src/stats.rs:51-107 | Every aggregate has a report: statuses, paths and addresses sorted by count then key, the latter two cut to the top, and the samples sorted |
| `LogReports.SortCounts` | 04-concurrency/src/stats.rs:72-81 | Collecting a hash map in any order and sorting gives its leaderboard, every entry once |
| `LogReports.RankedUnique` | 04-concurrency/src/stats.rs:72-81 | The leaderboard order (higher count, then key) determines the sorted list |
| `LogStats.Accumulator.RecordEntry` | 04-concurrency/src/stats.rs:36-45 | record adds one request, the entry's bytes, its sample and one to the count of its status, path and address, and changes no other count |
| `LogStats.Accumulator.TakeLines` | 04-concurrency/src/sequential.rs:21-31 | The line loop leaves the aggregate of the lines added to what was there |
| `LogStats.Accumulator.MergeWith` | 04-concurrency/src/stats.rs:111-127 | merge leaves the specified combination |
| `LogChunks.ChunksMatchSequential` | 04-concurrency/src/parallel.rs:51-68 | Any newline-aligned tiling of a buffer, analyzed chunk by chunk and merged in order, gives exactly the sequential aggregate |
| `LogChunks.SplitIntoChunks` | 04-concurrency/src/parallel.rs:16-48 | For every buffer and thread count the chunks are the buffer in order, none empty, none ending inside a line but the last, no more than the threads, and the line end next behind each even share ends a chunk |
| `LogChunks.AnalyzeSequential` | 04-concurrency/src/sequential.rs:15-34 | The oracle computes the aggregate of exactly the non-blank lines of the buffer, which LogAnalyses.AnalysisCounts counts |
| `LogChunks.AnalyzeParallel` | 04-concurrency/src/parallel.rs:51-68 | For every buffer and thread count the result is exactly that of the sequential analysis, samples in the same order |
| `LogAnalyses.AnalysisCounts` | 04-concurrency/src/sequential.rs:15-34 | For every buffer, each number of the aggregate is a number of lines of the text: requests are its good lines, malformed its non-empty lines that do not parse, and each status, path and address the good lines that carry it |
| `LogAnalyses.NoLineForgotten` | 04-concurrency/src/sequential.rs:21-31 | For every buffer, requests and malformed together are the number of non-empty lines |
| `LogAnalyses.OneMoreLine` | 04-concurrency/src/sequential.rs:21-31 | One more line changes nothing if blank, adds one to malformed if it does not parse, and otherwise adds its size, its time and one request |
| `LogAnalyses.PipelineCounts` | 04-concurrency/src/pipeline.rs:18-79 | A finished pipeline has counted exactly those lines, whatever its schedule |
| `LogAnalyses.ReportCounts` | 04-concurrency/src/stats.rs:51-107 | A report lists, with their numbers of lines, exactly the statuses, and only paths and addresses, that occur in good lines |
| `LogAnalyses.ReportOrder` | 04-concurrency/src/stats.rs:67-107 | Statuses and the paths shown stand by falling count, then rising key; what is cut off has no higher count than what is shown |
| `LogChunks.LineIsKept` | 04-concurrency/src/sequential.rs:21-31 | Inserting a blank line among any lines changes nothing; any other line contributes exactly its own parse, in its place |
| `LogChunks.LinesOfText` | 04-concurrency/src/sequential.rs:21 | The lines of a text of terminated lines and an unfinished rest are those lines, each without one carriage return at its end, and the rest if it is not empty |
| `Splitting.LinesIff` | 04-concurrency/src/sequential.rs:21 | Splitting at newlines is the one way to write a buffer as newline-ended lines without newlines inside, and a rest without any |
| `Stations.RunParallel` | 08-performance/src/runner.rs:49-76 | For every buffer and every thread count the result is the exact group-by of all newline-ended lines, and it panics exactly when a line is malformed, as the sequential path does |
| `Stations.RunSequential` | 08-performance/src/runner.rs:38-41 | The same for the sequential path |
| `StationFiles.FileIsGrouped` | 08-performance/src/runner.rs:21-41 | For every list of rows written out, one a line, followed by any unfinished line: the program answers the group-by of exactly those rows |
| `StationFiles.StationNumbers` | 08-performance/src/aggregate.rs:38-43 | A station is in the answer exactly when some row names it; its count is the number of those rows and its extremes are attained and bound them |
| `StationFiles.OneMoreRow` | 08-performance/src/aggregate.rs:38-43 | One more row adds its temperature and one to the sum and count of its station and changes no other |
| `Stations.Aggregate` | 08-performance/src/runner.rs:21-35 | The hot loop computes the group-by of the newline-ended lines and ignores an unfinished last line |
| `Stations.ChunksMatchWhole` | 08-performance/src/runner.rs:49-76 | Any newline-aligned tiling merges to the table of the whole buffer |
| `Stations.GroupByConcat` | 08-performance/src/aggregate.rs:47-52 | Grouping two row lists apart and merging the tables is grouping them together |
| `Stations.SummarizeDescribes` | 08-performance/src/aggregate.rs:38-43 | count and sum are exact; min and max are attained and bound every temperature |
| `Stations.MeanIsBetweenMinAndMax` | 08-performance/src/aggregate.rs:38-57 | min * count <= sum <= max * count |
| `Stations.WellFormedSums` | 08-performance/src/aggregate.rs:38-43 | On well-formed lines abs(sum) <= 999 * count for every station |
| `Stations.SumsFitI64` | 08-performance/src/aggregate.rs:18-43 | In any buffer of at most 2^50 bytes, well-formed or not, no station's sum leaves i64 |
| `Stations.WellFormedNeverPanics` | 08-performance/src/parse.rs:16-53 | Well-formed lines never panic |
| `Stations.SplitChunks` | 08-performance/src/io.rs:33-61 | The chunks are the buffer in order, none empty, none but the last ending inside a line, at most n |
| `Stations.MergeInto` | 08-performance/src/runner.rs:68-73 | The merge loop over a hash map in any order gives the key-wise merge |
| `Temperatures.TempRoundTrip` | 08-performance/src/parse.rs:32-53 | Every number of tenths from -999 to 999 printed in the row format parses back to itself |
| `Temperatures.ParseTempIsDecimal` | 08-performance/src/parse.rs:23-53 | A well-formed temperature parses to the decimal number read without its point, within 999 tenths |
| `Temperatures.SplitLine` | 08-performance/src/parse.rs:16-21 | Name and temperature are the halves around the first semicolon; without one it panics |
| `Temperatures.AcceptsIff` | 08-performance/src/parse.rs:32-53 | A text is accepted exactly when, behind an optional minus, it has three or four bytes with the point before the last; other bytes are not checked, and their difference from the digit zero wraps |
| `BloomFilters.NoFalseNegatives` | 09-unsafe-ffi/src/bloom.rs:90-107 | After every history of adds, on any starting filter, every added item is reported present |
| `BloomFilters.ReportedAfterHistoryIff` | 09-unsafe-ffi/src/bloom.rs:90-107 | A new filter reports an item if and only if each of its probes is a probe of some added item: false positives are exactly these |
| `BloomFilters.HistoryBits` | 09-unsafe-ffi/src/bloom.rs:80-97 | After any history the set bits are exactly the earlier ones and the probes of the added items |
| `BloomFilters.ReportsOnlyGrow` | 09-unsafe-ffi/src/bloom.rs:90-107 | An item once reported stays reported |
| `BloomFilters.SameItemsSameBits` | 09-unsafe-ffi/src/bloom.rs:90-97 | Order and repetition of adds do not change the bit array |
| `BloomFilters.WithBitSetsOne` | 09-unsafe-ffi/src/bloom.rs:80-87 | Setting a packed bit sets that bit and no other, in any word |
| `BloomFilters.SerializeRoundTrip` | 09-unsafe-ffi/src/bloom.rs:131-187 | A filter rebuilt from its own bytes is the same filter |
| `BloomFilters.RebuiltAnswersAlike` | 09-unsafe-ffi/src/bloom.rs:131-187 | It answers every query alike, also after any further adds |
| `BloomFilters.DeserializeIsExact` | 09-unsafe-ffi/src/bloom.rs:149-187 | Accepted bytes are exactly the serialization of what they were read as |
| `BloomFilters.SerializedLayout` | 09-unsafe-ffi/src/bloom.rs:131-142 | Magic, version, probe count, item count, bit count and words stand at their offsets, little-endian |
| `BloomFilters.EveryAddIsCounted` | 09-unsafe-ffi/src/bloom.rs:90-97 | After any history the item count has grown by its length, modulo 2^64 |
| `BloomFilters.AcceptedNeverPanicsIff` | 09-unsafe-ffi/src/bloom.rs:149-187 | For every accepted buffer: no query and no add panics for any base hashes with an odd step if and only if the buffer claims no probes, or a positive multiple of 64 bits |
| `BloomFilters.NeverPanicsIff` | 09-unsafe-ffi/src/bloom.rs:80-107 | The same for the filter itself |
| `BloomFilters.NoWordsAlwaysPanics` | 09-unsafe-ffi/src/bloom.rs:90-107 | A filter with probes but no words, which any accepted bit count below 64 gives, panics on every query and every add |
| `BloomFilters.QueryPanicsIff` | 09-unsafe-ffi/src/bloom.rs:101-107 | A query panics if and only if a probe is out of range and every probe before it found its bit set |
| `BloomFilters.AddPanicsIff` | 09-unsafe-ffi/src/bloom.rs:90-97 | An add panics if and only if some probe is out of range |
| `BloomFilters.WellFormedQueries` | 09-unsafe-ffi/src/bloom.rs:90-107 | On a filter of the documented shape neither operation panics, and they are the set-and-test operations of the other theorems |
| `BloomFilters.ZeroBitsAccepted` | 09-unsafe-ffi/src/bloom.rs:163-171 | A buffer that claims zero bits is accepted and its filter can panic, so the condition can fail |
| `BloomFilters.Empty` | 09-unsafe-ffi/src/bloom.rs:67-75 | The bit count is the least positive multiple of 64 that suffices, and there is at least one probe |
| `BloomFilters.Bloom.Add` | 09-unsafe-ffi/src/bloom.rs:90-97 | On any filter the probe loop sets exactly the item's probes and counts the call, or stops where the original panics |
| `BloomFilters.Bloom.Contains` | 09-unsafe-ffi/src/bloom.rs:101-107 | On any filter the short-circuiting query answers whether every probe is set, or reports the panic of the original |
| `BloomFilters.Bloom.ToBytes` | 09-unsafe-ffi/src/bloom.rs:131-142 | The buffer loop produces the serialization |
| `BloomFilters.Bloom.FromBytes` | 09-unsafe-ffi/src/bloom.rs:149-187 | The validating reader accepts, rejects and rebuilds exactly as specified |
| `Hashing.EveryBitOnce` | 09-unsafe-ffi/src/hash.rs:38-52 | With a power-of-two bit count, any num_bits consecutive probes of an item visit every bit exactly once, both u64 wraps included |
| `Hashing.CoversIffOdd` | 09-unsafe-ffi/src/hash.rs:33-42 | They cover the filter if and only if the step is odd, which is why it is forced odd |
| `Hashing.OneByteChangesHash` | 09-unsafe-ffi/src/hash.rs:24-31 | Changing exactly one byte of an item always changes its FNV-1a hash, from any basis |
| `Hashing.Fnv1a` | 09-unsafe-ffi/src/hash.rs:24-31 | The xor-multiply loop computes the specified hash |
| `Hashing.HashPair` | 09-unsafe-ffi/src/hash.rs:38-42 | The second hash is odd |
| `Hashing.StepIsOddHash` | 09-unsafe-ffi/src/hash.rs:38-42 | The second hash is the hash from the other basis with its lowest bit set |
| `Hashing.BitIndexUnwrapped` | 09-unsafe-ffi/src/hash.rs:49-52 | Where nothing wraps, probe i is h1 + i * h2 modulo the bit count |
| `Hashing.HashOfA` | 09-unsafe-ffi/src/hash.rs:16-31 | The published test vector: "a" hashes to 0xaf63dc4c8601ec8c |

## Left out

- File names, directory listing and `stats()` of the store: ids stand for files.
- Crash atomicity of the rudis snapshot: `save` truncates in place, so the code does not have it.
- The result of the file system for `SAVE` is always success, so the reply quoting its error does not occur; only the reply without a configured path differs.
- Allocation failure, vector capacities, stack depth and memory limits.
- The socket and readiness loop of the server, signals and timers: reads, write results and sweeps are events.
- Log lines of `logcrunch` are byte strings with an abstract parse result; their lossy decoding is not modelled.
- Floating point: means, percentile ranks, filter sizing by false-positive rate, and the formatting of results. Request times are opaque ordered values.
- Bloom.WithParams: excludes bit counts whose rounding up to a word would pass 2^64.
- AcceptedNeverPanicsIff: quantifies over base hashes, not items, because which hashes FNV-1a reaches is not modelled. For bit counts below 64 every item panics (NoWordsAlwaysPanics); above, a panicking item is not exhibited.
- NeverPanicsIff: the same.
- CutRunRefinesMap: the truncation itself is one step of open; it is taken to leave the log cut or uncut, which replay the same.
- SplitChunks: needs at least one chunk for a non-empty buffer; the original divides by zero there, and the parallel driver never asks for that.
- Accept: needs fewer connections than client tokens; beyond that the search does not end.
- PipelineMatchesSequential: compares request times as a multiset, because the order in which workers merge samples is not fixed; the report sorts them.
- `Stats` of the row challenge is a value updated in the map, as the original's is a copyable struct.
- `rayon` and the hash function of the fast map: scheduling and hashing are inside libraries; the merge is covered by the tiling theorems.
- The C interface of the Bloom filter, and the command-line programs, benchmarks and other modules of the workspace.
