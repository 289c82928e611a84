/**
 Why a run is only admissible while no write sits behind a torn tail: Wal::open appends
 without cutting the tail that replay stopped at.
 */
module LsmTornTail {
  import opened Bytes
  import opened Encoding
  import opened WalFormat
  import opened KeyOrder
  import opened MemTables
  import opened Levels
  import opened SsTables
  import opened Compaction
  import opened Disks
  import opened Lsm
  import opened LsmInvariant
  import opened LsmRecovery
  import opened LsmCrash
  import opened LsmReads
  import opened LsmRuns

  /** The log after a crash tore the frame of r after n bytes. */
  function TornLogOf(wal: bytes, r: Record, n: nat): bytes
    requires n <= |Frame(r)|
  {
    wal + Frame(r)[..n]
  }

  /** A crash can tear the frame being appended after any number of bytes. */
  lemma TearIsPossible(s: Store, d: DiskState, r: Record, n: nat, c: Image)
    requires DiskOk(s, d) && n <= |Frame(r)|
    requires Holds(c, TornLogOf(d.wal.current, r, n), s.tables)
    ensures CrashImage(LogTrace(d, r)[0], c)
  {
    hide Frame, DirOf, BytesOf;
    var x := LogTrace(d, r)[0];
    DirKeys(s.tables);
    assert DirOutcome(ApplyOps(x.dir, x.pending[..0]), c.ssts);
    var w := d.wal.current;
    assert c.wal <= w + Frame(r) && w <= c.wal;
  }

  /** Replay over the torn tail and over a frame too short to fill the gap. */
  lemma ReplayOverTear(wal: bytes, r: Record, n: nat, later: Record)
    requires Clean(wal) && FrameFits(r) && HEADER <= n && n + |Frame(later)| < |Frame(r)|
    ensures Replay(TornLogOf(wal, r, n)) == Replay(wal)
    ensures Replay(TornLogOf(wal, r, n) + Frame(later)) == Replay(wal)
  {
    hide Replay, ReplayedLen, Frame, FrameFits;
    TornLog(wal, r, n);
    TornFrameStops(r, n, Frame(later));
    ReplayBehindClean(wal, Frame(r)[..n] + Frame(later));
    assert wal + Frame(r)[..n] + Frame(later) == wal + (Frame(r)[..n] + Frame(later));
    assert Replay(wal) + [] == Replay(wal);
  }

  /** The store reopened after the tear: same memtable and tables as before the torn write. */
  lemma ReopenedAfterTear(s: Store, d: DiskState, r: Record, n: nat, c: Image)
    requires Durable(s, d) && Clean(d.wal.current) && FrameFits(r) && n < |Frame(r)|
    requires Holds(c, TornLogOf(d.wal.current, r, n), s.tables)
    ensures Recover(c) == Ok(RecoveredStore(c.wal, s.tables))
    ensures RamOk(RecoveredStore(c.wal, s.tables)) && DiskOk(RecoveredStore(c.wal, s.tables), Reboot(c))
    ensures RecoveredStore(c.wal, s.tables).mem == s.mem
    ensures SameReads(RecoveredStore(c.wal, s.tables), s)
  {
    hide Replay, MemOf, MaxSeq, Frame, FrameFits, Clean, Wf, Layered, Stored, Sorted, AllFit, BytesOf, DirOf, Records, Recover;
    TornLog(d.wal.current, r, n);
    RecoverOpens(c, s.tables);
    StoredCons(s.mem, TableLevels(s.tables));
    RecoveredOk(c.wal, s.tables);
    RebootOk(c, s.tables);
  }

  /**
   An acknowledged write that is synced behind a torn frame, and is shorter than what that
   frame misses, is gone after the next crash: the store reads like before the torn write.
   */
  lemma AcknowledgedWriteLost(s: Store, d: DiskState, r: Record, n: nat, c1: Image, op: Op, limit: nat, c2: Image)
    requires Durable(s, d) && Clean(d.wal.current) && FrameFits(r) && HEADER <= n < |Frame(r)|
    requires Holds(c1, TornLogOf(d.wal.current, r, n), s.tables)
    requires var n1 := Node(RecoveredStore(c1.wal, s.tables), Reboot(c1), false);
             && Writes(op) && !Flushes(n1.s, op, limit)
             && n + |Frame(NewRecord(n1.s, op))| < |Frame(r)|
             && CrashImage(Next(n1, Done(op), limit).d, c2)
    ensures CrashImage(LogTrace(d, r)[0], c1)
    ensures Recover(c1) == Ok(RecoveredStore(c1.wal, s.tables))
    ensures Recover(c2).Ok? && SameReads(Recover(c2).value, s)
  {
    hide Replay, MemOf, MaxSeq, Frame, FrameFits, Clean, Wf, Layered, Stored, Sorted, AllFit, BytesOf, DirOf, Records, Recover, Full,
         FlushTrace, Read;
    TearIsPossible(s, d, r, n, c1);
    ReopenedAfterTear(s, d, r, n, c1);
    var s1 := RecoveredStore(c1.wal, s.tables);
    var r2 := NewRecord(s1, op);
    LoggedDisk(s1, Reboot(c1), r2);
    QuietImage(LogTrace(Reboot(c1), r2)[1], s.tables, c2);
    ReplayOverTear(d.wal.current, r, n, r2);
    RecoverOpens(c2, s.tables);
  }

  /** The flush of a write behind the tear, cut after its table is durable and before the log is reset. */
  ghost predicate CutBeforeReset(s1: Store, d1: DiskState, r2: Record, c2: Image) {
    var s2, d2 := Logged(s1, r2), LogTrace(d1, r2)[1];
    |FileImage(s2.mem)| < U64_LIMIT && CrashImage(FlushTrace(s2, d2)[4], c2)
  }

  lemma ReopenedAfterCutFlush(s: Store, wal: bytes, r: Record, n: nat, s1: Store, d1: DiskState, r2: Record, c2: Image)
    requires RamOk(s) && LogOk(s, wal) && Clean(wal) && FrameFits(r) && HEADER <= n && n + |Frame(r2)| < |Frame(r)|
    requires RamOk(s1) && DiskOk(s1, d1) && d1.wal.current == TornLogOf(wal, r, n) && FrameFits(r2) && r2.seqno == s1.nextSeq
    requires CutBeforeReset(s1, d1, r2, c2)
    ensures Recover(c2).Ok? && Recover(c2).value.mem == s.mem
    ensures TableLevels(Recover(c2).value.tables) == [Logged(s1, r2).mem] + TableLevels(s1.tables)
  {
    hide Replay, MemOf, MaxSeq, Frame, FrameFits, Clean, Wf, Layered, Stored, BytesOf, DirOf, Recover, Consistent, TableOf,
         FileImage, WriteTrace, TableLevels;
    var s2, d2 := Logged(s1, r2), LogTrace(d1, r2)[1];
    LoggedRam(s1, r2);
    LoggedMem(s1, r2);
    LoggedDisk(s1, d1, r2);
    WriteImage(d2, s1.tables, s2.nextId, s2.mem, 5, c2);
    ReplayOverTear(wal, r, n, r2);
    RamShape(s2);
    FlushedTables(s2);
    RecoverOpens(c2, Flushed(s2).tables);
  }

  /**
   Behind a torn frame even the flush is not enough until the log is reset: a crash after
   the new table is durable but before the reset brings the old memtable back in front of
   it, and first-hit get and highest-seq scan disagree on an overwritten key.
   */
  lemma StaleGetAfterTornFlush(s: Store, d: DiskState, r: Record, n: nat, c1: Image, k: bytes, v: bytes, c2: Image)
    requires Durable(s, d) && Clean(d.wal.current) && FrameFits(r) && HEADER <= n < |Frame(r)|
    requires Holds(c1, TornLogOf(d.wal.current, r, n), s.tables) && Lookup(s.mem, k).Some?
    requires var s1 := RecoveredStore(c1.wal, s.tables);
             var r2 := Record(s1.nextSeq, k, Put(v));
             FrameFits(r2) && n + |Frame(r2)| < |Frame(r)| && CutBeforeReset(s1, Reboot(c1), r2, c2)
    ensures Recover(c2).Ok?
    ensures GetValue(Recover(c2).value, k) == Value(Lookup(s.mem, k))
    ensures (k, v) in ScanPairs(Recover(c2).value)
  {
    hide Replay, MemOf, MaxSeq, Frame, FrameFits, Clean, BytesOf, Recover, RecoveredStore, RamOk, LogOk, DiskOk, CutBeforeReset,
         TornLogOf, GetValue, ScanPairs, Value, Lookup, TableLevels;
    ReopenedAfterTear(s, d, r, n, c1);
    var s1 := RecoveredStore(c1.wal, s.tables);
    var r2 := Record(s1.nextSeq, k, Put(v));
    ReopenedAfterCutFlush(s, d.wal.current, r, n, s1, Reboot(c1), r2, c2);
    ReadsOldAndNew(s1, r2, s.mem, Recover(c2).value);
  }
  lemma ReadsOldAndNew(s1: Store, r2: Record, mem: seq<Record>, s3: Store)
    requires RamOk(s1) && s1.mem == mem && r2.seqno == s1.nextSeq && r2.value.Put? && FrameFits(r2)
    requires s3.mem == mem && TableLevels(s3.tables) == [Logged(s1, r2).mem] + TableLevels(s1.tables)
    requires Lookup(mem, r2.key).Some?
    ensures GetValue(s3, r2.key) == Value(Lookup(mem, r2.key))
    ensures (r2.key, r2.value.bytes) in ScanPairs(s3)
  {
    hide Stored, RamOk, ScanPairs, TableLevels, Lookup, Value, FrameFits;
    FirstHitCons(mem, TableLevels(s3.tables), r2.key);
    NewestInTable(s1, Logged(s1, r2), r2, mem);
    ScanFindsNewest(s3, r2);
  }

  lemma NewestInTable(s1: Store, s2: Store, r2: Record, mem: seq<Record>)
    requires RamOk(s1) && s2 == Logged(s1, r2) && r2.seqno == s1.nextSeq && mem == s1.mem && FrameFits(r2)
    ensures forall x :: Stored([mem] + ([s2.mem] + TableLevels(s1.tables)), x) && x != r2 ==> x.seqno < r2.seqno
    ensures Stored([mem] + ([s2.mem] + TableLevels(s1.tables)), r2)
  {
    hide Stored, Layered, Wf, Sorted, AllFit, TableLevels, FrameFits, Consistent, Lookup;
    LoggedRam(s1, r2);
    var levels := TableLevels(s1.tables);
    StoredCons(mem, [s2.mem] + levels);
    StoredCons(mem, levels);
    StoredCons(s2.mem, levels);
    LookupInsert(s1.mem, r2, r2.key);
  }

  /** A put whose seq is above every other stored record is listed by scan. */
  lemma ScanFindsNewest(s: Store, r: Record)
    requires r.value.Put? && Stored(LevelsOf(s), r)
    requires forall x :: Stored(LevelsOf(s), x) && x != r ==> x.seqno < r.seqno
    ensures (r.key, r.value.bytes) in ScanPairs(s)
  {
    hide Stored, Sorted, Lookup, FirstHit, TableLevels;
    var all := Flatten(TableLevels(s.tables)) + s.mem;
    StoredCons(s.mem, TableLevels(s.tables));
    forall x
      ensures x in all <==> Stored(LevelsOf(s), x)
    {
      FlattenStored(TableLevels(s.tables), x);
    }
    NewestPerKeySummarises(all);
    LivePairsOf(NewestPerKey(all));
  }
}
