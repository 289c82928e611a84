/**
 A crash at any point of any operation: which directory and log it can leave, and what
 the store recovered from them reads.
 */
module LsmCrash {
  import opened Bytes
  import opened Encoding
  import opened WalFormat
  import opened KeyOrder
  import opened MemTables
  import opened Levels
  import opened SsTables
  import opened Compaction
  import opened Disks
  import opened Lsm
  import opened LsmInvariant
  import opened LsmRecovery

  /** Every invariant of a store none of whose acknowledged writes depends on the memtable alone. */
  ghost predicate Durable(s: Store, d: DiskState) {
    RamOk(s) && DiskOk(s, d) && LogOk(s, d.wal.current)
  }

  ghost predicate SameReads(s: Store, s': Store) {
    forall k :: GetValue(s, k) == GetValue(s', k)
  }

  /** The data of the operation fits the formats' length fields and the counters. */
  predicate Room(s: Store, op: Op) {
    && (Writes(op) ==> s.nextSeq + 1 < U64_LIMIT && FrameFits(NewRecord(s, op)) && |FileImage(Insert(s.mem, NewRecord(s, op)))| < U64_LIMIT)
    && (op == FlushOp ==> |FileImage(s.mem)| < U64_LIMIT)
    && (op == CompactOp ==> |FileImage(Merge(s.tables))| < U64_LIMIT)
  }

  /** The disk state after the first `at` system calls. */
  function StateAt(d: DiskState, trace: seq<DiskState>, at: nat): DiskState
    requires at <= |trace|
  {
    if at == 0 then d else trace[at - 1]
  }

  /** The crash image c holds this log and these tables. */
  predicate Holds(c: Image, wal: bytes, ts: seq<SsTable>) {
    c.wal == wal && c.ssts == BytesOf(ts)
  }

  /** c recovers to a durable store with the counter bounded and the reads of s. */
  ghost predicate RecoversLike(c: Image, s: Store, bound: nat) {
    match Recover(c)
    case Ok(s') => Durable(s', Reboot(c)) && SameReads(s', s) && s'.nextSeq <= bound
    case _ => false
  }

  lemma RecoversTo(c: Image, wal: bytes, ts: seq<SsTable>, s: Store, bound: nat)
    requires Holds(c, wal, ts) && bound > 0
    requires Consistent(MemOf(Replay(wal)), ts) && SeqUnique(Replay(wal), TableLevels(ts))
    requires forall r :: r in Replay(wal) || Stored(TableLevels(ts), r) ==> r.seqno < bound
    requires forall k :: Read([MemOf(Replay(wal))] + TableLevels(ts), k) == GetValue(s, k)
    ensures RecoversLike(c, s, bound)
  {
    hide Recover, BytesOf, Wf, Layered, SeqUnique, Replay, MemOf, Sorted, AllFit, RamOk, LogOk, DiskOk, TableLevels;
    RecoverOpens(c, ts);
    RecoveredOk(wal, ts);
    RecoveredSeqBound(wal, ts, bound);
    RebootOk(c, ts);
  }

  // ---- what a crash can leave -------------------------------------------------------------

  /** With nothing pending a crash finds exactly the live tables, whatever becomes of the log. */
  lemma QuietTables(d: DiskState, ts: seq<SsTable>, c: Image)
    requires d.pending == [] && d.dir == DirOf(ts) && CrashImage(d, c)
    ensures c.ssts == BytesOf(ts)
  {
    hide DirOf, BytesOf;
    var k :| 0 <= k <= |d.pending| && DirOutcome(ApplyOps(d.dir, d.pending[..k]), c.ssts);
    DirOutcomeOf(ts, c.ssts);
  }

  lemma QuietImage(d: DiskState, ts: seq<SsTable>, c: Image)
    requires d.pending == [] && d.dir == DirOf(ts) && d.wal == Synced(d.wal.current)
    requires CrashImage(d, c)
    ensures Holds(c, d.wal.current, ts)
  {
    hide DirOf, BytesOf;
    QuietTables(d, ts, c);
  }

  /** With nothing pending, a crash can find everything that was written. */
  lemma WholeImage(d: DiskState, ts: seq<SsTable>) returns (c: Image)
    requires d.pending == [] && d.dir == DirOf(ts)
    ensures Holds(c, d.wal.current, ts) && CrashImage(d, c)
  {
    hide DirOf, BytesOf;
    c := Image(d.wal.current, map[], BytesOf(ts));
    DirKeys(ts);
    assert DirOutcome(ApplyOps(d.dir, d.pending[..0]), c.ssts);
  }

  /** The disk before the rename, with the rename pending, and with it synced. */
  lemma WriteStates(d: DiskState, id: nat, image: bytes, at: nat)
    requires d.pending == [] && at <= 5
    ensures var x := StateAt(d, WriteTrace(d, id, image), at);
            && x.wal == d.wal
            && (at <= 4 ==> x.dir == d.dir)
            && (at < 4 ==> x.pending == [])
            && (at == 4 ==> x.pending == [Link(id, Synced(image))])
            && (at == 5 ==> x.pending == [] && x.dir == d.dir[id := Synced(image)])
  {
    OneLink(d.dir, [Link(id, Synced(image))]);
  }

  /** While the temporary file is written nothing that recovery reads changes; the rename is atomic. */
  lemma WriteImage(d: DiskState, ts: seq<SsTable>, id: nat, rs: seq<Record>, at: nat, c: Image)
    requires d.pending == [] && d.dir == DirOf(ts) && d.wal == Synced(d.wal.current) && at <= 5
    requires CrashImage(StateAt(d, WriteTrace(d, id, FileImage(rs)), at), c)
    ensures Holds(c, d.wal.current, ts) || Holds(c, d.wal.current, [TableOf(id, rs)] + ts)
    ensures at == 5 ==> Holds(c, d.wal.current, [TableOf(id, rs)] + ts)
  {
    hide BytesOf, TableOf, WriteTrace, FileImage, StateAt;
    TableId(id, rs);
    var x := StateAt(d, WriteTrace(d, id, FileImage(rs)), at);
    WriteStates(d, id, FileImage(rs), at);
    DirOfCons(TableOf(id, rs), ts);
    hide DirOf;
    var k :| 0 <= k <= |x.pending| && DirOutcome(ApplyOps(x.dir, x.pending[..k]), c.ssts);
    if at == 4 && k == 1 {
      OneLink(d.dir, x.pending);
      DirOutcomeOf([TableOf(id, rs)] + ts, c.ssts);
    } else if at <= 4 {
      DirOutcomeOf(ts, c.ssts);
    } else {
      DirOutcomeOf([TableOf(id, rs)] + ts, c.ssts);
    }
  }

  lemma OneLink(dir: map<nat, File>, pending: seq<DirOp>)
    requires |pending| == 1 && pending[0].Link?
    ensures ApplyOps(dir, pending) == dir[pending[0].id := pending[0].file]
    ensures pending[..1] == pending
  {
    assert pending[..0] == [];
  }

  lemma WriteDone(d: DiskState, ts: seq<SsTable>, id: nat, rs: seq<Record>)
    requires d.pending == [] && d.dir == DirOf(ts)
    ensures var x := WriteTrace(d, id, FileImage(rs))[4];
            x.wal == d.wal && x.pending == [] && x.dir == DirOf([TableOf(id, rs)] + ts)
  {
    hide TableOf;
    TableId(id, rs);
    assert ([TableOf(id, rs)] + ts)[1..] == ts;
    OneLink(d.dir, [Link(id, Synced(FileImage(rs)))]);
  }

  // ---- put and delete ------------------------------------------------------------------------

  /** A frame appended to a clean log replays as one more record. */
  lemma AppendedLog(wal: bytes, r: Record)
    requires Clean(wal) && FrameFits(r)
    ensures Replay(wal + Frame(r)) == Replay(wal) + [r]
    ensures Clean(wal + Frame(r))
    ensures MemOf(Replay(wal + Frame(r))) == Insert(MemOf(Replay(wal)), r)
  {
    hide Replay, ReplayedLen, Frame, FrameFits;
    ReplayBehindClean(wal, Frame(r));
    ReplayOneFrame(r);
    MemOfAppend(Replay(wal), r);
  }

  lemma ReplayOneFrame(r: Record)
    requires FrameFits(r)
    ensures Replay(Frame(r)) == [r] && ReplayedLen(Frame(r)) == |Frame(r)|
  {
    hide Frame, FirstFrame;
    ReplayFrame(r, []);
    assert Frame(r) + [] == Frame(r);
    assert FirstFrame([]) == None by { EmptyFrame(); }
  }

  lemma EmptyFrame()
    ensures FirstFrame([]) == None
  {
  }

  /** A frame cut short leaves the replay as it was. */
  lemma TornLog(wal: bytes, r: Record, n: nat)
    requires Clean(wal) && FrameFits(r) && n < |Frame(r)|
    ensures Replay(wal + Frame(r)[..n]) == Replay(wal)
  {
    hide Replay, ReplayedLen, Frame, FrameFits;
    ReplayBehindClean(wal, Frame(r)[..n]);
    TornFrameStops(r, n, []);
    assert Frame(r)[..n] + [] == Frame(r)[..n];
    assert Replay(wal) + [] == Replay(wal);
  }

  /** Reading a store with one more logged record. */
  lemma LoggedReads(s: Store, r: Record, k: bytes)
    ensures GetValue(Logged(s, r), k) == if k == r.key then Value(Some(r)) else GetValue(s, k)
  {
    hide TableLevels, Read;
    FirstHitCons(s.mem, TableLevels(s.tables), k);
    FirstHitCons(Insert(s.mem, r), TableLevels(s.tables), k);
    LookupInsert(s.mem, r, k);
  }

  lemma LoggedRam(s: Store, r: Record)
    requires RamOk(s) && FrameFits(r) && r.seqno == s.nextSeq
    ensures RamOk(Logged(s, r))
    ensures forall x :: Stored(LevelsOf(Logged(s, r)), x) ==> x == r || Stored(LevelsOf(s), x)
  {
    hide Wf, Layered, FrameFits, Stored, Sorted, TableLevels;
    var levels := TableLevels(s.tables);
    InsertKeeps(s.mem, levels, r);
    forall x | x in Insert(s.mem, r)
      ensures FrameFits(x)
    {
      InsertMembers(s.mem, r, x);
    }
  }

  lemma LoggedLog(s: Store, wal: bytes, r: Record)
    requires RamOk(s) && LogOk(s, wal) && Clean(wal) && FrameFits(r) && r.seqno == s.nextSeq
    ensures LogOk(Logged(s, r), wal + Frame(r)) && Clean(wal + Frame(r))
  {
    hide Consistent, Replay, Frame, FrameFits, MemOf, TableLevels, Clean, LevelsOf, Stored;
    LoggedRam(s, r);
    AppendedLog(wal, r);
  }

  /** While a record is being logged, a crash keeps either the old store or the new one. */
  lemma CrashWhileLogging(s: Store, d: DiskState, r: Record, at: nat, c: Image)
    requires Durable(s, d) && Clean(d.wal.current) && FrameFits(r) && r.seqno == s.nextSeq
    requires at <= 2 && CrashImage(StateAt(d, LogTrace(d, r), at), c)
    ensures RecoversLike(c, s, s.nextSeq + 1) || RecoversLike(c, Logged(s, r), s.nextSeq + 1)
    ensures at == 2 ==> RecoversLike(c, Logged(s, r), s.nextSeq + 1)
  {
    hide Consistent, Replay, Frame, FrameFits, MemOf, TableLevels, Clean, LevelsOf, Stored, RecoversLike, DirOf, BytesOf;
    hide RamOk, LogOk;
    var wal := d.wal.current;
    LoggedRam(s, r);
    LoggedLog(s, wal, r);
    if at == 0 {
      QuietImage(d, s.tables, c);
      RecoversItself(s, wal, c, s.nextSeq + 1);
    } else if at == 2 {
      QuietImage(LogTrace(d, r)[1], s.tables, c);
      RecoversItself(Logged(s, r), wal + Frame(r), c, s.nextSeq + 1);
    } else {
      QuietTables(LogTrace(d, r)[0], s.tables, c);
      PrefixBetween(wal, Frame(r), c.wal);
      var n := |c.wal| - |wal|;
      if n < |Frame(r)| {
        TornLog(wal, r, n);
        LogOkSameReplay(s, wal, c.wal);
        RecoversItself(s, c.wal, c, s.nextSeq + 1);
      } else {
        assert Frame(r)[..n] == Frame(r);
        RecoversItself(Logged(s, r), wal + Frame(r), c, s.nextSeq + 1);
      }
    }
  }

  lemma LogOkSameReplay(s: Store, wal: bytes, wal': bytes)
    requires LogOk(s, wal) && Replay(wal') == Replay(wal)
    ensures LogOk(s, wal')
  {
  }

  lemma PrefixBetween(wal: bytes, f: bytes, c: bytes)
    requires c == wal || (c <= wal + f && wal <= c)
    ensures |wal| <= |c| <= |wal| + |f| && c == wal + f[..|c| - |wal|]
  {
    assert c == (wal + f)[..|c|];
  }

  /** An image holding exactly the log and the tables of a store recovers that store. */
  lemma RecoversItself(s: Store, wal: bytes, c: Image, bound: nat)
    requires RamOk(s) && LogOk(s, wal) && Holds(c, wal, s.tables) && s.nextSeq <= bound
    ensures RecoversLike(c, s, bound)
  {
    hide Replay, MemOf, Wf, Layered, RecoversLike, Holds, Sorted, AllFit, Read;
    StoredCons(s.mem, TableLevels(s.tables));
    RecoversTo(c, wal, s.tables, s, bound);
  }

  /** Once the log is synced the write is part of a durable store. */
  lemma LoggedDurable(s: Store, d: DiskState, r: Record)
    requires Durable(s, d) && Clean(d.wal.current) && FrameFits(r) && r.seqno == s.nextSeq
    ensures Durable(Logged(s, r), LogTrace(d, r)[1]) && Clean(LogTrace(d, r)[1].wal.current)
  {
    hide Consistent, Frame, FrameFits, TableLevels, Clean, LevelsOf, Stored, DirOf, RamOk, LogOk;
    LoggedRam(s, r);
    LoggedLog(s, d.wal.current, r);
  }

  // ---- flush ------------------------------------------------------------------------------------

  lemma FlushedTables(s: Store)
    requires ShapeOk(s) && |FileImage(s.mem)| < U64_LIMIT && s.mem != []
    ensures TablesOk(Flushed(s).tables)
    ensures TableLevels(Flushed(s).tables) == [s.mem] + TableLevels(s.tables)
  {
    hide Stored, Records, TableOf, FileImage, Sorted, FrameFits, LevelsOf, Wf;
    var t := TableOf(s.nextId, s.mem);
    WrittenTable(s.nextId, s.mem);
    TableId(s.nextId, s.mem);
    TableLevelsCons(t, s.tables);
    TablesOkCons(t, s.tables);
  }

  lemma SameSeqUnique(a: seq<seq<Record>>, b: seq<seq<Record>>)
    requires SeqUnique([], a) && forall x :: Stored(b, x) <==> Stored(a, x)
    ensures SeqUnique([], b)
  {
    hide Stored;
  }

  lemma FlushedOrder(s: Store)
    requires RamOk(s) && |FileImage(s.mem)| < U64_LIMIT && s.mem != []
    ensures RamOk(Flushed(s)) && Consistent(s.mem, Flushed(s).tables)
    ensures forall x :: Stored(LevelsOf(Flushed(s)), x) <==> Stored(LevelsOf(s), x)
    ensures TableLevels(Flushed(s).tables) == [s.mem] + TableLevels(s.tables)
  {
    hide Layered, Stored, TableOf, FileImage, Sorted, FrameFits, TablesOk, TableLevels, ShapeOk, SeqUnique;
    RamShape(s);
    FlushedTables(s);
    FlushKeeps(s.mem, TableLevels(s.tables));
    SortedEmpty();
    TableId(s.nextId, s.mem);
    SameSeqUnique(LevelsOf(s), LevelsOf(Flushed(s)));
  }

  lemma FlushedRam(s: Store)
    requires RamOk(s) && |FileImage(s.mem)| < U64_LIMIT
    ensures RamOk(Flushed(s))
    ensures forall x :: Stored(LevelsOf(Flushed(s)), x) <==> Stored(LevelsOf(s), x)
    ensures SameReads(Flushed(s), s)
    ensures s.mem != [] ==> TableLevels(Flushed(s).tables) == [s.mem] + TableLevels(s.tables)
    ensures s.mem != [] ==> Consistent(s.mem, Flushed(s).tables)
  {
    hide RamOk, Consistent, Stored, TableLevels, FileImage, TableOf, GetValue;
    if s.mem != [] {
      FlushedOrder(s);
      FlushedSameReads(s);
    }
  }

  lemma FlushedSameReads(s: Store)
    requires s.mem != [] && TableLevels(Flushed(s).tables) == [s.mem] + TableLevels(s.tables)
    ensures SameReads(Flushed(s), s)
  {
    hide Read, TableOf, TableLevels;
    forall k
      ensures GetValue(Flushed(s), k) == GetValue(s, k)
    {
      FlushReads(s.mem, TableLevels(s.tables), k);
    }
  }

  lemma SortedEmpty()
    ensures Sorted([])
  {
  }

  lemma TablesOkCons(t: SsTable, ts: seq<SsTable>)
    requires TablesOk(ts) && Wf(t) && forall i :: 0 <= i < |ts| ==> ts[i].id < t.id
    ensures TablesOk([t] + ts)
  {
    hide Wf;
  }

  /** A completed flush leaves the new table in the directory and an empty log. */
  lemma FlushedDisk(s: Store, d: DiskState)
    requires DiskOk(s, d) && s.mem != []
    ensures DiskOk(Flushed(s), Last(d, FlushTrace(s, d)))
    ensures Last(d, FlushTrace(s, d)).wal.current == []
  {
    hide DirOf, WriteTrace, TableOf, FileImage;
    WriteDone(d, s.tables, s.nextId, s.mem);
  }

  /** The flushed store is durable whatever the log held before it was reset. */
  lemma FlushedDurable(s: Store, d: DiskState)
    requires RamOk(s) && DiskOk(s, d) && s.mem != [] && |FileImage(s.mem)| < U64_LIMIT
    ensures Durable(Flushed(s), Last(d, FlushTrace(s, d)))
    ensures Last(d, FlushTrace(s, d)).wal.current == []
  {
    hide RamOk, DiskOk, TableOf, FileImage, FlushTrace;
    FlushedRam(s);
    FlushedDisk(s, d);
    EmptyLog(Flushed(s));
  }

  lemma EmptyLog(s: Store)
    requires s.mem == [] && RamOk(s)
    ensures LogOk(s, [])
  {
    hide Consistent, LevelsOf, Stored;
    EmptyFrame();
    hide FirstFrame;
    assert Replay([]) == [];
  }

  /** A crash anywhere in a flush finds the old tables, or the new table in front of them with the old log or an empty one. */
  lemma FlushImage(s: Store, d: DiskState, at: nat, c: Image)
    requires DiskOk(s, d) && at <= |FlushTrace(s, d)| && CrashImage(StateAt(d, FlushTrace(s, d), at), c)
    ensures Holds(c, d.wal.current, s.tables)
            || (s.mem != [] && (Holds(c, d.wal.current, Flushed(s).tables) || Holds(c, [], Flushed(s).tables)))
  {
    hide DirOf, BytesOf, WriteTrace, TableOf, FileImage, Holds;
    if s.mem == [] {
      QuietImage(d, s.tables, c);
    } else {
      var write := WriteTrace(d, s.nextId, FileImage(s.mem));
      var flushed := [TableOf(s.nextId, s.mem)] + s.tables;
      WriteDone(d, s.tables, s.nextId, s.mem);
      if at <= 5 {
        assert StateAt(d, FlushTrace(s, d), at) == StateAt(d, write, at);
        WriteImage(d, s.tables, s.nextId, s.mem, at, c);
      } else if at == 6 {
        var cut := TruncateWal(write[4]);
        assert StateAt(d, FlushTrace(s, d), at) == cut;
        QuietTables(cut, flushed, c);
        HoldsDef(c, flushed);
      } else {
        QuietImage(SyncWal(TruncateWal(write[4])), flushed, c);
      }
    }
  }

  /** A crash anywhere in a flush loses nothing. */
  lemma CrashWhileFlushing(s: Store, d: DiskState, at: nat, c: Image)
    requires Durable(s, d) && |FileImage(s.mem)| < U64_LIMIT
    requires at <= |FlushTrace(s, d)| && CrashImage(StateAt(d, FlushTrace(s, d), at), c)
    ensures RecoversLike(c, s, s.nextSeq)
  {
    hide Consistent, Replay, TableLevels, LevelsOf, Stored, DirOf, BytesOf, RamOk, LogOk, WriteTrace, TableOf, FileImage,
         RecoversLike, MemOf, Holds, CrashImage, FlushTrace;
    FlushImage(s, d, at, c);
    if s.mem == [] {
      RecoversItself(s, d.wal.current, c, s.nextSeq);
    } else {
      RecoversBesideFlushed(s, d.wal.current, c);
    }
  }

  lemma HoldsDef(c: Image, ts: seq<SsTable>)
    requires c.ssts == BytesOf(ts)
    ensures Holds(c, c.wal, ts)
  {
  }

  /** The three pairs of log and tables a flush can leave all read like the store before it. */
  lemma RecoversBesideFlushed(s: Store, wal: bytes, c: Image)
    requires RamOk(s) && LogOk(s, wal) && s.mem != [] && |FileImage(s.mem)| < U64_LIMIT
    requires Holds(c, wal, s.tables) || Holds(c, wal, Flushed(s).tables) || Holds(c, [], Flushed(s).tables)
    ensures RecoversLike(c, s, s.nextSeq)
  {
    hide Replay, MemOf, Wf, Layered, RecoversLike, Holds, Sorted, AllFit, Read, TableOf, FileImage, Stored, TablesOk, TableLevels;
    var levels := TableLevels(s.tables);
    FlushedRam(s);
    if Holds(c, wal, s.tables) {
      RecoversItself(s, wal, c, s.nextSeq);
    } else if Holds(c, [], Flushed(s).tables) {
      EmptyLog(Flushed(s));
      RecoversItself(Flushed(s), [], c, s.nextSeq);
      RecoversSame(c, Flushed(s), s, s.nextSeq);
    } else {
      StoredCons(s.mem, levels);
      forall k
        ensures Read([s.mem] + ([s.mem] + levels), k) == GetValue(s, k)
      {
        FlushReads(s.mem, levels, k);
      }
      RecoversTo(c, wal, Flushed(s).tables, s, s.nextSeq);
    }
  }

  lemma RecoversSame(c: Image, s: Store, s': Store, bound: nat)
    requires RecoversLike(c, s, bound) && SameReads(s, s')
    ensures RecoversLike(c, s', bound)
  {
    hide Durable, Recover, GetValue;
  }

  // ---- compaction -----------------------------------------------------------------------------------

  /** The store with the merge in front of some of the tables it was made from. */
  function Beside(s: Store, rest: seq<SsTable>): Store {
    s.(tables := [TableOf(s.nextId, Merge(s.tables))] + rest, nextId := s.nextId + 1)
  }

  /** rest is part of the tables, in order. */
  ghost predicate Among(rest: seq<SsTable>, ts: seq<SsTable>) {
    && TablesOk(rest) && Layered(TableLevels(rest))
    && (forall i :: 0 <= i < |rest| ==> rest[i] in ts)
    && (forall x :: Stored(TableLevels(rest), x) ==> Stored(TableLevels(ts), x))
  }

  lemma BesideRam(s: Store, rest: seq<SsTable>)
    requires RamOk(s) && |FileImage(Merge(s.tables))| < U64_LIMIT && Among(rest, s.tables)
    ensures RamOk(Beside(s, rest))
    ensures forall x :: Stored(LevelsOf(Beside(s, rest)), x) ==> Stored(LevelsOf(s), x)
    ensures LevelsOf(Beside(s, rest)) == [s.mem] + ([Merge(s.tables)] + TableLevels(rest))
  {
    hide Layered, Stored, Records, TableOf, FileImage, Sorted, FrameFits, Wf, Merged;
    var m, levels := Merge(s.tables), TableLevels(s.tables);
    TableLevelsSorted(s.tables);
    RamShape(s);
    MergeWritable(s);
    WrittenTable(s.nextId, m);
    TableId(s.nextId, m);
    TableLevelsCons(TableOf(s.nextId, m), rest);
    MergeInFront(s.mem, levels, TableLevels(rest));
    TablesOkCons(TableOf(s.nextId, m), rest);
  }

  lemma BesideLog(s: Store, rest: seq<SsTable>, wal: bytes)
    requires RamOk(s) && LogOk(s, wal) && |FileImage(Merge(s.tables))| < U64_LIMIT && Among(rest, s.tables)
    ensures LogOk(Beside(s, rest), wal)
  {
    hide Consistent, LevelsOf, Stored, Replay, MemOf, RamOk, FileImage, Merge, TableOf, Among;
    BesideRam(s, rest);
  }

  /** A crash image with the merge beside these tables recovers s if they read alike. */
  lemma RecoversBeside(s: Store, rest: seq<SsTable>, wal: bytes, c: Image)
    requires RamOk(s) && LogOk(s, wal) && |FileImage(Merge(s.tables))| < U64_LIMIT && Among(rest, s.tables)
    requires SameReads(Beside(s, rest), s) && Holds(c, wal, Beside(s, rest).tables)
    ensures RecoversLike(c, s, s.nextSeq)
  {
    hide Consistent, LevelsOf, Stored, Replay, MemOf, RamOk, LogOk, FileImage, Merge, TableOf, Holds, RecoversLike, Among, SameReads;
    BesideRam(s, rest);
    BesideLog(s, rest, wal);
    RecoversItself(Beside(s, rest), wal, c, s.nextSeq);
    RecoversSame(c, Beside(s, rest), s, s.nextSeq);
  }

  /** The store with the merge in front of the tables from position j on. */
  function PartlyCompacted(s: Store, j: nat): Store
    requires j <= |s.tables|
  {
    Beside(s, s.tables[j..])
  }

  lemma SuffixAmong(s: Store, j: nat)
    requires RamOk(s) && j <= |s.tables|
    ensures Among(s.tables[j..], s.tables) && TableLevels(s.tables[j..]) == TableLevels(s.tables)[j..]
  {
    hide Layered, Stored, Records, Sorted, FrameFits, Wf;
    var levels := TableLevels(s.tables);
    LayeredUncons(s.mem, levels);
    assert TableLevels(s.tables[j..]) == levels[j..];
    LayeredSuffix(levels, j);
    forall x | Stored(levels[j..], x)
      ensures Stored(levels, x)
    {
      StoredSuffix(levels, j, x);
    }
  }

  lemma PartlyCompactedRam(s: Store, j: nat)
    requires RamOk(s) && |FileImage(Merge(s.tables))| < U64_LIMIT && j <= |s.tables|
    ensures RamOk(PartlyCompacted(s, j))
    ensures forall x :: Stored(LevelsOf(PartlyCompacted(s, j)), x) ==> Stored(LevelsOf(s), x)
    ensures j == 0 || j == |s.tables| || !ShadowedPut(s.mem, TableLevels(s.tables)) ==> SameReads(PartlyCompacted(s, j), s)
  {
    hide Layered, Stored, Read, Records, TableOf, FileImage, Sorted, Merged, FrameFits, ShadowedPut, Wf, Among;
    var m, levels := Merge(s.tables), TableLevels(s.tables);
    SuffixAmong(s, j);
    BesideRam(s, s.tables[j..]);
    TableLevelsSorted(s.tables);
    LayeredUncons(s.mem, levels);
    if j == 0 || j == |s.tables| || !ShadowedPut(s.mem, levels) {
      forall k
        ensures GetValue(PartlyCompacted(s, j), k) == GetValue(s, k)
      {
        CompactionPreservesReads(s.mem, levels, k);
        assert levels[0..] == levels && levels[|levels|..] == [] && [m] + [] == [m];
        if 0 < j < |s.tables| { NewestFirstSafe(s.mem, levels, j, k); }
      }
    }
  }

  lemma MergeWritable(s: Store)
    requires ShapeOk(s) && |FileImage(Merge(s.tables))| < U64_LIMIT
    ensures Writable(Merge(s.tables))
  {
    hide Stored, FileImage, Sorted, Merged, FrameFits, Records;
    MergedStored(TableLevels(s.tables));
    forall r | r in Merge(s.tables)
      ensures FrameFits(r)
    {
      StoredFits(s.tables, r);
    }
  }

  lemma StoredFits(ts: seq<SsTable>, r: Record)
    requires TablesOk(ts) && Stored(TableLevels(ts), r)
    ensures FrameFits(r)
  {
    hide TableOf, FileImage, Records, FrameFits, Sorted;
    var i :| 0 <= i < |ts| && r in TableLevels(ts)[i];
    assert Wf(ts[i]);
  }

  /** Pending unlinks of the newest tables, cut at any point, leave a suffix of them behind the merge. */
  lemma {:induction false} UnlinkOps(m: SsTable, ts: seq<SsTable>, j: nat)
    requires DescendingIds([m] + ts) && j <= |ts|
    ensures ApplyOps(DirOf([m] + ts), Unlinks(ts[..j])) == DirOf([m] + ts[j..])
    decreases j
  {
    if j == 0 {
      assert ts[0..] == ts;
    } else {
      var ops := Unlinks(ts[..j]);
      assert ts[..j][..j - 1] == ts[..j - 1];
      assert ops[..|ops| - 1] == Unlinks(ts[..j - 1]);
      UnlinkOps(m, ts, j - 1);
      UnlinkOne(m, ts[j - 1..]);
      assert ts[j - 1..][1..] == ts[j..];
    }
  }

  /** The directory changes of removing these tables in order. */
  function Unlinks(ts: seq<SsTable>): (ops: seq<DirOp>)
    ensures |ops| == |ts|
  {
    seq(|ts|, i requires 0 <= i < |ts| => Unlink(ts[i].id))
  }

  lemma DirOfCons(t: SsTable, ts: seq<SsTable>)
    ensures DirOf([t] + ts) == DirOf(ts)[t.id := Synced(t.file)]
  {
    assert ([t] + ts)[1..] == ts;
  }

  lemma RemoveUnder(base: map<nat, File>, a: nat, fa: File, b: nat, fb: File)
    requires a != b && b !in base
    ensures base[b := fb][a := fa] - {b} == base[a := fa]
  {
  }

  lemma UnlinkOne(m: SsTable, ts: seq<SsTable>)
    requires ts != [] && m.id > ts[0].id && forall i :: 0 < i < |ts| ==> ts[0].id > ts[i].id
    ensures DirOf([m] + ts) - {ts[0].id} == DirOf([m] + ts[1..])
  {
    var rest := ts[1..];
    DirKeys(rest);
    hide DirOf;
    assert ts == [ts[0]] + rest;
    DirOfCons(m, ts);
    DirOfCons(ts[0], rest);
    DirOfCons(m, rest);
    RemoveUnder(DirOf(rest), m.id, Synced(m.file), ts[0].id, Synced(ts[0].file));
  }

  lemma {:induction false} UnlinkState(d: DiskState, ts: seq<SsTable>, j: nat)
    requires d.pending == [] && 0 < j <= |ts|
    ensures UnlinkTrace(d, Ids(ts))[j - 1] == d.(pending := Unlinks(ts[..j]))
    decreases |ts|
  {
    var n := |ts|;
    assert Ids(ts)[..n - 1] == Ids(ts[..n - 1]);
    if j < n {
      assert ts[..n - 1][..j] == ts[..j];
      UnlinkState(d, ts[..n - 1], j);
    } else if n > 1 {
      assert ts[..n - 1][..n - 1] == ts[..n - 1];
      UnlinkState(d, ts[..n - 1], n - 1);
      assert ts[..n] == ts;
      assert Unlinks(ts) == Unlinks(ts[..n - 1]) + [Unlink(ts[n - 1].id)];
    } else {
      assert Unlinks(ts[..1]) == [Unlink(ts[0].id)];
    }
  }

  /** What a crash inside the unlink loop can leave: the merge in front of some suffix of the old tables. */
  lemma UnlinkImage(d: DiskState, m: SsTable, ts: seq<SsTable>, j: nat, c: Image) returns (i: nat)
    requires d.pending == [] && d.dir == DirOf([m] + ts) && d.wal == Synced(d.wal.current)
    requires DescendingIds([m] + ts) && 0 < j <= |ts|
    requires CrashImage(UnlinkTrace(d, Ids(ts))[j - 1], c)
    ensures i <= j && Holds(c, d.wal.current, [m] + ts[i..])
  {
    hide DirOf, BytesOf;
    UnlinkState(d, ts, j);
    var x := UnlinkTrace(d, Ids(ts))[j - 1];
    i :| 0 <= i <= |x.pending| && DirOutcome(ApplyOps(x.dir, x.pending[..i]), c.ssts);
    assert Unlinks(ts[..j])[..i] == Unlinks(ts[..i]) by { assert ts[..j][..i] == ts[..i]; }
    UnlinkOps(m, ts, i);
    DirOutcomeOf([m] + ts[i..], c.ssts);
  }

  lemma UnlinkDone(d: DiskState, m: SsTable, ts: seq<SsTable>)
    requires d.pending == [] && d.dir == DirOf([m] + ts) && DescendingIds([m] + ts) && ts != []
    ensures SyncDir(Last(d, UnlinkTrace(d, Ids(ts)))) == d.(dir := DirOf([m]))
  {
    hide DirOf;
    UnlinkState(d, ts, |ts|);
    assert ts[..|ts|] == ts && ts[|ts|..] == [] && [m] + [] == [m];
    UnlinkOps(m, ts, |ts|);
  }

  /** The disk positions of a compaction: up to the durable merge, inside the unlink loop, after the directory sync. */
  predicate InUnlinkLoop(s: Store, op: Op, at: nat) {
    op == CompactOp && |s.tables| >= 2 && 5 < at <= 5 + |s.tables|
  }

  /** A crash in a compaction finds the old tables, or the merge in front of those not yet unlinked. */
  lemma CompactImage(s: Store, d: DiskState, at: nat, c: Image) returns (j: nat)
    requires ShapeOk(s) && DiskOk(s, d) && at <= |CompactTrace(s, d)| && CrashImage(StateAt(d, CompactTrace(s, d), at), c)
    ensures j <= |s.tables| && (j == 0 || j == |s.tables| || InUnlinkLoop(s, CompactOp, at))
    ensures Holds(c, d.wal.current, s.tables)
            || (|s.tables| >= 2 && Holds(c, d.wal.current, [TableOf(s.nextId, Merge(s.tables))] + s.tables[j..]))
  {
    hide ShapeOk, DirOf, BytesOf, WriteTrace, TableOf, FileImage, UnlinkTrace, Holds, Merge;
    var n := |s.tables|;
    j := 0;
    if n < 2 {
      QuietImage(d, s.tables, c);
    } else {
      var write := WriteTrace(d, s.nextId, FileImage(Merge(s.tables)));
      var m := TableOf(s.nextId, Merge(s.tables));
      TableId(s.nextId, Merge(s.tables));
      WriteDone(d, s.tables, s.nextId, Merge(s.tables));
      CompactionIds(s, m);
      assert s.tables[0..] == s.tables && s.tables[n..] == [] && [m] + [] == [m];
      if at <= 5 {
        assert StateAt(d, CompactTrace(s, d), at) == StateAt(d, write, at);
        WriteImage(d, s.tables, s.nextId, Merge(s.tables), at, c);
      } else if at <= 5 + n {
        var unlink := UnlinkTrace(write[4], Ids(s.tables));
        assert StateAt(d, CompactTrace(s, d), at) == unlink[at - 6];
        j := UnlinkImage(write[4], m, s.tables, at - 5, c);
      } else {
        UnlinkDone(write[4], m, s.tables);
        assert StateAt(d, CompactTrace(s, d), at) == SyncDir(Last(write[4], UnlinkTrace(write[4], Ids(s.tables))));
        QuietImage(StateAt(d, CompactTrace(s, d), at), [m], c);
        j := n;
      }
    }
  }

  /** A crash in a compaction keeps every read, except inside the unlink loop over a shadowed put. */
  lemma CrashWhileCompacting(s: Store, d: DiskState, at: nat, c: Image)
    requires Durable(s, d) && |FileImage(Merge(s.tables))| < U64_LIMIT
    requires at <= |CompactTrace(s, d)| && CrashImage(StateAt(d, CompactTrace(s, d), at), c)
    requires InUnlinkLoop(s, CompactOp, at) ==> !ShadowedPut(s.mem, TableLevels(s.tables))
    ensures RecoversLike(c, s, s.nextSeq)
  {
    RamShape(s);
    hide RamOk, ShapeOk, DiskOk, LogOk, CompactTrace, CrashImage, StateAt, InUnlinkLoop, ShadowedPut, TableLevels, Merge, TableOf,
         FileImage, Holds, RecoversLike;
    var j := CompactImage(s, d, at, c);
    if Holds(c, d.wal.current, s.tables) {
      RecoversItself(s, d.wal.current, c, s.nextSeq);
    } else {
      RecoversPartly(s, d.wal.current, j, c);
    }
  }

  /** The image of a crash after the newest j inputs are unlinked, with all of that on the device. */
  lemma UnlinkedImage(s: Store, d: DiskState, j: nat) returns (c: Image)
    requires ShapeOk(s) && DiskOk(s, d) && 0 < j <= |s.tables| && |s.tables| >= 2
    ensures 5 + j <= |CompactTrace(s, d)| && CrashImage(StateAt(d, CompactTrace(s, d), 5 + j), c)
    ensures Holds(c, d.wal.current, [TableOf(s.nextId, Merge(s.tables))] + s.tables[j..])
  {
    hide DirOf, BytesOf, WriteTrace, TableOf, FileImage, UnlinkTrace, Merge, ShapeOk;
    var m := TableOf(s.nextId, Merge(s.tables));
    var written := WriteTrace(d, s.nextId, FileImage(Merge(s.tables)))[4];
    var rest := [m] + s.tables[j..];
    TableId(s.nextId, Merge(s.tables));
    WriteDone(d, s.tables, s.nextId, Merge(s.tables));
    CompactionIds(s, m);
    UnlinkState(written, s.tables, j);
    UnlinkOps(m, s.tables, j);
    DirKeys(rest);
    c := Image(d.wal.current, map[], BytesOf(rest));
    var x := StateAt(d, CompactTrace(s, d), 5 + j);
    assert x == UnlinkTrace(written, Ids(s.tables))[j - 1];
    assert x.pending[..j] == x.pending;
    assert DirOutcome(ApplyOps(x.dir, x.pending[..j]), c.ssts);
  }

  /** Some crash in the unlink loop brings a shadowed put back. */
  lemma CompactionResurrects(s: Store, d: DiskState, r: Record) returns (at: nat, c: Image)
    requires Durable(s, d) && |FileImage(Merge(s.tables))| < U64_LIMIT && Shadowed(s.mem, TableLevels(s.tables), r)
    ensures at <= |CompactTrace(s, d)| && CrashImage(StateAt(d, CompactTrace(s, d), at), c)
    ensures GetValue(s, r.key) == None && Recover(c).Ok? && GetValue(Recover(c).value, r.key) == Some(r.value.bytes)
  {
    hide Layered, Stored, Read, Records, TableOf, FileImage, Sorted, Shadowed, Wf, CompactTrace, StateAt, CrashImage,
         Replay, MemOf, BytesOf, Recover;
    var levels := TableLevels(s.tables);
    TableLevelsSorted(s.tables);
    LayeredUncons(s.mem, levels);
    RamShape(s);
    var j := NewestFirstResurrects(s.mem, levels, r);
    at := 5 + j;
    c := UnlinkedImage(s, d, j);
    var p := PartlyCompacted(s, j);
    PartlyCompactedRam(s, j);
    RecoverOpens(c, p.tables);
    MergeWritable(s);
    WrittenTable(s.nextId, Merge(s.tables));
    TableLevelsCons(TableOf(s.nextId, Merge(s.tables)), s.tables[j..]);
    assert TableLevels(s.tables[j..]) == levels[j..];
  }

  lemma SomeShadowed(mem: seq<Record>, levels: seq<seq<Record>>) returns (r: Record)
    requires ShadowedPut(mem, levels)
    ensures Shadowed(mem, levels, r) && r.value.Put?
  {
    r :| Shadowed(mem, levels, r);
  }

  /** A crash anywhere in the compaction recovers a durable store with the same reads. */
  ghost predicate CrashSafe(s: Store, d: DiskState) {
    forall at: nat, c :: at <= |CompactTrace(s, d)| && CrashImage(StateAt(d, CompactTrace(s, d), at), c) ==>
      RecoversLike(c, s, s.nextSeq)
  }

  /** Every crash of a compaction is harmless exactly when no put is shadowed as it starts. */
  lemma CompactionCrashSafeIff(s: Store, d: DiskState)
    requires Durable(s, d) && |FileImage(Merge(s.tables))| < U64_LIMIT
    ensures CrashSafe(s, d) <==> !ShadowedPut(s.mem, TableLevels(s.tables))
  {
    hide Durable, CompactTrace, CrashImage, StateAt, FileImage, Recover, ShadowedPut, GetValue, Merge, TableLevels;
    if ShadowedPut(s.mem, TableLevels(s.tables)) {
      var r := SomeShadowed(s.mem, TableLevels(s.tables));
      var at, c := CompactionResurrects(s, d, r);
      assert !RecoversLike(c, s, s.nextSeq);
    } else {
      forall at: nat, c | at <= |CompactTrace(s, d)| && CrashImage(StateAt(d, CompactTrace(s, d), at), c)
        ensures RecoversLike(c, s, s.nextSeq)
      {
        CrashWhileCompacting(s, d, at, c);
      }
    }
  }

  lemma CompactionIds(s: Store, m: SsTable)
    requires ShapeOk(s) && m.id == s.nextId
    ensures DescendingIds([m] + s.tables)
  {
    hide Wf, Stored, Sorted, AllFit, TableLevels;
  }

  lemma RecoversPartly(s: Store, wal: bytes, j: nat, c: Image)
    requires RamOk(s) && LogOk(s, wal) && |FileImage(Merge(s.tables))| < U64_LIMIT && j <= |s.tables|
    requires j == 0 || j == |s.tables| || !ShadowedPut(s.mem, TableLevels(s.tables))
    requires Holds(c, wal, [TableOf(s.nextId, Merge(s.tables))] + s.tables[j..])
    ensures RecoversLike(c, s, s.nextSeq)
  {
    hide Consistent, LevelsOf, Stored, RamOk, LogOk, FileImage, Merge, TableOf, Holds, RecoversLike, ShadowedPut, Among;
    PartlyCompactedRam(s, j);
    SuffixAmong(s, j);
    RecoversBeside(s, s.tables[j..], wal, c);
  }

  lemma CompactedDisk(s: Store, d: DiskState)
    requires ShapeOk(s) && DiskOk(s, d)
    ensures DiskOk(Compacted(s), Last(d, CompactTrace(s, d)))
    ensures Last(d, CompactTrace(s, d)).wal == d.wal
  {
    if |s.tables| >= 2 {
      hide ShapeOk, DirOf, WriteTrace, TableOf, FileImage, UnlinkTrace, Merge, SyncDir, Last;
      var m := TableOf(s.nextId, Merge(s.tables));
      var written := WriteTrace(d, s.nextId, FileImage(Merge(s.tables)))[4];
      TableId(s.nextId, Merge(s.tables));
      WriteDone(d, s.tables, s.nextId, Merge(s.tables));
      CompactionIds(s, m);
      UnlinkDone(written, m, s.tables);
      LastOfCompact(s, d);
    }
  }

  lemma LastOfCompact(s: Store, d: DiskState)
    requires |s.tables| >= 2
    ensures var written := WriteTrace(d, s.nextId, FileImage(Merge(s.tables)))[4];
            Last(d, CompactTrace(s, d)) == SyncDir(Last(written, UnlinkTrace(written, Ids(s.tables))))
  {
    hide WriteTrace, FileImage, Merge, UnlinkTrace, SyncDir;
  }

  lemma CompactedIsLast(s: Store)
    requires |s.tables| >= 2
    ensures PartlyCompacted(s, |s.tables|) == Compacted(s)
  {
    hide TableOf, Merge;
    assert s.tables[|s.tables|..] == [];
  }

  /** Completed, compaction keeps every invariant and every read. */
  lemma CompactedOk(s: Store, d: DiskState)
    requires RamOk(s) && DiskOk(s, d) && |FileImage(Merge(s.tables))| < U64_LIMIT
    ensures RamOk(Compacted(s)) && DiskOk(Compacted(s), Last(d, CompactTrace(s, d)))
    ensures SameReads(Compacted(s), s)
    ensures Last(d, CompactTrace(s, d)).wal == d.wal
    ensures LogOk(s, d.wal.current) ==> LogOk(Compacted(s), d.wal.current)
  {
    hide RamOk, LogOk, DiskOk, CompactTrace, Merge, FileImage, TableOf, ShadowedPut, GetValue;
    RamShape(s);
    hide ShapeOk;
    CompactedDisk(s, d);
    if |s.tables| >= 2 {
      CompactedIsLast(s);
      PartlyCompactedRam(s, |s.tables|);
      SuffixAmong(s, |s.tables|);
      if LogOk(s, d.wal.current) { BesideLog(s, s.tables[|s.tables|..], d.wal.current); }
    }
  }
}
