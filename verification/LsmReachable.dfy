/**
 Every run that can happen, crashes behind torn log tails and inside unlink loops included:
 the store always reopens and its counters stay above everything stored. And every run
 that only keeps writes from sitting behind a torn tail: its levels stay in order.
 */
module LsmReachable {
  import opened Bytes
  import opened Encoding
  import opened WalFormat
  import opened KeyOrder
  import opened MemTables
  import opened Levels
  import opened SsTables
  import opened Compaction
  import opened Disks
  import opened Lsm
  import opened LsmInvariant
  import opened LsmRecovery
  import opened LsmCrash
  import opened LsmReads
  import opened LsmRuns

  // ---- one completed operation ------------------------------------------------------------------

  lemma LoggedShape(s: Store, r: Record)
    requires ShapeOk(s) && FrameFits(r) && r.seqno == s.nextSeq
    ensures ShapeOk(Logged(s, r))
  {
    hide TablesOk, Sorted, FrameFits, Stored, TableLevels;
    var mem, levels := Insert(s.mem, r), TableLevels(s.tables);
    InsertSorted(s.mem, r);
    StoredCons(s.mem, levels);
    StoredCons(mem, levels);
    forall x | x in mem
      ensures x == r || x in s.mem
    {
      InsertMembers(s.mem, r, x);
    }
  }

  lemma FlushedShape(s: Store)
    requires ShapeOk(s) && |FileImage(s.mem)| < U64_LIMIT
    ensures ShapeOk(Flushed(s))
  {
    if s.mem != [] {
      hide TablesOk, FrameFits, Stored, TableLevels, FileImage, TableOf;
      FlushedTables(s);
      TableId(s.nextId, s.mem);
      StoredCons([], [s.mem] + TableLevels(s.tables));
    }
  }

  /** The merge in front of the tables from position j on. */
  lemma PartlyCompactedShape(s: Store, j: nat)
    requires ShapeOk(s) && |FileImage(Merge(s.tables))| < U64_LIMIT && j <= |s.tables|
    ensures ShapeOk(PartlyCompacted(s, j))
  {
    hide Wf, FrameFits, Stored, Records, Merged, FileImage, TableOf, Sorted, AllFit;
    var m, levels, rest := Merge(s.tables), TableLevels(s.tables), s.tables[j..];
    assert TablesOk(rest) && forall i :: 0 <= i < |rest| ==> rest[i] == s.tables[i + j];
    hide TablesOk;
    MergeWritable(s);
    WrittenTable(s.nextId, m);
    TableId(s.nextId, m);
    TablesOkCons(TableOf(s.nextId, m), rest);
    TableLevelsCons(TableOf(s.nextId, m), rest);
    assert TableLevels(rest) == levels[j..];
    hide TableLevels;
    MergedStored(levels);
    StoredCons(s.mem, levels);
    StoredCons(m, levels[j..]);
    StoredCons(s.mem, [m] + levels[j..]);
    forall x | Stored(levels[j..], x)
      ensures Stored(levels, x)
    {
      StoredSuffix(levels, j, x);
    }
  }

  /** Every operation keeps the shape of the store and the directory, whatever the log holds. */
  lemma OperationKeepsShape(s: Store, d: DiskState, op: Op, limit: nat)
    requires ShapeOk(s) && DiskOk(s, d) && Room(s, op)
    ensures ShapeOk(After(s, op, limit)) && DiskOk(After(s, op, limit), Last(d, Trace(s, d, op, limit)))
  {
    hide ShapeOk, DiskOk, FlushTrace, CompactTrace, Merge, FileImage, Frame, FrameFits, TableOf;
    match op
    case FlushOp =>
      FlushedShape(s);
      if s.mem != [] { FlushedDisk(s, d); } else { NoFlush(s, d); }
    case CompactOp =>
      CompactedDisk(s, d);
      if |s.tables| >= 2 {
        PartlyCompactedShape(s, |s.tables|);
        CompactedIsLast(s);
      }
    case _ =>
      var r := NewRecord(s, op);
      var s1, d1 := Logged(s, r), LogTrace(d, r)[1];
      LoggedShape(s, r);
      LoggedDisk(s, d, r);
      LoggedMem(s, r);
      if Full(s1, limit) {
        FlushedShape(s1);
        FlushedDisk(s1, d1);
        TraceWithFlush(s, d, op, limit);
      }
  }

  // ---- one crash ----------------------------------------------------------------------------------

  /** Well-formed tables and any log open into a store with its counters in order. */
  lemma ReopensInShape(c: Image, ts: seq<SsTable>)
    requires TablesOk(ts) && c.ssts == BytesOf(ts)
    ensures Recover(c) == Ok(RecoveredStore(c.wal, ts))
    ensures ShapeOk(RecoveredStore(c.wal, ts)) && DiskOk(RecoveredStore(c.wal, ts), Reboot(c))
  {
    RecoverOpens(c, ts);
    hide Recover, BytesOf, DirOf, Wf, Stored, Records, Replay, MemOf, MaxSeq, MaxTableSeq, Sorted, AllFit, TableLevels;
    RecoveredMem(c.wal);
    StoredCons(MemOf(Replay(c.wal)), TableLevels(ts));
    RecoveredBelowNext(c.wal, ts);
    RebootOk(c, ts);
  }

  /** A crash anywhere in a flush leaves well-formed tables. */
  lemma FlushCrashTables(s: Store, d: DiskState, at: nat, c: Image) returns (ts: seq<SsTable>)
    requires ShapeOk(s) && DiskOk(s, d) && |FileImage(s.mem)| < U64_LIMIT
    requires at <= |FlushTrace(s, d)| && CrashImage(StateAt(d, FlushTrace(s, d), at), c)
    ensures TablesOk(ts) && c.ssts == BytesOf(ts)
  {
    hide DiskOk, FlushTrace, CrashImage, StateAt, BytesOf, FileImage, Flushed, Wf, Stored;
    FlushImage(s, d, at, c);
    if c.ssts == BytesOf(s.tables) {
      ts := s.tables;
    } else {
      FlushedTables(s);
      ts := Flushed(s).tables;
    }
  }

  lemma CompactCrashTables(s: Store, d: DiskState, at: nat, c: Image) returns (ts: seq<SsTable>)
    requires ShapeOk(s) && DiskOk(s, d) && |FileImage(Merge(s.tables))| < U64_LIMIT
    requires at <= |CompactTrace(s, d)| && CrashImage(StateAt(d, CompactTrace(s, d), at), c)
    ensures TablesOk(ts) && c.ssts == BytesOf(ts)
  {
    hide DiskOk, CompactTrace, CrashImage, StateAt, BytesOf, FileImage, Merge, TableOf, Wf, Stored;
    var j := CompactImage(s, d, at, c);
    if c.ssts == BytesOf(s.tables) {
      ts := s.tables;
    } else {
      PartlyCompactedShape(s, j);
      ts := PartlyCompacted(s, j).tables;
    }
  }

  /** A crash before any system call of any operation leaves well-formed tables. */
  lemma CrashTables(s: Store, d: DiskState, op: Op, limit: nat, at: nat, c: Image) returns (ts: seq<SsTable>)
    requires ShapeOk(s) && DiskOk(s, d) && Room(s, op)
    requires at <= |Trace(s, d, op, limit)| && CrashImage(StateAt(d, Trace(s, d, op, limit), at), c)
    ensures TablesOk(ts) && c.ssts == BytesOf(ts)
  {
    hide TablesOk, BytesOf, FlushTrace, CompactTrace, CrashImage, Merge, FileImage, Frame, FrameFits, Full;
    match op
    case FlushOp =>
      ts := FlushCrashTables(s, d, at, c);
    case CompactOp =>
      ts := CompactCrashTables(s, d, at, c);
    case _ =>
      var r := NewRecord(s, op);
      if at <= 2 {
        StateInLog(s, d, op, limit, at);
        ts := s.tables;
        QuietTables(StateAt(d, LogTrace(d, r), at), ts, c);
      } else {
        LoggedShape(s, r);
        LoggedDisk(s, d, r);
        StateInFlush(s, d, op, limit, at);
        hide ShapeOk, DiskOk;
        ts := FlushCrashTables(Logged(s, r), LogTrace(d, r)[1], at - 2, c);
      }
  }

  // ---- every run ------------------------------------------------------------------------------------

  ghost predicate Shaped(n: Node) {
    ShapeOk(n.s) && DiskOk(n.s, n.d)
  }

  /** In particular the store opened on an empty directory, which satisfies every invariant. */
  lemma OrderedIsShaped(n: Node)
    requires NodeOk(n)
    ensures Shaped(n)
  {
    hide DiskOk, LogOk;
    RamShape(n.s);
  }

  lemma NextShaped(n: Node, e: Event, limit: nat)
    requires Shaped(n) && Possible(n, e, limit)
    ensures Shaped(Next(n, e, limit))
    ensures e.Crash? ==> Recover(e.image).Ok?
  {
    hide ShapeOk, DiskOk, After, Trace, Recover, Room, CrashImage, Flushes, LogReady, TablesOk, BytesOf;
    match e
    case Done(op) =>
      OperationKeepsShape(n.s, n.d, op, limit);
    case Crash(op, at, c) =>
      var ts := CrashTables(n.s, n.d, op, limit, at, c);
      ReopensInShape(c, ts);
  }

  /** Nothing is asked of the crashes. */
  ghost predicate CanRun(n: Node, events: seq<Event>, limit: nat)
    decreases |events|
  {
    events != [] ==> Possible(n, events[0], limit) && CanRun(Next(n, events[0], limit), events[1..], limit)
  }

  /**
   In every reachable state, torn log tails and cut unlink loops included, the next sequence
   number is above everything stored and the next table id above every table, and whatever
   crash comes next the store reopens.
   */
  lemma {:induction false} CountersStayAhead(n: Node, events: seq<Event>, limit: nat)
    requires Shaped(n) && CanRun(n, events, limit)
    ensures Shaped(Run(n, events, limit))
    ensures var s := Run(n, events, limit).s;
            && (forall r :: Stored(LevelsOf(s), r) ==> r.seqno < s.nextSeq)
            && (forall t :: t in s.tables ==> t.id < s.nextId)
    ensures forall e: Event :: e.Crash? && Possible(Run(n, events, limit), e, limit) ==> Recover(e.image).Ok?
    decreases |events|
  {
    hide Possible, Recover, Next, TablesOk, Sorted, AllFit, LevelsOf, Stored, DiskOk;
    if events == [] {
      forall e: Event | e.Crash? && Possible(n, e, limit)
        ensures Recover(e.image).Ok?
      {
        NextShaped(n, e, limit);
      }
    } else {
      NextShaped(n, events[0], limit);
      CountersStayAhead(Next(n, events[0], limit), events[1..], limit);
    }
  }

  // ---- runs without writes at stake behind a torn tail -------------------------------------------------

  /** The merge in front of what is left of its inputs reopens in order, whatever it reads. */
  lemma PartlyCompactedReopens(s: Store, wal: bytes, j: nat, c: Image)
    requires RamOk(s) && LogOk(s, wal) && |FileImage(Merge(s.tables))| < U64_LIMIT && j <= |s.tables|
    requires Holds(c, wal, [TableOf(s.nextId, Merge(s.tables))] + s.tables[j..])
    ensures RecoversLike(c, PartlyCompacted(s, j), s.nextSeq)
  {
    hide RamOk, LogOk, LevelsOf, Stored, Merge, TableOf, FileImage, Holds, RecoversLike, Among;
    SuffixAmong(s, j);
    BesideRam(s, s.tables[j..]);
    BesideLog(s, s.tables[j..], wal);
    RecoversItself(PartlyCompacted(s, j), wal, c, s.nextSeq);
  }

  /** A crash inside an unlink loop may bring old values back, but it leaves the levels in order. */
  lemma CompactCrashOrdered(s: Store, d: DiskState, at: nat, c: Image)
    requires Durable(s, d) && |FileImage(Merge(s.tables))| < U64_LIMIT
    requires at <= |CompactTrace(s, d)| && CrashImage(StateAt(d, CompactTrace(s, d), at), c)
    ensures Recover(c).Ok? && Durable(Recover(c).value, Reboot(c))
  {
    RamShape(s);
    hide RamOk, ShapeOk, DiskOk, LogOk, CompactTrace, CrashImage, StateAt, Merge, TableOf, FileImage, Holds, Recover, SameReads,
         PartlyCompacted, InUnlinkLoop;
    var j := CompactImage(s, d, at, c);
    if Holds(c, d.wal.current, s.tables) {
      RecoversItself(s, d.wal.current, c, s.nextSeq);
    } else {
      PartlyCompactedReopens(s, d.wal.current, j, c);
    }
  }

  lemma CrashKeepsOrder(s: Store, d: DiskState, op: Op, limit: nat, at: nat, c: Image)
    requires Durable(s, d) && Room(s, op) && LogReady(d, op)
    requires at <= |Trace(s, d, op, limit)| && CrashImage(StateAt(d, Trace(s, d, op, limit), at), c)
    ensures Recover(c).Ok? && Durable(Recover(c).value, Reboot(c))
  {
    hide RamOk, DiskOk, LogOk, GetValue, FlushTrace, CompactTrace, Merge, FileImage, Frame, FrameFits, Clean, Recover, CrashImage, Full;
    match op
    case FlushOp =>
      CrashWhileFlushing(s, d, at, c);
    case CompactOp =>
      CompactCrashOrdered(s, d, at, c);
    case _ =>
      var r := NewRecord(s, op);
      if at <= 2 {
        StateInLog(s, d, op, limit, at);
        CrashWhileLogging(s, d, r, at, c);
      } else {
        LoggedDurable(s, d, r);
        StateInFlush(s, d, op, limit, at);
        CrashWhileFlushing(Logged(s, r), LogTrace(d, r)[1], at - 2, c);
      }
  }

  /** The event can happen, and a crash finds no write behind a torn tail at stake. */
  ghost predicate LogSafe(n: Node, e: Event, limit: nat) {
    Possible(n, e, limit) && (e.Crash? ==> !n.exposed && LogReady(n.d, e.op))
  }

  ghost predicate LogSafeRun(n: Node, events: seq<Event>, limit: nat)
    decreases |events|
  {
    events != [] ==> LogSafe(n, events[0], limit) && LogSafeRun(Next(n, events[0], limit), events[1..], limit)
  }

  lemma NextOrdered(n: Node, e: Event, limit: nat)
    requires NodeOk(n) && LogSafe(n, e, limit)
    ensures NodeOk(Next(n, e, limit))
  {
    hide RamOk, DiskOk, LogOk, After, Trace, Recover, Room, CrashImage, LogReady, Clean;
    match e
    case Done(op) =>
      OperationKeepsOrder(n.s, n.d, op, limit);
      if Flushes(n.s, op, limit) || !Next(n, e, limit).exposed {
        LogReadyClean(n.d, op);
        OperationKeepsDurable(n.s, n.d, op, limit);
      }
    case Crash(op, at, c) =>
      CrashKeepsOrder(n.s, n.d, op, limit, at, c);
  }

  lemma {:induction false} RunKeepsOrder(n: Node, events: seq<Event>, limit: nat)
    requires NodeOk(n) && LogSafeRun(n, events, limit)
    ensures NodeOk(Run(n, events, limit))
    decreases |events|
  {
    if events != [] {
      hide NodeOk, LogSafe, Next;
      NextOrdered(n, events[0], limit);
      RunKeepsOrder(Next(n, events[0], limit), events[1..], limit);
    }
  }

  /**
   In every state of such a run, cut unlink loops over shadowed puts included: a sequence
   number names one record, the levels hold the newest record of every key first, and scan
   lists exactly what get finds.
   */
  lemma ReadsAgreeAlongRuns(n: Node, events: seq<Event>, limit: nat)
    requires NodeOk(n) && LogSafeRun(n, events, limit)
    ensures var s := Run(n, events, limit).s;
            && Layered(LevelsOf(s))
            && (forall a, b :: Stored(LevelsOf(s), a) && Stored(LevelsOf(s), b) && a.seqno == b.seqno ==> a == b)
            && KeysAscend(ScanPairs(s)) && ReadsAsListed(s)
  {
    RunKeepsOrder(n, events, limit);
    hide Stored, LevelsOf, DiskOk, LogOk, Run, Layered, TablesOk, Sorted, AllFit, ReadsAsListed, KeysAscend;
    RamShape(Run(n, events, limit).s);
    ScanMatchesGet(Run(n, events, limit).s);
  }

  /** An admissible run is such a run. */
  lemma {:induction false} AdmissibleIsLogSafe(n: Node, events: seq<Event>, limit: nat)
    requires Admissible(n, events, limit)
    ensures LogSafeRun(n, events, limit)
    decreases |events|
  {
    if events != [] {
      hide Possible, Next;
      AdmissibleIsLogSafe(Next(n, events[0], limit), events[1..], limit);
    }
  }

  /** The pairs are the map's. */
  ghost predicate Lists(pairs: seq<(bytes, bytes)>, m: Dict) {
    forall p :: p in pairs <==> p.0 in m && m[p.0] == p.1
  }

  /** After every admissible run scan lists, in key order, a map holding all acknowledged writes. */
  lemma ScanListsMap(n: Node, events: seq<Event>, limit: nat, m: Dict)
    requires NodeOk(n) && Represents(n.s, m) && Admissible(n, events, limit)
    ensures var pairs := ScanPairs(Run(n, events, limit).s);
            KeysAscend(pairs) && exists m' :: MayBecome(m, events, m') && Lists(pairs, m')
  {
    RunRefinesMap(n, events, limit, m);
    AdmissibleIsLogSafe(n, events, limit);
    ReadsAgreeAlongRuns(n, events, limit);
    hide NodeOk, Run, ScanPairs, KeysAscend, Layered, Stored, LevelsOf, GetValue;
    var s := Run(n, events, limit).s;
    var m' :| MayBecome(m, events, m') && Represents(s, m');
    assert Lists(ScanPairs(s), m');
  }
}
