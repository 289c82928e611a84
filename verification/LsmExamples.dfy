/**
 Four runs from an empty directory: a deleted key that comes back, an acknowledged write
 that is lost, a get that goes stale, and a sequence number that is given out twice. They
 also show that the conditions under which the store is safe are neither always true nor
 empty.
 */
module LsmExamples {
  import opened Bytes
  import opened Encoding
  import opened WalFormat
  import opened KeyOrder
  import opened MemTables
  import opened Levels
  import opened SsTables
  import opened Compaction
  import opened Disks
  import opened Lsm
  import opened LsmInvariant
  import opened LsmRecovery
  import opened LsmCrash
  import opened LsmRuns
  import opened LsmTornTail

  const SMALL: nat := 0x4000_0000

  predicate SmallWrite(op: Op) {
    match op
    case PutOp(k, v) => |k| + |v| < SMALL
    case DeleteOp(k) => |k| < SMALL
    case _ => false
  }

  lemma SmallFits(r: Record)
    requires r.seqno < SMALL && |r.key| + |Payload(r.value)| < SMALL
    ensures FrameFits(r)
  {
  }

  lemma OneRecordImage(r: Record)
    ensures |FileImage([r])| == |Encode(r)| + |r.key| + 16 + FOOTER_SIZE
    ensures |FileImage([])| == FOOTER_SIZE
  {
    hide Encode, Footer, MaxSeq;
    assert [r][1..] == [];
    assert DataOf([r]) == Encode(r) + DataOf([]);
    assert IndexOf([r], 0) == [IndexEntry(r.key, 0, |Encode(r)|)] + IndexOf([], |Encode(r)|);
    var slot := IndexEntry(r.key, 0, |Encode(r)|);
    assert [slot][1..] == [] && IndexBytes([slot]) == EntryBytes(slot) + IndexBytes([]);
  }

  /** An open store that reads like m, with an empty memtable and log and its counters far from their limits. */
  ghost predicate Rested(n: Node, m: Dict) {
    && NodeOk(n) && !n.exposed && Represents(n.s, m)
    && n.s.mem == [] && n.d.wal.current == [] && n.s.nextSeq < SMALL
  }

  lemma RoomForSmall(s: Store, op: Op)
    requires s.mem == [] && s.nextSeq < SMALL && SmallWrite(op)
    ensures Room(s, op) && Logged(s, NewRecord(s, op)).mem == [NewRecord(s, op)] && FrameFits(NewRecord(s, op))
    ensures |FileImage([NewRecord(s, op)])| < U64_LIMIT && |FileImage([])| < U64_LIMIT
  {
    var r := NewRecord(s, op);
    OneRecordImage(r);
    hide FileImage;
    assert Insert([], r) == [r];
  }

  /** The store after a write whose record has reached a table of its own. */
  function Tabled(s: Store, op: Op): Store
    requires Writes(op)
  {
    Store([], [TableOf(s.nextId, [NewRecord(s, op)])] + s.tables, s.nextSeq + 1, s.nextId + 1)
  }

  /** A small write, which may flush by itself. */
  lemma WriteStep(n: Node, m: Dict, op: Op, limit: nat)
    requires Rested(n, m) && SmallWrite(op)
    ensures var e, n1 := Done(op), Next(n, Done(op), limit);
      && Possible(n, e, limit) && Tolerated(n, e)
      && NodeOk(n1) && !n1.exposed && Represents(n1.s, Apply(m, op))
      && (n1.s == Logged(n.s, NewRecord(n.s, op)) || (n1.s == Tabled(n.s, op) && n1.d.wal.current == []))
  {
    hide RamOk, DiskOk, LogOk, Represents, FlushTrace, Frame, FrameFits, FileImage, TableOf, Apply, Full, Insert;
    var r := NewRecord(n.s, op);
    RoomForSmall(n.s, op);
    assert Clean([]) by { EmptyFrame(); }
    hide Clean;
    NextRefinesMap(n, Done(op), limit, m);
    OperationRefinesMap(n.s, n.d, op, limit, m);
    if Full(Logged(n.s, r), limit) {
      LoggedRam(n.s, r);
      LoggedDisk(n.s, n.d, r);
      FlushedDurable(Logged(n.s, r), LogTrace(n.d, r)[1]);
      TraceWithFlush(n.s, n.d, op, limit);
    }
  }

  /** An explicit flush of a memtable holding at most the one record. */
  lemma FlushStep(n: Node, m: Dict, limit: nat)
    requires NodeOk(n) && !n.exposed && Represents(n.s, m) && |FileImage(n.s.mem)| < U64_LIMIT
    requires n.s.mem == [] ==> n.d.wal.current == []
    ensures var e, n1 := Done(FlushOp), Next(n, Done(FlushOp), limit);
      && Possible(n, e, limit) && Tolerated(n, e)
      && NodeOk(n1) && !n1.exposed && Represents(n1.s, m) && n1.s == Flushed(n.s) && n1.d.wal.current == []
  {
    hide RamOk, DiskOk, LogOk, Represents, FileImage, TableOf;
    NextRefinesMap(n, Done(FlushOp), limit, m);
    OperationRefinesMap(n.s, n.d, FlushOp, limit, m);
    if n.s.mem != [] { FlushedDurable(n.s, n.d); }
  }

  lemma RunTwo(n: Node, e1: Event, e2: Event, limit: nat)
    ensures Run(n, [e1, e2], limit) == Next(Next(n, e1, limit), e2, limit)
    ensures Possible(n, e1, limit) && Tolerated(n, e1) && Possible(Next(n, e1, limit), e2, limit) && Tolerated(Next(n, e1, limit), e2)
            ==> Admissible(n, [e1, e2], limit)
  {
    hide Next, Possible, Tolerated;
    assert [e1, e2][1..] == [e2] && [e2][1..] == [];
    var n1 := Next(n, e1, limit);
    var n2 := Next(n1, e2, limit);
    assert Run(n2, [], limit) == n2 && Admissible(n2, [], limit);
    assert Run(n1, [e2], limit) == n2;
  }

  /** One write and a flush: a table of one record appears, whether or not the write flushed by itself. */
  lemma WriteThenFlush(n: Node, m: Dict, op: Op, limit: nat)
    requires Rested(n, m) && SmallWrite(op)
    ensures var events := [Done(op), Done(FlushOp)]; var n2 := Run(n, events, limit);
      && Admissible(n, events, limit)
      && n2.s == Tabled(n.s, op)
      && (n2.s.nextSeq < SMALL ==> Rested(n2, Apply(m, op)))
  {
    hide NodeOk, Represents, Possible, Tolerated, Next, FileImage, TableOf, Run, Admissible, Apply, FrameFits, Room;
    WriteStep(n, m, op, limit);
    RoomForSmall(n.s, op);
    var n1 := Next(n, Done(op), limit);
    FlushStep(n1, Apply(m, op), limit);
    RunTwo(n, Done(op), Done(FlushOp), limit);
  }

  /** The tables after writing k, flushing, deleting it and flushing again: the put is shadowed. */
  lemma PutIsShadowed(put: Record, tomb: Record, tables: seq<SsTable>)
    requires FrameFits(put) && FrameFits(tomb) && put.value.Put? && tomb.value == Delete && put.key == tomb.key
    requires tables == [TableOf(1, [tomb])] + [TableOf(0, [put])]
    ensures TableLevels(tables) == [[tomb], [put]] && Shadowed([], [[tomb], [put]], put)
  {
    OneRecordImage(put);
    OneRecordImage(tomb);
    assert Writable([put]) && Writable([tomb]) by { hide FileImage; }
    hide TableOf, FileImage, FrameFits, Encode, Writable;
    WrittenTable(0, [put]);
    WrittenTable(1, [tomb]);
    hide Records;
    assert TableLevels(tables) == [[tomb], [put]];
    assert put in [[tomb], [put]][1];
    FirstHitCons([tomb], [[put]], put.key);
    assert [[tomb]] + [[put]] == [[tomb], [put]];
  }

  /** The merge of those two tables is empty: the tombstone wins and is then dropped. */
  lemma NothingSurvives(s: Store, put: Record, tomb: Record)
    requires RamOk(s) && TableLevels(s.tables) == [[tomb], [put]] && tomb.value == Delete && put.key == tomb.key
    ensures Merge(s.tables) == []
  {
    var levels := TableLevels(s.tables);
    TableLevelsSorted(s.tables);
    LayeredUncons(s.mem, levels);
    if Merge(s.tables) != [] {
      var r := Merged(levels)[0];
      hide Merged, Merge, TableLevels, Layered, Records;
      LookupMerged(levels, r.key);
      LookupMember(Merged(levels), r);
      assert [[tomb]] + [[put]] == [[tomb], [put]] && [[put]] + [] == [[put]];
      FirstHitCons([tomb], [[put]], r.key);
      FirstHitCons([put], [], r.key);
      assert false;
    }
  }

  function WriteFlushDeleteFlush(k: bytes, v: bytes): seq<Event> {
    [Done(PutOp(k, v)), Done(FlushOp)] + [Done(DeleteOp(k)), Done(FlushOp)]
  }

  lemma TwoTables(k: bytes, v: bytes, limit: nat)
    requires |k| + |v| < SMALL
    ensures var n := Run(Fresh(), WriteFlushDeleteFlush(k, v), limit);
      && Admissible(Fresh(), WriteFlushDeleteFlush(k, v), limit)
      && NodeOk(n) && !n.exposed && Represents(n.s, map[]) && n.d.wal.current == []
      && n.s == Store([], [TableOf(1, [Record(2, k, Delete)])] + [TableOf(0, [Record(1, k, Put(v))])], 3, 2)
  {
    hide Run, Admissible, TableOf, Represents, NodeOk;
    FreshOk();
    var n0 := Fresh();
    var first, second := [Done(PutOp(k, v)), Done(FlushOp)], [Done(DeleteOp(k)), Done(FlushOp)];
    WriteThenFlush(n0, map[], PutOp(k, v), limit);
    var n2 := Run(n0, first, limit);
    assert [TableOf(0, [Record(1, k, Put(v))])] + [] == [TableOf(0, [Record(1, k, Put(v))])];
    var m := Apply(map[], PutOp(k, v));
    WriteThenFlush(n2, m, DeleteOp(k), limit);
    assert Apply(m, DeleteOp(k)) == map[];
    RunConcat(n0, first, second, limit);
  }

  lemma ResurrectionIn(n: Node, put: Record, tomb: Record, limit: nat) returns (at: nat, c: Image)
    requires NodeOk(n) && !n.exposed && FrameFits(put) && FrameFits(tomb)
    requires put.value.Put? && tomb.value == Delete && put.key == tomb.key
    requires n.s.mem == [] && n.s.tables == [TableOf(1, [tomb])] + [TableOf(0, [put])]
    ensures Possible(n, Crash(CompactOp, at, c), limit)
    ensures GetValue(n.s, put.key) == None
    ensures Recover(c).Ok? && GetValue(Recover(c).value, put.key) == Some(put.value.bytes)
  {
    hide Encode, TableOf, FrameFits, Recover, CrashImage, RamOk, LogOk, DiskOk, GetValue, CompactTrace, StateAt, Shadowed,
         TableLevels, Merge, FileImage;
    OneRecordImage(put);
    PutIsShadowed(put, tomb, n.s.tables);
    NothingSurvives(n.s, put, tomb);
    at, c := CompactionResurrects(n.s, n.d, put);
  }

  /**
   From an empty directory: put a key, flush, delete it, flush, and lose power inside the
   unlink loop of a compaction. The deleted key reads as the old value again.
   */
  lemma DeletedKeyComesBack(k: bytes, v: bytes, limit: nat) returns (at: nat, c: Image)
    requires |k| + |v| < SMALL
    ensures var n := Run(Fresh(), WriteFlushDeleteFlush(k, v), limit);
      && Admissible(Fresh(), WriteFlushDeleteFlush(k, v), limit)
      && Possible(n, Crash(CompactOp, at, c), limit)
      && GetValue(n.s, k) == None
      && Recover(c).Ok? && GetValue(Recover(c).value, k) == Some(v)
  {
    var put, tomb := Record(1, k, Put(v)), Record(2, k, Delete);
    SmallFits(put);
    SmallFits(tomb);
    TwoTables(k, v, limit);
    hide Fresh, WriteFlushDeleteFlush, Run, Admissible, Possible, TableOf, FrameFits, Recover, GetValue, NodeOk, Represents;
    at, c := ResurrectionIn(Run(Fresh(), WriteFlushDeleteFlush(k, v), limit), put, tomb, limit);
  }

  // ---- the lost write --------------------------------------------------------------------------

  /** The crash tears the frame of `torn` right behind its header; `acked` is then written and the power fails again. */
  datatype Loss = Loss(torn: Op, acked: Op, limit: nat)

  predicate LossApplies(x: Loss) {
    && x.torn.PutOp? && SmallWrite(x.torn) && x.acked.PutOp? && SmallWrite(x.acked)
    && HEADER + |x.acked.key| + |x.acked.value| < |x.torn.key| + |x.torn.value|
    && |x.acked.key| + |x.acked.value| + ENTRY_OVERHEAD < x.limit
  }

  function TornImage(x: Loss): Image
    requires LossApplies(x)
  {
    Image(TornLogOf([], NewRecord(Fresh().s, x.torn), HEADER), map[], map[])
  }

  function Reopened(x: Loss): Node
    requires LossApplies(x)
  {
    Next(Fresh(), Crash(x.torn, 1, TornImage(x)), x.limit)
  }

  lemma TearSetting(x: Loss)
    requires LossApplies(x)
    ensures var n, r, c := Fresh(), NewRecord(Fresh().s, x.torn), TornImage(x);
      && Durable(n.s, n.d) && Clean([]) && FrameFits(r) && Room(n.s, x.torn)
      && NodeOk(n) && Represents(n.s, map[]) && n.d.wal.current == []
      && Holds(c, TornLogOf([], r, HEADER), [])
  {
    hide FrameFits, FileImage, Frame, Recover, Represents, RamOk, LogOk;
    FreshOk();
    RoomForSmall(Fresh().s, x.torn);
    assert Clean([]) by { EmptyFrame(); }
    assert BytesOf([]) == map[] && DirOf([]) == map[] by { EmptyBytes(); }
  }

  lemma ReopenedOk(x: Loss)
    requires LossApplies(x)
    ensures var n := Reopened(x);
      && Possible(Fresh(), Crash(x.torn, 1, TornImage(x)), x.limit)
      && n == Node(RecoveredStore(TornImage(x).wal, []), Reboot(TornImage(x)), false)
      && NodeOk(n) && Represents(n.s, map[]) && n.s.mem == [] && n.s.nextSeq <= 2
  {
    TearSetting(x);
    assert Fresh().s.tables == [] && Fresh().s.nextSeq == 1;
    hide Frame, FrameFits, Represents, RamOk, LogOk, Recover, Clean, TornLogOf, Room, Possible, NodeOk;
    TearStep(Fresh(), x.torn, TornImage(x), x.limit, map[]);
  }

  /** A power failure right behind the frame header, and what reopens. */
  lemma TearStep(n: Node, op: Op, c: Image, limit: nat, m: Dict)
    requires NodeOk(n) && !n.exposed && Represents(n.s, m) && Clean(n.d.wal.current) && n.s.tables == []
    requires Writes(op) && Room(n.s, op) && FrameFits(NewRecord(n.s, op))
    requires c == Image(TornLogOf(n.d.wal.current, NewRecord(n.s, op), HEADER), map[], map[])
    ensures Possible(n, Crash(op, 1, c), limit) && Holds(c, TornLogOf(n.d.wal.current, NewRecord(n.s, op), HEADER), [])
    ensures var n1 := Next(n, Crash(op, 1, c), limit);
      && n1 == Node(RecoveredStore(c.wal, []), Reboot(c), false)
      && NodeOk(n1) && Represents(n1.s, m) && n1.s.mem == n.s.mem && n1.s.nextSeq <= n.s.nextSeq + 1
  {
    var r := NewRecord(n.s, op);
    assert Holds(c, TornLogOf(n.d.wal.current, r, HEADER), []) by { EmptyBytes(); }
    TearIsPossible(n.s, n.d, r, HEADER, c) by { hide Frame, DirOf, BytesOf; }
    hide Frame, FrameFits, FileImage, Represents, Recover, Clean, Replay, MemOf, Full, Insert, CrashImage, TornLogOf, MaxSeq, Room,
         FlushTrace, Layered, Stored, Wf, RamOk, LogOk;
    TearHappens(n, op, c, limit);
    ReopenedAfterTear(n.s, n.d, r, HEADER, c);
    NextRefinesMap(n, Crash(op, 1, c), limit, m);
    CrashRefinesMap(n.s, n.d, op, limit, 1, c, m);
    SameReadsRepresent(Recover(c).value, n.s, m);
  }

  lemma TearHappens(n: Node, op: Op, c: Image, limit: nat)
    requires !n.exposed && Writes(op) && Room(n.s, op) && Clean(n.d.wal.current)
    requires CrashImage(LogTrace(n.d, NewRecord(n.s, op))[0], c)
    ensures Possible(n, Crash(op, 1, c), limit) && Tolerated(n, Crash(op, 1, c))
  {
    hide Frame, Room, CrashImage, Clean, FlushTrace, Full;
    StateInLog(n.s, n.d, op, limit, 1);
  }

  /** The write behind the tear is acknowledged and readable. */
  function Acked(x: Loss): Node
    requires LossApplies(x)
  {
    Next(Reopened(x), Done(x.acked), x.limit)
  }

  /** The second power failure; everything written is on the device. */
  function SecondImage(x: Loss): Image
    requires LossApplies(x)
  {
    Image(Acked(x).d.wal.current, map[], map[])
  }

  /** A small put into an empty memtable that does not flush. */
  lemma QuietPutStep(n: Node, op: Op, limit: nat)
    requires NodeOk(n) && n.s.mem == [] && n.s.tables == [] && n.s.nextSeq < SMALL
    requires op.PutOp? && SmallWrite(op) && |op.key| + |op.value| + ENTRY_OVERHEAD < limit
    ensures var n1 := Next(n, Done(op), limit);
      && Possible(n, Done(op), limit) && !Flushes(n.s, op, limit)
      && n1.s.tables == [] && DiskOk(n1.s, n1.d) && GetValue(n1.s, op.key) == Some(op.value)
      && |FileImage(n1.s.mem)| < U64_LIMIT
  {
    var r := NewRecord(n.s, op);
    RoomForSmall(n.s, op);
    SmallFootprint(r);
    hide FrameFits, FileImage, Frame, RamOk, LogOk, FlushTrace, Read, TableLevels, DirOf, LogTrace;
    OperationKeepsOrder(n.s, n.d, op, limit);
    LoggedReads(n.s, r, op.key);
  }

  lemma AckedOk(x: Loss)
    requires LossApplies(x)
    ensures var n1, n2 := Reopened(x), Acked(x);
      && Possible(n1, Done(x.acked), x.limit) && !Flushes(n1.s, x.acked, x.limit)
      && GetValue(n2.s, x.acked.key) == Some(x.acked.value)
      && Possible(n2, Crash(FlushOp, 0, SecondImage(x)), x.limit) && CrashImage(n2.d, SecondImage(x))
  {
    hide TornImage, TornLogOf, Reboot;
    ReopenedOk(x);
    assert Reopened(x).s.tables == [];
    hide FileImage, Reopened, GetValue, DiskOk, NodeOk, Next, CrashImage, FlushTrace, Flushes, RecoveredStore, Represents;
    QuietPutStep(Reopened(x), x.acked, x.limit);
    NothingLost(Acked(x), SecondImage(x));
    QuietFlush(Acked(x), SecondImage(x), x.limit);
  }

  /** A power failure right at the start of a flush. */
  lemma QuietFlush(n: Node, c: Image, limit: nat)
    requires CrashImage(n.d, c) && |FileImage(n.s.mem)| < U64_LIMIT
    ensures Possible(n, Crash(FlushOp, 0, c), limit)
  {
    hide CrashImage, FileImage, FlushTrace;
  }

  /** A power failure between operations that loses no byte, with no table yet. */
  lemma NothingLost(n: Node, c: Image)
    requires DiskOk(n.s, n.d) && n.s.tables == [] && c == Image(n.d.wal.current, map[], map[])
    ensures CrashImage(n.d, c)
  {
    assert DirOf([]) == map[];
    assert DirOutcome(ApplyOps(n.d.dir, n.d.pending[..0]), c.ssts);
  }

  /**
   From an empty directory: power fails while a large put is appended, tearing its frame
   behind the header. The store reopens; a smaller put is acknowledged and reads back. After
   the next power failure, which loses no byte, it is gone.
   */
  lemma AcknowledgedWriteVanishes(x: Loss)
    requires LossApplies(x)
    ensures var torn, acked, lost := Crash(x.torn, 1, TornImage(x)), Done(x.acked), Crash(FlushOp, 0, SecondImage(x));
      && Possible(Fresh(), torn, x.limit) && Possible(Reopened(x), acked, x.limit) && Possible(Acked(x), lost, x.limit)
      && GetValue(Acked(x).s, x.acked.key) == Some(x.acked.value)
      && Recover(SecondImage(x)).Ok? && GetValue(Recover(SecondImage(x)).value, x.acked.key) == None
  {
    hide FrameFits, FileImage, Recover, RamOk, LogOk, Replay, MemOf, MaxSeq, GetValue, Possible, Next, Full, TornImage, SecondImage;
    TearSetting(x);
    ReopenedOk(x);
    AckedOk(x);
    AcknowledgedWriteLost(Fresh().s, Fresh().d, NewRecord(Fresh().s, x.torn), HEADER, TornImage(x), x.acked, x.limit, SecondImage(x));
  }

  // ---- the stale get ---------------------------------------------------------------------------

  /** One key written three times: acknowledged, torn by a power failure, acknowledged again. */
  datatype Stale = Stale(key: bytes, first: bytes, torn: bytes, last: bytes, limit: nat)

  predicate StaleApplies(x: Stale) {
    && |x.key| + |x.first| < SMALL && |x.key| + |x.torn| < SMALL && |x.key| + |x.last| < SMALL
    && HEADER + |x.last| < |x.torn|
    && |x.key| + |x.first| + ENTRY_OVERHEAD < x.limit && |x.key| + |x.last| + ENTRY_OVERHEAD < x.limit
  }

  function FirstWrite(x: Stale): Node {
    Next(Fresh(), Done(PutOp(x.key, x.first)), x.limit)
  }

  function SecondRecord(x: Stale): Record {
    NewRecord(FirstWrite(x).s, PutOp(x.key, x.torn))
  }

  function StaleTear(x: Stale): Image {
    Image(TornLogOf(FirstWrite(x).d.wal.current, SecondRecord(x), HEADER), map[], map[])
  }

  function AfterTear(x: Stale): Node {
    Next(FirstWrite(x), Crash(PutOp(x.key, x.torn), 1, StaleTear(x)), x.limit)
  }

  function ThirdWrite(x: Stale): Node {
    Next(AfterTear(x), Done(PutOp(x.key, x.last)), x.limit)
  }

  /** The flush of the third write has made its table durable; the log is not yet reset. */
  function CutFlush(x: Stale): Image {
    Image(ThirdWrite(x).d.wal.current, map[], BytesOf([TableOf(ThirdWrite(x).s.nextId, ThirdWrite(x).s.mem)]))
  }

  lemma SmallFootprint(r: Record)
    ensures Footprint([r]) == |r.key| + |Payload(r.value)| + ENTRY_OVERHEAD
  {
    assert [r][1..] == [];
  }

  lemma FirstWriteOk(x: Stale)
    requires StaleApplies(x)
    ensures var n := FirstWrite(x);
      && Possible(Fresh(), Done(PutOp(x.key, x.first)), x.limit)
      && n.s == Store([Record(1, x.key, Put(x.first))], [], 2, 0) && !n.exposed
      && NodeOk(n) && Represents(n.s, map[x.key := x.first]) && Clean(n.d.wal.current)
  {
    var op, r := PutOp(x.key, x.first), Record(1, x.key, Put(x.first));
    FreshOk();
    SmallFits(r);
    SmallFootprint(r);
    assert Clean([]) by { EmptyFrame(); }
    hide Frame, FrameFits, FileImage, Represents, RamOk, LogOk, Recover, Clean, Replay, MemOf, FlushTrace;
    WriteStep(Fresh(), map[], op, x.limit);
    LoggedDurable(Fresh().s, Fresh().d, r);
  }

  /** A small write over the only key of the memtable. */
  lemma OverwriteRoom(s: Store, k: bytes, v: bytes)
    requires |s.mem| == 1 && s.mem[0].key == k && |k| + |v| < SMALL && s.nextSeq < SMALL
    ensures Room(s, PutOp(k, v)) && Logged(s, NewRecord(s, PutOp(k, v))).mem == [NewRecord(s, PutOp(k, v))]
    ensures FrameFits(NewRecord(s, PutOp(k, v))) && |FileImage([NewRecord(s, PutOp(k, v))])| < U64_LIMIT
  {
    var r := NewRecord(s, PutOp(k, v));
    SmallFits(r);
    OneRecordImage(r);
    hide FileImage, FrameFits, Encode;
    LessIrreflexive(k);
    assert s.mem == [s.mem[0]] && s.mem[1..] == [];
    assert Insert(s.mem, r) == [r];
  }

  lemma AfterTearOk(x: Stale)
    requires StaleApplies(x)
    ensures var n1, n2, e := FirstWrite(x), AfterTear(x), Crash(PutOp(x.key, x.torn), 1, StaleTear(x));
      && Possible(n1, e, x.limit) && FrameFits(SecondRecord(x))
      && Holds(StaleTear(x), TornLogOf(n1.d.wal.current, SecondRecord(x), HEADER), [])
      && n2 == Node(RecoveredStore(StaleTear(x).wal, []), Reboot(StaleTear(x)), false)
      && NodeOk(n2) && n2.s.mem == n1.s.mem && n2.s.tables == [] && n2.s.nextSeq <= 3
  {
    FirstWriteOk(x);
    OverwriteRoom(FirstWrite(x).s, x.key, x.torn);
    hide FirstWrite, Frame, FrameFits, FileImage, Represents, RamOk, LogOk, Recover, Clean, TornLogOf, Room, Possible, NodeOk;
    TearStep(FirstWrite(x), PutOp(x.key, x.torn), StaleTear(x), x.limit, map[x.key := x.first]);
  }

  /** A write over the only key of the memtable that does not flush. */
  lemma OverwriteStep(n: Node, k: bytes, v: bytes, limit: nat)
    requires NodeOk(n) && |n.s.mem| == 1 && n.s.mem[0].key == k && |k| + |v| < SMALL && n.s.nextSeq < SMALL
    requires |k| + |v| + ENTRY_OVERHEAD < limit
    ensures var op, n1 := PutOp(k, v), Next(n, Done(PutOp(k, v)), limit);
      var r := NewRecord(n.s, op);
      && Possible(n, Done(op), limit)
      && n1.s == Logged(n.s, r) && n1.d == LogTrace(n.d, r)[1] && n1.s.mem == [r]
      && RamOk(n1.s) && DiskOk(n1.s, n1.d) && GetValue(n1.s, k) == Some(v)
      && FrameFits(r) && |FileImage(n1.s.mem)| < U64_LIMIT
  {
    var op := PutOp(k, v);
    var r := NewRecord(n.s, op);
    OverwriteRoom(n.s, k, v);
    SmallFootprint(r);
    hide FrameFits, FileImage, Frame, RamOk, LogOk, FlushTrace, Read, TableLevels, DirOf, LogTrace;
    OperationKeepsOrder(n.s, n.d, op, limit);
    LoggedReads(n.s, r, k);
  }

  lemma ThirdWriteOk(x: Stale)
    requires StaleApplies(x)
    ensures var n2, n3 := AfterTear(x), ThirdWrite(x);
      var r := NewRecord(n2.s, PutOp(x.key, x.last));
      && Possible(n2, Done(PutOp(x.key, x.last)), x.limit)
      && n3.s == Logged(n2.s, r) && n3.d == LogTrace(n2.d, r)[1] && n3.s.mem == [r] && n3.s.tables == []
      && RamOk(n3.s) && DiskOk(n3.s, n3.d) && GetValue(n3.s, x.key) == Some(x.last)
      && FrameFits(r) && |FileImage(n3.s.mem)| < U64_LIMIT
  {
    FirstWriteOk(x);
    AfterTearOk(x);
    hide FirstWrite, AfterTear, FrameFits, FileImage, RamOk, DiskOk, LogTrace, Possible, NodeOk, GetValue, Next;
    OverwriteStep(AfterTear(x), x.key, x.last, x.limit);
  }

  /** A crash of a flush whose table is durable and whose log is not yet reset. */
  lemma FlushCutStep(n: Node, c: Image, limit: nat)
    requires DiskOk(n.s, n.d) && n.s.tables == [] && n.s.mem != [] && |FileImage(n.s.mem)| < U64_LIMIT
    requires c == Image(n.d.wal.current, map[], BytesOf([TableOf(n.s.nextId, n.s.mem)]))
    ensures Possible(n, Crash(FlushOp, 5, c), limit) && CrashImage(FlushTrace(n.s, n.d)[4], c)
  {
    hide FileImage, WriteTrace, TableOf, BytesOf;
    var t := TableOf(n.s.nextId, n.s.mem);
    assert DirOf([]) == map[] && [t] + [] == [t];
    hide DirOf;
    WriteDone(n.d, [], n.s.nextId, n.s.mem);
    DirKeys([t]);
    var d := FlushTrace(n.s, n.d)[4];
    assert DirOutcome(ApplyOps(d.dir, d.pending[..0]), c.ssts);
  }

  /**
   From an empty directory: a key is written; power fails while a longer value for it is
   appended; after reopening it is written again and reads back; power fails during the
   flush of that write, before the log is reset. Then get returns the first value and scan
   the last.
   */
  lemma GetGoesStale(x: Stale)
    requires StaleApplies(x)
    ensures && Possible(Fresh(), Done(PutOp(x.key, x.first)), x.limit)
            && Possible(FirstWrite(x), Crash(PutOp(x.key, x.torn), 1, StaleTear(x)), x.limit)
            && Possible(AfterTear(x), Done(PutOp(x.key, x.last)), x.limit)
            && Possible(ThirdWrite(x), Crash(FlushOp, 5, CutFlush(x)), x.limit)
    ensures GetValue(ThirdWrite(x).s, x.key) == Some(x.last)
    ensures && Recover(CutFlush(x)).Ok?
            && GetValue(Recover(CutFlush(x)).value, x.key) == Some(x.first)
            && (x.key, x.last) in ScanPairs(Recover(CutFlush(x)).value)
  {
    FirstWriteOk(x);
    AfterTearOk(x);
    ThirdWriteOk(x);
    FlushCutStep(ThirdWrite(x), CutFlush(x), x.limit);
    var n1 := FirstWrite(x);
    assert Lookup(n1.s.mem, x.key) == Some(n1.s.mem[0]);
    assert |Frame(SecondRecord(x))| == 25 + |x.key| + |x.torn|;
    var r2 := NewRecord(AfterTear(x).s, PutOp(x.key, x.last));
    assert |Frame(r2)| == 25 + |x.key| + |x.last|;
    hide FirstWrite, AfterTear, StaleTear, SecondRecord, ThirdWrite, FrameFits, FileImage, Frame, RamOk, LogOk, Read, GetValue, TornLogOf,
         Reboot, RecoveredStore, TableLevels, FlushTrace, CutFlush, Recover, Clean, Possible, LogTrace, ScanPairs, CrashImage;
    StaleGetAfterTornFlush(n1.s, n1.d, SecondRecord(x), HEADER, StaleTear(x), x.key, x.last, CutFlush(x));
  }

  // ---- the reissued number ------------------------------------------------------------------------

  /** After any power failure between operations the counter goes on exactly when its last number is still on disk. */
  lemma CounterSurvivesIff(n: Node, c: Image)
    requires NodeOk(n) && !n.exposed && CrashImage(n.d, c)
    ensures Recover(c).Ok?
    ensures Recover(c).value.nextSeq == n.s.nextSeq
            <==> n.s.nextSeq == 1 || Carried(n.d.wal.current, n.s.tables, n.s.nextSeq - 1)
  {
    hide Recover, Replay, MemOf, Stored, Layered, Wf, CrashImage, Carried, SeqUnique, RecoveredStore, BytesOf, DirOf, TableLevels;
    QuietImage(n.d, n.s.tables, c);
    RecoverOpens(c, n.s.tables);
    StoredCons(n.s.mem, TableLevels(n.s.tables));
    RestartKeepsCounterIff(c.wal, n.s.tables, n.s.nextSeq);
  }

  function WriteDeleteCompact(k: bytes, v: bytes): seq<Event> {
    WriteFlushDeleteFlush(k, v) + [Done(CompactOp)]
  }

  /** The compaction of put and tombstone leaves one empty table: neither number is on disk any more. */
  lemma CompactedAway(n: Node, put: Record, tomb: Record, limit: nat)
    requires NodeOk(n) && !n.exposed && Represents(n.s, map[]) && FrameFits(put) && FrameFits(tomb)
    requires put.value.Put? && tomb.value == Delete && put.key == tomb.key
    requires n.s.mem == [] && n.s.tables == [TableOf(1, [tomb])] + [TableOf(0, [put])]
    ensures var n1 := Next(n, Done(CompactOp), limit);
      && Admissible(n, [Done(CompactOp)], limit) && Run(n, [Done(CompactOp)], limit) == n1
      && NodeOk(n1) && !n1.exposed && n1.s.nextSeq == n.s.nextSeq && n1.d.wal == n.d.wal
      && n1.s.tables == [TableOf(n.s.nextId, [])]
  {
    hide Encode, TableOf, FrameFits, RamOk, LogOk, DiskOk, CompactTrace, TableLevels, Merge, FileImage, Represents;
    OneRecordImage(put);
    PutIsShadowed(put, tomb, n.s.tables);
    NothingSurvives(n.s, put, tomb);
    NextRefinesMap(n, Done(CompactOp), limit, map[]);
    CompactedOk(n.s, n.d);
    assert [Done(CompactOp)][1..] == [];
  }

  /** A log and a table without records reopen with number 1. */
  lemma CounterStartsOver(n: Node, id: nat, c: Image)
    requires NodeOk(n) && !n.exposed && n.s.tables == [TableOf(id, [])] && n.d.wal.current == [] && CrashImage(n.d, c)
    ensures Recover(c).Ok? && Recover(c).value.nextSeq == 1
  {
    assert Replay([]) == [] by { EmptyFrame(); }
    OneRecordImage(Record(0, [], Delete));
    assert Writable([]);
    WrittenTable(id, []);
    assert TableLevels(n.s.tables) == [[]];
    hide Recover, Replay, MemOf, Layered, Wf, CrashImage, SeqUnique, RecoveredStore, BytesOf, DirOf, TableLevels, TableOf, FileImage;
    QuietImage(n.d, n.s.tables, c);
    RecoverOpens(c, n.s.tables);
    RestartKeepsCounterIff(c.wal, n.s.tables, 1);
  }

  /**
   From an empty directory: put, flush, delete, flush, compact, restart. Numbers 1 and 2 were
   given to the two writes; the store reopens with number 1 as the next.
   */
  lemma NumberIsReissued(k: bytes, v: bytes, limit: nat, c: Image)
    requires |k| + |v| < SMALL
    requires CrashImage(Run(Fresh(), WriteDeleteCompact(k, v), limit).d, c)
    ensures Admissible(Fresh(), WriteDeleteCompact(k, v), limit)
    ensures Run(Fresh(), WriteDeleteCompact(k, v), limit).s.nextSeq == 3
    ensures Recover(c).Ok? && Recover(c).value.nextSeq == 1
  {
    var put, tomb := Record(1, k, Put(v)), Record(2, k, Delete);
    SmallFits(put);
    SmallFits(tomb);
    TwoTables(k, v, limit);
    var n := Run(Fresh(), WriteFlushDeleteFlush(k, v), limit);
    RunConcat(Fresh(), WriteFlushDeleteFlush(k, v), [Done(CompactOp)], limit);
    hide Fresh, WriteFlushDeleteFlush, Run, Admissible, Next, TableOf, FrameFits, Recover, NodeOk, Represents, CrashImage;
    CompactedAway(n, put, tomb, limit);
    CounterStartsOver(Next(n, Done(CompactOp), limit), n.s.nextId, c);
  }
}
