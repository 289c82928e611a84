/** When a write flushes the memtable, and how large the memtable can be. */
module LsmThreshold {
  import opened Bytes
  import opened Encoding
  import opened WalFormat
  import opened KeyOrder
  import opened MemTables
  import opened Levels
  import opened SsTables
  import opened Compaction
  import opened Disks
  import opened Lsm
  import opened LsmInvariant
  import opened LsmRecovery
  import opened LsmCrash
  import opened LsmRuns

  /** The byte estimate: keys and values, and 48 bytes an entry. */
  lemma {:induction false} FootprintParts(a: seq<Record>, b: seq<Record>, r: Record)
    ensures Footprint(a + b) == Footprint(a) + Footprint(b)
    ensures Footprint([r]) == |r.key| + (match r.value case Put(v) => |v| case Delete => 0) + 48
    decreases |a|
  {
    assert [r][1..] == [];
    if a == [] {
      assert a + b == b;
    } else {
      assert (a + b)[1..] == a[1..] + b;
      FootprintParts(a[1..], b, r);
    }
  }

  /** Nothing in memory, or less than the threshold. */
  predicate Small(s: Store, limit: nat) {
    s.mem == [] || Footprint(s.mem) < limit
  }

  lemma InsertedIsFound(mem: seq<Record>, r: Record)
    ensures Lookup(Insert(mem, r), r.key) == Some(r) && Insert(mem, r) != []
  {
    LookupInsert(mem, r, r.key);
  }

  /** A write whose record leaves the memtable below the threshold stays in memory; any other empties the memtable into a new table. */
  lemma WriteFlushesIff(s: Store, op: Op, limit: nat)
    requires Writes(op)
    ensures var r, t := NewRecord(s, op), After(s, op, limit);
      if Footprint(Insert(s.mem, r)) < limit then
        t.tables == s.tables && t.nextId == s.nextId && t.mem == Insert(s.mem, r) && Lookup(t.mem, r.key) == Some(r)
      else
        t.mem == [] && t.tables == [TableOf(s.nextId, Insert(s.mem, r))] + s.tables && t.nextId == s.nextId + 1
    ensures After(s, op, limit).nextSeq == s.nextSeq + 1
    ensures Small(After(s, op, limit), limit)
  {
    hide Footprint, Insert, TableOf;
    InsertedIsFound(s.mem, NewRecord(s, op));
  }

  /** The same for the disk: below the threshold the log has grown by the frame; otherwise it is empty. */
  lemma WriteLogIff(s: Store, d: DiskState, op: Op, limit: nat)
    requires DiskOk(s, d) && Writes(op)
    ensures var r, x := NewRecord(s, op), Last(d, Trace(s, d, op, limit));
      x.wal == Synced(if Footprint(Insert(s.mem, r)) < limit then d.wal.current + Frame(r) else [])
  {
    hide Footprint, Insert, TableOf, Frame, DirOf, FileImage;
    var r := NewRecord(s, op);
    var s1, d1 := Logged(s, r), LogTrace(d, r)[1];
    InsertedIsFound(s.mem, r);
    LoggedDisk(s, d, r);
    if Footprint(Insert(s.mem, r)) >= limit {
      FlushedDisk(s1, d1);
      TraceWithFlush(s, d, op, limit);
    }
  }

  /** Every completed operation keeps the memtable small; a write or a flush makes it small. */
  lemma OperationKeepsSmall(s: Store, op: Op, limit: nat)
    requires op != CompactOp || Small(s, limit)
    ensures Small(After(s, op, limit), limit)
  {
    hide Footprint, TableOf, Merge;
    if Writes(op) { WriteFlushesIff(s, op, limit); }
  }

  predicate AllDone(events: seq<Event>) {
    forall i :: 0 <= i < |events| ==> events[i].Done?
  }

  lemma {:induction false} DoneKeepsSmall(n: Node, events: seq<Event>, limit: nat)
    requires Small(n.s, limit) && AllDone(events)
    ensures Small(Run(n, events, limit).s, limit)
    decreases |events|
  {
    if events != [] {
      hide Small, After, Trace;
      OperationKeepsSmall(n.s, events[0].op, limit);
      DoneKeepsSmall(Next(n, events[0], limit), events[1..], limit);
    }
  }

  /** In every state of every run in which a write or a flush completed since the last crash, the memtable is small. */
  lemma MemtableStaysSmall(n: Node, before: seq<Event>, op: Op, behind: seq<Event>, limit: nat)
    requires op != CompactOp && AllDone(behind)
    ensures Small(Run(n, before + [Done(op)] + behind, limit).s, limit)
  {
    var middle := Run(n, before, limit);
    RunConcat(n, before + [Done(op)], behind, limit);
    RunConcat(n, before, [Done(op)], limit);
    hide Small, After, Trace, Admissible;
    assert [Done(op)][1..] == [];
    assert Run(middle, [Done(op)], limit) == Next(middle, Done(op), limit);
    OperationKeepsSmall(middle.s, op, limit);
    DoneKeepsSmall(Next(middle, Done(op), limit), behind, limit);
  }

  /** Without crashes, in every state of every run from an empty directory. */
  lemma FreshStaysSmall(events: seq<Event>, limit: nat)
    requires AllDone(events)
    ensures Small(Run(Fresh(), events, limit).s, limit)
  {
    DoneKeepsSmall(Fresh(), events, limit);
  }

  /**
   A crash can leave more in memory: a write that reaches the threshold and is cut between
   its log sync and the rename of its table reopens with everything in the memtable.
   */
  lemma CutFlushReopensLarge(s: Store, d: DiskState, op: Op, limit: nat) returns (c: Image)
    requires Durable(s, d) && Clean(d.wal.current) && Writes(op) && Room(s, op)
    requires Footprint(Insert(s.mem, NewRecord(s, op))) >= limit
    ensures 2 <= |Trace(s, d, op, limit)| && CrashImage(StateAt(d, Trace(s, d, op, limit), 2), c)
    ensures Recover(c).Ok? && Recover(c).value.mem == Insert(s.mem, NewRecord(s, op)) && !Small(Recover(c).value, limit)
  {
    var r := NewRecord(s, op);
    hide Footprint, Insert, TableOf, Frame, FileImage, FrameFits, Clean, Replay, MemOf, MaxSeq, Recover, CrashImage, FlushTrace, RamOk,
         LogOk, DiskOk, BytesOf;
    InsertedIsFound(s.mem, r);
    LoggedDurable(s, d, r);
    TraceWithFlush(s, d, op, limit);
    StateInLog(s, d, op, limit, 2);
    c := LoggedImage(s, d, r);
  }

  lemma LoggedImage(s: Store, d: DiskState, r: Record) returns (c: Image)
    requires Durable(Logged(s, r), LogTrace(d, r)[1])
    ensures CrashImage(LogTrace(d, r)[1], c) && Recover(c).Ok? && Recover(c).value.mem == Insert(s.mem, r)
  {
    hide Frame, Replay, MemOf, MaxSeq, Recover, CrashImage, BytesOf, DirOf, Insert, Wf, Layered, Stored, Sorted, AllFit;
    c := WholeImage(LogTrace(d, r)[1], s.tables);
    RecoverOpens(c, s.tables);
  }

  /** However a crash cuts the operation short, the reopened memtable is small. */
  ghost predicate ReopensSmall(s: Store, d: DiskState, op: Op, limit: nat) {
    forall at: nat, c :: at <= |Trace(s, d, op, limit)| && CrashImage(StateAt(d, Trace(s, d, op, limit), at), c) ==>
                           Recover(c).Ok? ==> Small(Recover(c).value, limit)
  }

  lemma RecoveredMem(c: Image)
    ensures Recover(c).Ok? ==> Recover(c).value.mem == MemOf(Replay(c.wal))
  {
    hide MemOf, Replay, OpenTables, MaxSeq, MaxTableSeq, Descending;
  }

  lemma LogImageMem(s: Store, d: DiskState, r: Record, at: nat, c: Image)
    requires Durable(s, d) && Clean(d.wal.current) && FrameFits(r)
    requires at <= 2 && CrashImage(StateAt(d, LogTrace(d, r), at), c)
    ensures MemOf(Replay(c.wal)) == s.mem || MemOf(Replay(c.wal)) == Insert(s.mem, r)
  {
    hide RamOk, Replay, Frame, FrameFits, MemOf, Clean, DirOf, BytesOf, Insert;
    var wal := d.wal.current;
    AppendedLog(wal, r);
    if at == 0 {
      assert c.wal == wal;
    } else if at == 2 {
      assert c.wal == wal + Frame(r);
    } else {
      PrefixBetween(wal, Frame(r), c.wal);
      var n := |c.wal| - |wal|;
      if n < |Frame(r)| { TornLog(wal, r, n); } else { assert Frame(r)[..n] == Frame(r); }
    }
  }

  lemma EmptyMem()
    ensures MemOf(Replay([])) == []
  {
    EmptyFrame();
    hide FirstFrame;
    assert Replay([]) == [];
  }

  /** A crash of a flush or a compaction reopens with the memtable, or without it. */
  lemma TableImageMem(s: Store, d: DiskState, op: Op, limit: nat, at: nat, c: Image)
    requires Durable(s, d) && !Writes(op)
    requires at <= |Trace(s, d, op, limit)| && CrashImage(StateAt(d, Trace(s, d, op, limit), at), c)
    ensures MemOf(Replay(c.wal)) == s.mem || MemOf(Replay(c.wal)) == []
  {
    RamShape(s);
    EmptyMem();
    hide RamOk, ShapeOk, DiskOk, Replay, MemOf, FlushTrace, CompactTrace, CrashImage, StateAt, BytesOf, TableOf, Merge;
    if op == FlushOp {
      FlushImage(s, d, at, c);
    } else {
      var j := CompactImage(s, d, at, c);
    }
  }

  /** A small durable store reopens small after every crash of an operation exactly when that is no write that reaches the threshold. */
  lemma CrashKeepsSmallIff(s: Store, d: DiskState, op: Op, limit: nat)
    requires Durable(s, d) && LogReady(d, op) && Room(s, op) && Small(s, limit)
    ensures ReopensSmall(s, d, op, limit) <==> !(Writes(op) && Footprint(Insert(s.mem, NewRecord(s, op))) >= limit)
  {
    LogReadyClean(d, op);
    hide Durable, LogReady, Footprint, Insert, Clean, FlushTrace, CompactTrace, CrashImage, StateAt, Recover, MemOf, Replay;
    if Writes(op) && Footprint(Insert(s.mem, NewRecord(s, op))) >= limit {
      var c := CutFlushReopensLarge(s, d, op, limit);
    } else {
      forall at: nat, c | at <= |Trace(s, d, op, limit)| && CrashImage(StateAt(d, Trace(s, d, op, limit), at), c)
        ensures Recover(c).Ok? ==> Small(Recover(c).value, limit)
      {
        RecoveredMem(c);
        if Writes(op) {
          StateInLog(s, d, op, limit, at);
          LogImageMem(s, d, NewRecord(s, op), at, c);
        } else {
          TableImageMem(s, d, op, limit, at, c);
        }
      }
    }
  }

  /** Two or more tables become one; fewer are left alone, and the disk with them. */
  lemma CompactLeavesOne(s: Store, d: DiskState, limit: nat)
    requires ShapeOk(s) && DiskOk(s, d) && |FileImage(Merge(s.tables))| < U64_LIMIT
    ensures var t := After(s, CompactOp, limit);
      if |s.tables| < 2 then t == s && Trace(s, d, CompactOp, limit) == []
      else
        && |t.tables| == 1 && t.tables[0].id == s.nextId && t.nextId == s.nextId + 1 && t.mem == s.mem && t.nextSeq == s.nextSeq
        && Records(t.tables[0]) == Merge(s.tables)
        && Last(d, Trace(s, d, CompactOp, limit)).dir == map[s.nextId := Synced(t.tables[0].file)]
  {
    hide Merge, FileImage, Wf, Stored, Sorted, AllFit, TableOf, WriteTrace, UnlinkTrace, Records;
    if |s.tables| >= 2 {
      MergeWritable(s);
      WrittenTable(s.nextId, Merge(s.tables));
      TableId(s.nextId, Merge(s.tables));
      CompactedDisk(s, d);
      OneTableDir(TableOf(s.nextId, Merge(s.tables)));
    }
  }

  lemma OneTableDir(t: SsTable)
    ensures DirOf([t]) == map[t.id := Synced(t.file)]
  {
    DirOfCons(t, []);
  }
}
