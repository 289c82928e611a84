/**
 Two repairs and what they buy. Cutting the log to its replayed prefix when it is opened
 removes every condition on torn tails; unlinking the inputs of a compaction oldest first
 removes the condition on shadowed puts.
 */
module LsmRepair {
  import opened Bytes
  import opened Encoding
  import opened WalFormat
  import opened KeyOrder
  import opened MemTables
  import opened Levels
  import opened SsTables
  import opened Compaction
  import opened Disks
  import opened Lsm
  import opened LsmInvariant
  import opened LsmRecovery
  import opened LsmCrash
  import opened LsmRuns

  // ---- cutting the log -----------------------------------------------------------------------

  /** The part of the log that replay accepted. */
  function Cut(wal: bytes): bytes {
    wal[..ReplayedLen(wal)]
  }

  lemma {:induction false} CutIsClean(wal: bytes)
    ensures Replay(Cut(wal)) == Replay(wal) && Clean(Cut(wal))
    decreases |wal|
  {
    hide FirstFrame;
    match FirstFrame(wal)
    case None =>
      assert Cut(wal) == [];
      assert FirstFrame([]) == None by { EmptyFrame(); }
    case Some((r, n)) =>
      var rest := wal[n..];
      CutIsClean(rest);
      assert Cut(wal) == wal[..n] + Cut(rest);
      FrameIsPrefix(wal, n);
      FirstFrameIgnoresTail(wal[..n], Cut(rest));
      assert (wal[..n] + Cut(rest))[n..] == Cut(rest);
  }

  lemma FrameIsPrefix(wal: bytes, n: nat)
    requires FirstFrame(wal).Some? && FirstFrame(wal).value.1 == n
    ensures n <= |wal| && FirstFrame(wal[..n]) == FirstFrame(wal)
  {
    hide Decode, FromLe;
    assert wal[..n][..4] == wal[..4] && wal[..n][4..8] == wal[4..8] && wal[..n][8..n] == wal[8..n];
  }

  /** The directory after an open that cuts the log. */
  function CutImage(c: Image): Image {
    c.(wal := Cut(c.wal))
  }

  lemma CutKeepsDurable(s: Store, c: Image)
    requires Durable(s, Reboot(c))
    ensures Durable(s, Reboot(CutImage(c))) && Clean(Reboot(CutImage(c)).wal.current)
  {
    hide Replay, Clean, RamOk, Stored, LevelsOf;
    CutIsClean(c.wal);
  }

  // ---- unlinking oldest first ----------------------------------------------------------------

  function Oldest(ts: seq<SsTable>): (r: seq<SsTable>)
    ensures |r| == |ts| && forall i :: 0 <= i < |ts| ==> r[i] == ts[|ts| - 1 - i]
  {
    seq(|ts|, i requires 0 <= i < |ts| => ts[|ts| - 1 - i])
  }

  /** The system calls of a compaction that unlinks its inputs in the other order. */
  function OldestFirstTrace(s: Store, d: DiskState): seq<DiskState> {
    if |s.tables| < 2 then []
    else
      var write := WriteTrace(d, s.nextId, FileImage(Merge(s.tables)));
      var unlink := UnlinkTrace(write[4], Ids(Oldest(s.tables)));
      write + unlink + [SyncDir(Last(write[4], unlink))]
  }

  /** Taking the last table out of the directory. */
  lemma {:induction false} DirOfLast(ts: seq<SsTable>)
    requires ts != [] && DescendingIds(ts)
    ensures DirOf(ts) - {ts[|ts| - 1].id} == DirOf(ts[..|ts| - 1])
    decreases |ts|
  {
    if |ts| == 1 {
      assert ts[1..] == [] && ts[..0] == [];
    } else {
      var rest := ts[1..];
      DirOfLast(rest);
      assert ts[..|ts| - 1][1..] == rest[..|rest| - 1];
      assert ts[0].id > ts[|ts| - 1].id;
    }
  }

  lemma UnlinksSnoc(ts: seq<SsTable>, j: nat)
    requires 0 < j <= |ts|
    ensures var ops := Unlinks(ts[..j]);
      |ops| == j && ops[..j - 1] == Unlinks(ts[..j - 1]) && ops[j - 1] == Unlink(ts[j - 1].id)
  {
    assert ts[..j][..j - 1] == ts[..j - 1];
  }

  lemma OneFewer(m: SsTable, ts: seq<SsTable>, k: nat)
    requires DescendingIds([m] + ts) && k < |ts|
    ensures DirOf([m] + ts[..k + 1]) - {ts[k].id} == DirOf([m] + ts[..k])
  {
    hide DirOf;
    var left := [m] + ts[..k + 1];
    assert left[|left| - 1] == ts[k] && left[..|left| - 1] == [m] + ts[..k];
    assert forall i :: 0 <= i < |left| ==> left[i] == ([m] + ts)[i];
    DirOfLast(left);
  }

  /** Pending unlinks of the oldest tables leave a prefix of them behind the merge. */
  lemma {:induction false} OldestOps(m: SsTable, ts: seq<SsTable>, j: nat)
    requires DescendingIds([m] + ts) && j <= |ts|
    ensures ApplyOps(DirOf([m] + ts), Unlinks(Oldest(ts)[..j])) == DirOf([m] + ts[..|ts| - j])
    decreases j
  {
    if j == 0 {
      assert ts[..|ts|] == ts;
    } else {
      UnlinksSnoc(Oldest(ts), j);
      hide DirOf, Unlinks, DescendingIds;
      OldestOps(m, ts, j - 1);
      OneFewer(m, ts, |ts| - j);
    }
  }

  lemma OldestImage(d: DiskState, m: SsTable, ts: seq<SsTable>, j: nat, c: Image) returns (k: nat)
    requires d.pending == [] && d.dir == DirOf([m] + ts) && d.wal == Synced(d.wal.current)
    requires DescendingIds([m] + ts) && 0 < j <= |ts|
    requires CrashImage(UnlinkTrace(d, Ids(Oldest(ts)))[j - 1], c)
    ensures k <= |ts| && Holds(c, d.wal.current, [m] + ts[..k])
  {
    hide DirOf, BytesOf, DescendingIds, DirOutcome, ApplyOps, UnlinkTrace;
    UnlinkState(d, Oldest(ts), j);
    var x := UnlinkTrace(d, Ids(Oldest(ts)))[j - 1];
    var i :| 0 <= i <= |x.pending| && DirOutcome(ApplyOps(x.dir, x.pending[..i]), c.ssts);
    UnlinksPrefix(Oldest(ts), j, i);
    OldestOps(m, ts, i);
    k := |ts| - i;
    DirOutcomeOf([m] + ts[..k], c.ssts);
  }

  lemma UnlinksPrefix(ts: seq<SsTable>, j: nat, i: nat)
    requires i <= j <= |ts|
    ensures Unlinks(ts[..j])[..i] == Unlinks(ts[..i])
  {
    assert ts[..j][..i] == ts[..i];
  }

  lemma OldestDone(d: DiskState, m: SsTable, ts: seq<SsTable>)
    requires d.pending == [] && d.dir == DirOf([m] + ts) && DescendingIds([m] + ts) && ts != []
    ensures SyncDir(Last(d, UnlinkTrace(d, Ids(Oldest(ts))))) == d.(dir := DirOf([m]))
  {
    hide DirOf;
    UnlinkState(d, Oldest(ts), |ts|);
    assert Oldest(ts)[..|ts|] == Oldest(ts) && ts[..0] == [] && [m] + [] == [m];
    OldestOps(m, ts, |ts|);
  }

  lemma PrefixAmong(s: Store, k: nat)
    requires RamOk(s) && k <= |s.tables|
    ensures Among(s.tables[..k], s.tables) && TableLevels(s.tables[..k]) == TableLevels(s.tables)[..k]
  {
    hide Records, Sorted, FrameFits, Wf;
    var levels := TableLevels(s.tables);
    LayeredUncons(s.mem, levels);
    assert TableLevels(s.tables[..k]) == levels[..k];
    assert Layered(levels[..k]);
  }

  lemma RecoversPrefix(s: Store, wal: bytes, k: nat, c: Image)
    requires RamOk(s) && LogOk(s, wal) && |FileImage(Merge(s.tables))| < U64_LIMIT && k <= |s.tables|
    requires Holds(c, wal, [TableOf(s.nextId, Merge(s.tables))] + s.tables[..k])
    ensures RecoversLike(c, s, s.nextSeq)
  {
    hide Layered, Stored, Read, Records, TableOf, FileImage, Sorted, Merged, Wf, Among, LogOk, Holds, RecoversLike;
    var levels := TableLevels(s.tables);
    PrefixAmong(s, k);
    BesideRam(s, s.tables[..k]);
    TableLevelsSorted(s.tables);
    LayeredUncons(s.mem, levels);
    forall key
      ensures GetValue(Beside(s, s.tables[..k]), key) == GetValue(s, key)
    {
      OldestFirstIsSafe(s.mem, levels, k, key);
    }
    RecoversBeside(s, s.tables[..k], wal, c);
  }

  /** Unlinking oldest first, every crash of every compaction keeps every read, without any condition. */
  lemma OldestFirstCrashSafe(s: Store, d: DiskState, at: nat, c: Image)
    requires Durable(s, d) && |FileImage(Merge(s.tables))| < U64_LIMIT
    requires at <= |OldestFirstTrace(s, d)| && CrashImage(StateAt(d, OldestFirstTrace(s, d), at), c)
    ensures RecoversLike(c, s, s.nextSeq)
  {
    hide RamOk, Replay, TableLevels, LevelsOf, Stored, DirOf, BytesOf, WriteTrace, TableOf, FileImage, UnlinkTrace,
         RecoversLike, MemOf, Holds, Merge, LogOk;
    var n := |s.tables|;
    if n < 2 {
      QuietImage(d, s.tables, c);
      RecoversItself(s, d.wal.current, c, s.nextSeq);
    } else {
      var write := WriteTrace(d, s.nextId, FileImage(Merge(s.tables)));
      var m := TableOf(s.nextId, Merge(s.tables));
      TableId(s.nextId, Merge(s.tables));
      WriteDone(d, s.tables, s.nextId, Merge(s.tables));
      RamShape(s);
      CompactionIds(s, m);
      assert s.tables[..n] == s.tables && s.tables[..0] == [] && [m] + [] == [m];
      if at <= 5 {
        assert StateAt(d, OldestFirstTrace(s, d), at) == StateAt(d, write, at);
        WriteImage(d, s.tables, s.nextId, Merge(s.tables), at, c);
        if Holds(c, d.wal.current, s.tables) {
          RecoversItself(s, d.wal.current, c, s.nextSeq);
        } else {
          RecoversPrefix(s, d.wal.current, n, c);
        }
      } else if at <= 5 + n {
        var unlink := UnlinkTrace(write[4], Ids(Oldest(s.tables)));
        assert StateAt(d, OldestFirstTrace(s, d), at) == unlink[at - 6];
        var k := OldestImage(write[4], m, s.tables, at - 5, c);
        RecoversPrefix(s, d.wal.current, k, c);
      } else {
        OldestDone(write[4], m, s.tables);
        assert StateAt(d, OldestFirstTrace(s, d), at) == SyncDir(Last(write[4], UnlinkTrace(write[4], Ids(Oldest(s.tables)))));
        QuietImage(StateAt(d, OldestFirstTrace(s, d), at), [m], c);
        RecoversPrefix(s, d.wal.current, 0, c);
      }
    }
  }

  /** Completed, the two orders leave the same disk. */
  lemma SameDiskAfterwards(s: Store, d: DiskState)
    requires RamOk(s) && DiskOk(s, d)
    ensures Last(d, OldestFirstTrace(s, d)) == Last(d, CompactTrace(s, d))
  {
    if |s.tables| >= 2 {
      hide RamOk, DirOf, TableOf, FileImage, UnlinkTrace, Merge, WriteTrace, SyncDir, CompactTrace, OldestFirstTrace, Last;
      var m := TableOf(s.nextId, Merge(s.tables));
      var written := WriteTrace(d, s.nextId, FileImage(Merge(s.tables)))[4];
      TableId(s.nextId, Merge(s.tables));
      WriteDone(d, s.tables, s.nextId, Merge(s.tables));
      RamShape(s);
      CompactionIds(s, m);
      UnlinkDone(written, m, s.tables);
      OldestDone(written, m, s.tables);
      LastOfCompact(s, d);
      LastOfOldest(s, d);
    }
  }

  lemma LastOfOldest(s: Store, d: DiskState)
    requires |s.tables| >= 2
    ensures var written := WriteTrace(d, s.nextId, FileImage(Merge(s.tables)))[4];
            Last(d, OldestFirstTrace(s, d)) == SyncDir(Last(written, UnlinkTrace(written, Ids(Oldest(s.tables)))))
  {
    hide WriteTrace, FileImage, Merge, UnlinkTrace, SyncDir;
  }

  // ---- runs of the repaired store -----------------------------------------------------------------

  /** The system calls with or without the second repair. */
  function RepairedTrace(s: Store, d: DiskState, op: Op, limit: nat, oldestFirst: bool): seq<DiskState> {
    if op == CompactOp && oldestFirst then OldestFirstTrace(s, d) else Trace(s, d, op, limit)
  }

  /** An open store; every open has cut the log. */
  datatype Opened = Opened(s: Store, d: DiskState)

  function NextOpened(n: Opened, e: Event, limit: nat, oldestFirst: bool): Opened {
    match e
    case Done(op) => Opened(After(n.s, op, limit), Last(n.d, RepairedTrace(n.s, n.d, op, limit, oldestFirst)))
    case Crash(_, _, image) =>
      match Recover(image)
      case Ok(s) => Opened(s, Reboot(CutImage(image)))
      case _ => n
  }

  ghost predicate CanHappen(n: Opened, e: Event, limit: nat, oldestFirst: bool) {
    && Room(n.s, e.op)
    && (e.Crash? ==>
          && e.at <= |RepairedTrace(n.s, n.d, e.op, limit, oldestFirst)|
          && CrashImage(StateAt(n.d, RepairedTrace(n.s, n.d, e.op, limit, oldestFirst), e.at), e.image))
  }

  /** The one condition left while the unlink loop runs newest first. */
  ghost predicate NothingShadowed(n: Opened, e: Event, oldestFirst: bool) {
    e.Crash? && InUnlinkLoop(n.s, e.op, e.at) && !oldestFirst ==> !ShadowedPut(n.s.mem, TableLevels(n.s.tables))
  }

  ghost predicate RunnableFrom(n: Opened, events: seq<Event>, limit: nat, oldestFirst: bool)
    decreases |events|
  {
    events != [] ==>
      && CanHappen(n, events[0], limit, oldestFirst) && NothingShadowed(n, events[0], oldestFirst)
      && RunnableFrom(NextOpened(n, events[0], limit, oldestFirst), events[1..], limit, oldestFirst)
  }

  /** As above for the store with both repairs: whatever can happen may happen. */
  ghost predicate HappensFrom(n: Opened, events: seq<Event>, limit: nat)
    decreases |events|
  {
    events != [] ==> CanHappen(n, events[0], limit, true) && HappensFrom(NextOpened(n, events[0], limit, true), events[1..], limit)
  }

  function RunOpened(n: Opened, events: seq<Event>, limit: nat, oldestFirst: bool): Opened
    decreases |events|
  {
    if events == [] then n else RunOpened(NextOpened(n, events[0], limit, oldestFirst), events[1..], limit, oldestFirst)
  }

  ghost predicate OpenedOk(n: Opened) {
    Durable(n.s, n.d) && Clean(n.d.wal.current)
  }

  lemma CompletedKeepsClean(n: Opened, op: Op, limit: nat)
    requires OpenedOk(n) && Room(n.s, op)
    ensures Durable(After(n.s, op, limit), Last(n.d, Trace(n.s, n.d, op, limit)))
    ensures Clean(Last(n.d, Trace(n.s, n.d, op, limit)).wal.current)
  {
    assert Clean([]) by { EmptyFrame(); }
    hide RamOk, DiskOk, LogOk, FlushTrace, CompactTrace, Merge, FileImage, Frame, FrameFits, Clean, Full, Insert;
    OperationKeepsDurable(n.s, n.d, op, limit);
    match op
    case FlushOp =>
      if n.s.mem != [] { FlushedDurable(n.s, n.d); } else { NoFlush(n.s, n.d); }
    case CompactOp =>
      CompactedOk(n.s, n.d);
    case _ =>
      WriteKeepsClean(n, op, limit);
  }

  lemma WriteKeepsClean(n: Opened, op: Op, limit: nat)
    requires OpenedOk(n) && Room(n.s, op) && Writes(op)
    ensures Clean(Last(n.d, Trace(n.s, n.d, op, limit)).wal.current)
  {
    assert Clean([]) by { EmptyFrame(); }
    hide RamOk, DiskOk, LogOk, FlushTrace, FileImage, Frame, FrameFits, Clean, Full, Insert;
    var r := NewRecord(n.s, op);
    LoggedDurable(n.s, n.d, r);
    if Full(Logged(n.s, r), limit) {
      LoggedMem(n.s, r);
      FlushedDurable(Logged(n.s, r), LogTrace(n.d, r)[1]);
      TraceWithFlush(n.s, n.d, op, limit);
    }
  }

  lemma OpenedStep(n: Opened, e: Event, limit: nat, oldestFirst: bool, m: Dict)
    requires OpenedOk(n) && Represents(n.s, m) && CanHappen(n, e, limit, oldestFirst) && NothingShadowed(n, e, oldestFirst)
    ensures var n1, m1 := NextOpened(n, e, limit, oldestFirst), Apply(m, e.op);
      && OpenedOk(n1)
      && (|| Represents(n1.s, m1)
          || (e.Crash? && !(Writes(e.op) && e.at >= 2) && Represents(n1.s, m)))
  {
    hide RamOk, DiskOk, LogOk, After, Trace, OldestFirstTrace, Recover, Represents, Room, CrashImage, ShadowedPut, TableLevels, Apply,
         Clean, CutImage;
    match e
    case Done(op) =>
      CompletedKeepsClean(n, op, limit);
      OperationRefinesMap(n.s, n.d, op, limit, m);
      SameDisk(n.s, n.d, op, limit, oldestFirst);
    case Crash(op, at, c) =>
      if op == CompactOp && oldestFirst {
        CompactRoom(n.s);
        OldestFirstCrashSafe(n.s, n.d, at, c);
        SameReadsRepresent(Recover(c).value, n.s, m);
      } else {
        CrashRefinesMap(n.s, n.d, op, limit, at, c, m);
      }
      CutKeepsDurable(Recover(c).value, c);
  }

  lemma CompactRoom(s: Store)
    requires Room(s, CompactOp)
    ensures |FileImage(Merge(s.tables))| < U64_LIMIT
  {
  }

  lemma SameDisk(s: Store, d: DiskState, op: Op, limit: nat, oldestFirst: bool)
    requires RamOk(s) && DiskOk(s, d)
    ensures Last(d, RepairedTrace(s, d, op, limit, oldestFirst)) == Last(d, Trace(s, d, op, limit))
  {
    hide RamOk, DiskOk, OldestFirstTrace, CompactTrace;
    if op == CompactOp && oldestFirst { SameDiskAfterwards(s, d); }
  }

  /**
   Durability over any number of crashes, with the log cut on every open: no condition on
   torn tails is left. The condition on the unlink loop stays as long as it runs newest first.
   */
  lemma {:induction false} CutRunRefinesMap(n: Opened, events: seq<Event>, limit: nat, oldestFirst: bool, m: Dict)
    requires OpenedOk(n) && Represents(n.s, m) && RunnableFrom(n, events, limit, oldestFirst)
    ensures OpenedOk(RunOpened(n, events, limit, oldestFirst))
    ensures exists m' :: MayBecome(m, events, m') && Represents(RunOpened(n, events, limit, oldestFirst).s, m')
    decreases |events|
  {
    if events == [] {
      assert MayBecome(m, events, m);
    } else {
      hide OpenedOk, Represents, NextOpened, CanHappen, NothingShadowed, Apply;
      var e := events[0];
      OpenedStep(n, e, limit, oldestFirst, m);
      var n1 := NextOpened(n, e, limit, oldestFirst);
      var m1 := if Represents(n1.s, Apply(m, e.op)) then Apply(m, e.op) else m;
      CutRunRefinesMap(n1, events[1..], limit, oldestFirst, m1);
      var m' :| MayBecome(m1, events[1..], m') && Represents(RunOpened(n1, events[1..], limit, oldestFirst).s, m');
      assert MayBecome(m, events, m');
    }
  }

  /** With both repairs every run whatsoever, crashed anywhere any number of times, refines the map. */
  lemma RepairedRunRefinesMap(n: Opened, events: seq<Event>, limit: nat, m: Dict)
    requires OpenedOk(n) && Represents(n.s, m) && HappensFrom(n, events, limit)
    ensures OpenedOk(RunOpened(n, events, limit, true))
    ensures exists m' :: MayBecome(m, events, m') && Represents(RunOpened(n, events, limit, true).s, m')
  {
    HappensIsRunnable(n, events, limit);
    hide OpenedOk, Represents, RunnableFrom, RunOpened;
    CutRunRefinesMap(n, events, limit, true, m);
  }

  lemma {:induction false} HappensIsRunnable(n: Opened, events: seq<Event>, limit: nat)
    requires HappensFrom(n, events, limit)
    ensures RunnableFrom(n, events, limit, true)
    decreases |events|
  {
    if events != [] {
      hide CanHappen, NextOpened;
      HappensIsRunnable(NextOpened(n, events[0], limit, true), events[1..], limit);
    }
  }

  /** The empty directory, opened. */
  lemma FreshOpened()
    ensures OpenedOk(Opened(Fresh().s, Fresh().d)) && Represents(Fresh().s, map[])
  {
    FreshOk();
    hide RamOk, LogOk, DiskOk, FirstFrame;
    EmptyFrame();
  }
}
