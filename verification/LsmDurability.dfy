/**
 When an acknowledged write that stays in the log is safe: exactly when the log it is
 appended to has no torn or corrupt tail.
 */
module LsmDurability {
  import opened Bytes
  import opened Encoding
  import opened WalFormat
  import opened LogTail
  import opened KeyOrder
  import opened MemTables
  import opened Levels
  import opened SsTables
  import opened Compaction
  import opened Disks
  import opened Lsm
  import opened LsmInvariant
  import opened LsmRecovery
  import opened LsmCrash
  import opened LsmRuns

  /** An acknowledged write that does not flush the memtable. */
  predicate LogsOnly(s: Store, op: Op, limit: nat) {
    Writes(op) && FrameFits(NewRecord(s, op)) && !Flushes(s, op, limit)
  }

  /** Every such write is still there after a power failure right behind it. */
  ghost predicate WritesSurvive(s: Store, d: DiskState) {
    forall op, limit: nat, c :: LogsOnly(s, op, limit) && CrashImage(Last(d, Trace(s, d, op, limit)), c) ==>
      RecoversLike(c, After(s, op, limit), s.nextSeq + 1)
  }

  /** Every such write leaves a durable store. */
  ghost predicate WritesStayDurable(s: Store, d: DiskState) {
    forall op, limit: nat :: LogsOnly(s, op, limit) ==> Durable(After(s, op, limit), Last(d, Trace(s, d, op, limit)))
  }

  lemma LogsOnlyShape(s: Store, d: DiskState, op: Op, limit: nat)
    requires LogsOnly(s, op, limit)
    ensures After(s, op, limit) == Logged(s, NewRecord(s, op))
    ensures Last(d, Trace(s, d, op, limit)) == LogTrace(d, NewRecord(s, op))[1]
  {
    hide Frame, FrameFits, Full, FlushTrace;
  }

  /** A durable store survives any power failure with nothing pending. */
  lemma DurableSurvives(s: Store, d: DiskState, c: Image)
    requires Durable(s, d) && CrashImage(d, c)
    ensures RecoversLike(c, s, s.nextSeq)
  {
    hide RamOk, LogOk, CrashImage, RecoversLike, DirOf, BytesOf;
    QuietImage(d, s.tables, c);
    RecoversItself(s, d.wal.current, c, s.nextSeq);
  }

  /** More records in a log change what a key reads only by records of that key. */
  lemma {:induction false} LookupOverLog(log: seq<Record>, more: seq<Record>, k: bytes)
    ensures var found := Lookup(MemOf(log + more), k);
      found == Lookup(MemOf(log), k) || (found.Some? && found.value in more && found.value.key == k)
    decreases |more|
  {
    if more == [] {
      assert log + more == log;
    } else {
      var front, last := more[..|more| - 1], more[|more| - 1];
      LookupOverLog(log, front, k);
      hide MemOf, Lookup;
      assert log + more == (log + front) + [last];
      MemOfAppend(log + front, last);
      LookupInsert(MemOf(log + front), last, k);
      assert more == front + [last];
    }
  }

  /** The put on the key of the tail that reads differently from what the store holds. */
  function LostOp(s: Store, wal: bytes): Op {
    var k := LossKey(Tail(wal));
    var value := [0] + Zeros(20) + [1];
    PutOp(k, if GetValue(s, k) == Some(value) then [1] + Zeros(20) + [1] else value)
  }

  lemma LostOpIsLossPut(s: Store, wal: bytes)
    ensures var op := LostOp(s, wal);
      && NewRecord(s, op).value == Put(op.value)
      && GetValue(s, op.key) != Some(op.value)
      && exists b: byte :: NewRecord(s, op) == LossPut(Tail(wal), s.nextSeq, b)
  {
    hide GetValue, LossKey;
    var tail, q := Tail(wal), s.nextSeq;
    assert ([0] + Zeros(20) + [1])[0] == 0 && ([1] + Zeros(20) + [1])[0] == 1;
    assert NewRecord(s, LostOp(s, wal)) == LossPut(tail, q, 0) || NewRecord(s, LostOp(s, wal)) == LossPut(tail, q, 1);
  }

  lemma LostOpIsLost(s: Store, wal: bytes)
    requires !Clean(wal) && s.nextSeq < U64_LIMIT
    ensures var r := NewRecord(s, LostOp(s, wal));
      && FrameFits(r) && Replay(wal + Frame(r)) == Replay(wal) + Replay(Tail(wal) + Frame(r))
      && forall y :: y in Replay(Tail(wal) + Frame(r)) ==> !Same(y, r)
  {
    LostOpIsLossPut(s, wal);
    hide Replay, Frame, FirstFrame, FrameFits, GetValue, LossPut, LostOp;
    var r, tail := NewRecord(s, LostOp(s, wal)), Tail(wal);
    var b: byte :| r == LossPut(tail, s.nextSeq, b);
    LossPutFits(tail, s.nextSeq, b);
    ReplaySplit(wal, Frame(r));
    forall y | y in Replay(tail + Frame(r)) ensures !Same(y, r) {
      LossPutIsLost(tail, s.nextSeq, b, y);
    }
  }

  /** With everything on the device, the store reopens without the put. */
  lemma LostOpReadsOld(s: Store, wal: bytes)
    requires RamOk(s) && LogOk(s, wal) && !Clean(wal) && s.nextSeq < U64_LIMIT
    ensures var op := LostOp(s, wal);
      GetValue(RecoveredStore(wal + Frame(NewRecord(s, op)), s.tables), op.key) != Some(op.value)
  {
    var op := LostOp(s, wal);
    LostOpIsLost(s, wal);
    LostOpIsLossPut(s, wal);
    hide Replay, Frame, FrameFits, LostOp, LossPut, MemOf, Lookup, TableLevels, MaxSeq, RamOk, Clean;
    var r := NewRecord(s, op);
    var junk := Replay(Tail(wal) + Frame(r));
    LookupOverLog(Replay(wal), junk, op.key);
    FirstHitCons(s.mem, TableLevels(s.tables), op.key);
    FirstHitCons(MemOf(Replay(wal) + junk), TableLevels(s.tables), op.key);
  }

  lemma WriteIsLost(s: Store, d: DiskState) returns (op: Op, limit: nat, c: Image)
    requires Durable(s, d) && !Clean(d.wal.current) && s.nextSeq < U64_LIMIT
    ensures LogsOnly(s, op, limit) && CrashImage(Last(d, Trace(s, d, op, limit)), c)
    ensures Recover(c).Ok? && !SameReads(Recover(c).value, After(s, op, limit))
  {
    var wal := d.wal.current;
    op := LostOp(s, wal);
    LostOpIsLost(s, wal);
    LostOpReadsOld(s, wal);
    hide Replay, Frame, FrameFits, LostOp, GetValue, LossPut, LogOk, Clean, Recover, RecoveredStore, DirOf, BytesOf, Trace, After;
    var r := NewRecord(s, op);
    limit := Footprint(Logged(s, r).mem) + 1;
    LogsOnlyShape(s, d, op, limit);
    c := Image(wal + Frame(r), map[], BytesOf(s.tables));
    SyncedImage(s, d, r, c);
    hide CrashImage, LogTrace, Consistent;
    RecoverOpens(c, s.tables);
    LoggedReads(s, r, op.key);
  }

  /** A crash that loses nothing of a synced record. */
  lemma SyncedImage(s: Store, d: DiskState, r: Record, c: Image)
    requires DiskOk(s, d) && c == Image(d.wal.current + Frame(r), map[], BytesOf(s.tables))
    ensures CrashImage(LogTrace(d, r)[1], c)
  {
    hide Frame, DirOf, BytesOf;
    var d1 := LogTrace(d, r)[1];
    DirKeys(s.tables);
    assert DirOutcome(ApplyOps(d1.dir, d1.pending[..0]), c.ssts);
  }

  /** A logged write is safe, against any power failure and for any further run, exactly when the log has no bad tail. */
  lemma AcknowledgedWritesSurviveIff(s: Store, d: DiskState)
    requires Durable(s, d) && s.nextSeq < U64_LIMIT
    ensures WritesSurvive(s, d) <==> Clean(d.wal.current)
    ensures WritesStayDurable(s, d) <==> Clean(d.wal.current)
  {
    hide Durable, Recover, Clean, GetValue, CrashImage, LogsOnly, After, Trace, Last, LogTrace;
    if Clean(d.wal.current) {
      forall op, limit: nat | LogsOnly(s, op, limit)
        ensures Durable(After(s, op, limit), Last(d, Trace(s, d, op, limit)))
        ensures After(s, op, limit).nextSeq == s.nextSeq + 1
      {
        CleanWriteIsDurable(s, d, op, limit);
      }
      forall op, limit: nat, c | LogsOnly(s, op, limit) && CrashImage(Last(d, Trace(s, d, op, limit)), c)
        ensures RecoversLike(c, After(s, op, limit), s.nextSeq + 1)
      {
        DurableSurvives(After(s, op, limit), Last(d, Trace(s, d, op, limit)), c);
      }
    } else {
      var op, limit, c := WriteIsLost(s, d);
      assert !RecoversLike(c, After(s, op, limit), s.nextSeq + 1);
      if Durable(After(s, op, limit), Last(d, Trace(s, d, op, limit))) {
        DurableSurvives(After(s, op, limit), Last(d, Trace(s, d, op, limit)), c);
      }
    }
  }

  lemma CleanWriteIsDurable(s: Store, d: DiskState, op: Op, limit: nat)
    requires Durable(s, d) && Clean(d.wal.current) && LogsOnly(s, op, limit)
    ensures Durable(After(s, op, limit), Last(d, Trace(s, d, op, limit)))
    ensures After(s, op, limit).nextSeq == s.nextSeq + 1
  {
    LogsOnlyShape(s, d, op, limit);
    hide Durable, Clean, FrameFits, After, Trace, Last, LogTrace;
    LoggedDurable(s, d, NewRecord(s, op));
  }
}
