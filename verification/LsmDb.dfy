/** The Db object of 10-database-internals/src/db.rs over a disk, checked against the value-level model. */
module LsmDb {
  import opened Bytes
  import opened Encoding
  import opened WalFormat
  import opened KeyOrder
  import opened MemTables
  import opened Levels
  import opened SsTables
  import opened Compaction
  import opened Disks
  import opened Lsm
  import opened LsmInvariant
  import opened LsmCrash
  import opened LsmReachable
  import opened LsmRecovery
  import opened LsmRuns
  import opened LsmThreshold
  import Crc32

  // ---- wal.rs -----------------------------------------------------------------------------

  method LogRecord(disk: Disk, table: seq<Crc32.Word>, record: Record)
    requires Crc32.IsTable(table)
    modifies disk
    ensures disk.history == old(disk.history) + LogTrace(old(disk.now), record)
    ensures disk.now == LogTrace(old(disk.now), record)[1]
  {
    hide Frame, Crc32.IsTable;
    var frame := BuildFrame(table, record);
    disk.Append(frame);
    disk.SyncLog();
  }

  method ResetLog(disk: Disk)
    modifies disk
    ensures disk.history == old(disk.history) + ResetTrace(old(disk.now))
    ensures disk.now == ResetTrace(old(disk.now))[1]
  {
    disk.SetLogLen0();
    disk.SyncLog();
  }

  // ---- sstable.rs: write ---------------------------------------------------------------------

  method WriteTable(disk: Disk, id: nat, records: seq<Record>)
    modifies disk
    ensures disk.history == old(disk.history) + WriteTrace(old(disk.now), id, FileImage(records))
    ensures disk.now == WriteTrace(old(disk.now), id, FileImage(records))[4]
  {
    hide FileImage;
    var data := BuildImage(records);
    disk.Create(id);
    disk.WriteAll(id, data);
    disk.SyncFile(id);
    disk.Rename(id);
    disk.SyncDirectory();
  }

  // ---- db.rs ------------------------------------------------------------------------------------

  class Db {
    const disk: Disk
    const mem: MemTable
    const limit: nat
    const crcTable: seq<Crc32.Word>
    var sstables: seq<SsTable>
    var seqno: nat
    var nextSstId: nat

    function State(): Store
      reads this, mem
    {
      Store(mem.entries, sstables, seqno, nextSstId)
    }

    ghost predicate Valid()
      reads this, mem, disk
    {
      mem.Valid() && Crc32.IsTable(crcTable) && ShapeOk(State()) && DiskOk(State(), disk.now)
    }

    /** The object and its disk are where `op` takes them from the given store, disk and history. */
    ghost predicate Reached(s: Store, d: DiskState, h: seq<DiskState>, op: Op)
      reads this, mem, disk
    {
      && State() == After(s, op, limit)
      && disk.now == Last(d, Trace(s, d, op, limit))
      && disk.history == h + Trace(s, d, op, limit)
    }

    /** The record is in the memtable, which is below the threshold; or a new table has taken the memtable over. */
    predicate Settled(s: Store, r: Record)
      reads this, mem
    {
      var all := KeyOrder.Insert(s.mem, r);
      if Footprint(all) < limit then
        State() == Store(all, s.tables, s.nextSeq + 1, s.nextId)
      else
        State() == Store([], [TableOf(s.nextId, all)] + s.tables, s.nextSeq + 1, s.nextId + 1)
    }

    constructor (disk: Disk, mem: MemTable, tables: seq<SsTable>, nextSeq: nat, nextId: nat, limit: nat, crcTable: seq<Crc32.Word>)
      ensures this.disk == disk && this.mem == mem && this.limit == limit && this.crcTable == crcTable
      ensures State() == Store(mem.entries, tables, nextSeq, nextId)
    {
      this.disk := disk;
      this.mem := mem;
      this.limit := limit;
      this.crcTable := crcTable;
      sstables, seqno, nextSstId := tables, nextSeq, nextId;
    }

    /** First hit from the memtable to the oldest table; a tombstone hit ends the search. */
    method Get(key: bytes) returns (r: Outcome<Option<bytes>>)
      requires mem.Valid() && TablesOk(sstables)
      ensures r == Ok(GetValue(State(), key))
    {
      hide FirstHit, Lookup, Wf, SsTables.Get, Records, Sorted;
      var levels := TableLevels(sstables);
      FirstHitCons(mem.entries, levels, key);
      var hit := mem.Get(key);
      if hit.Some? { return Ok(Value(hit)); }
      assert levels[0..] == levels;
      for i := 0 to |sstables|
        invariant FirstHit(levels[i..], key) == FirstHit(levels, key)
      {
        TableRead(sstables[i], key);
        assert levels[i..] == [levels[i]] + levels[i + 1..];
        FirstHitCons(levels[i], levels[i + 1..], key);
        var record := GetRecord(sstables[i], key);
        if record.value.Some? { return Ok(Value(record.value)); }
      }
      NoHit(levels, key);
      return Ok(None);
    }

    method Scan() returns (r: Outcome<seq<(bytes, bytes)>>)
      requires mem.Valid() && TablesOk(sstables)
      ensures r == Ok(ScanPairs(State()))
    {
      hide Lookup, Wf, Records, Sorted, KeepNewest, Iter, LivePairs;
      var best: seq<Record> := [];
      ghost var seen: seq<Record> := [];
      FlattenSnoc([], []);
      for i := 0 to |sstables|
        invariant seen == Flatten(TableLevels(sstables[..i])) && best == NewestPerKey(seen)
      {
        TableRead(sstables[i], []);
        var part := IterTable(sstables[i]);
        best := KeepAll(best, seen, part.value);
        seen := seen + part.value;
        assert TableLevels(sstables[..i + 1]) == TableLevels(sstables[..i]) + [part.value];
        FlattenSnoc(TableLevels(sstables[..i]), part.value);
      }
      assert sstables[..|sstables|] == sstables;
      best := KeepAll(best, seen, mem.entries);
      var out := Live(best);
      return Ok(out);
    }

    method Put(key: bytes, value: bytes)
      requires Valid() && Room(State(), PutOp(key, value))
      modifies this, mem, disk
      ensures Valid() && Reached(old(State()), old(disk.now), old(disk.history), PutOp(key, value))
      ensures Settled(old(State()), NewRecord(old(State()), PutOp(key, value)))
    {
      hide Crc32.IsTable, ShapeOk, DiskOk, Room, LogTrace, Sorted, After, Trace, FileImage, Footprint, KeyOrder.Insert, TableOf;
      WriteShape(State(), disk.now, PutOp(key, value), limit);
      WriteFlushesIff(State(), PutOp(key, value), limit);
      Commit(Record(seqno, key, ValueKind.Put(value)));
      MaybeFlush();
    }

    method Delete(key: bytes)
      requires Valid() && Room(State(), DeleteOp(key))
      modifies this, mem, disk
      ensures Valid() && Reached(old(State()), old(disk.now), old(disk.history), DeleteOp(key))
      ensures Settled(old(State()), NewRecord(old(State()), DeleteOp(key)))
    {
      hide Crc32.IsTable, ShapeOk, DiskOk, Room, LogTrace, Sorted, After, Trace, FileImage, Footprint, KeyOrder.Insert, TableOf;
      WriteShape(State(), disk.now, DeleteOp(key), limit);
      WriteFlushesIff(State(), DeleteOp(key), limit);
      Commit(Record(seqno, key, ValueKind.Delete));
      MaybeFlush();
    }

    /** Take the next sequence number, log the record, fsync, and only then apply it to the memtable. */
    method Commit(record: Record)
      requires mem.Valid() && Crc32.IsTable(crcTable)
      modifies this, mem, disk
      ensures mem.Valid()
      ensures State() == Logged(old(State()), record)
      ensures disk.now == LogTrace(old(disk.now), record)[1]
      ensures disk.history == old(disk.history) + LogTrace(old(disk.now), record)
    {
      hide Crc32.IsTable, LogTrace, Sorted, Footprint;
      seqno := seqno + 1;
      LogRecord(disk, crcTable, record);
      mem.Insert(record);
    }

    method MaybeFlush()
      requires Valid() && Room(State(), FlushOp)
      modifies this, mem, disk
      ensures Valid()
      ensures if Footprint(old(mem.entries)) >= limit then Reached(old(State()), old(disk.now), old(disk.history), FlushOp)
              else State() == old(State()) && disk.now == old(disk.now) && disk.history == old(disk.history)
    {
      hide ShapeOk, DiskOk, Room, Reached, Footprint, Crc32.IsTable, Sorted;
      if mem.approxBytes >= limit {
        Flush();
      }
    }

    method Flush()
      requires Valid() && Room(State(), FlushOp)
      modifies this, mem, disk
      ensures Valid() && Reached(old(State()), old(disk.now), old(disk.history), FlushOp)
    {
      OperationKeepsShape(State(), disk.now, FlushOp, limit);
      FlushIsWritable(State());
      hide ShapeOk, DiskOk, Room, Writable, FlushTrace, Flushed, Last, Footprint, Crc32.IsTable, Sorted;
      WriteMemtable();
    }

    method WriteMemtable()
      requires mem.Valid() && Writable(mem.entries)
      modifies this, mem, disk
      ensures mem.Valid() && Reached(old(State()), old(disk.now), old(disk.history), FlushOp)
    {
      hide WriteTrace, Footprint, FileImage, Writable, Sorted, Open, TableOf, ResetTrace, Trace, After, Last;
      ghost var s, d, h := State(), disk.now, disk.history;
      if mem.entries == [] {
        NothingToFlush(s, d, limit);
        return;
      }
      var records := mem.entries;
      WriteTable(disk, nextSstId, records);
      OpenWritten(nextSstId, records);
      var table := OpenTable(FileImage(records), nextSstId);
      sstables := [table.value] + sstables;
      nextSstId := nextSstId + 1;
      mem.Clear();
      ResetLog(disk);
      FlushDone(s, d, h, limit, disk.history, disk.now);
    }

    method Compact()
      requires Valid() && Room(State(), CompactOp)
      modifies this, disk
      ensures Valid() && Reached(old(State()), old(disk.now), old(disk.history), CompactOp)
    {
      hide FileImage, ShapeOk, DiskOk, Merge, Iter, Crc32.IsTable, Sorted, Trace, After, Writable, Footprint, Last, Room,
           WriteTrace, TableOf, RemovalTrace, Ids;
      OperationKeepsShape(State(), disk.now, CompactOp, limit);
      MergeIsReadable(State());
      if |sstables| < 2 {
        NothingToCompact(State(), disk.now, limit);
      } else {
        MergeInputs();
      }
    }

    method MergeInputs()
      requires |sstables| >= 2
      requires Writable(Merge(sstables)) && forall t :: t in sstables ==> Iter(t).Ok?
      modifies this, disk
      ensures Reached(old(State()), old(disk.now), old(disk.history), CompactOp)
    {
      hide WriteTrace, FileImage, Merge, TableOf, RemovalTrace, Iter, Trace, After, Writable, Last, Ids;
      ghost var s, d, h := State(), disk.now, disk.history;
      var oldIds := Ids(sstables);
      var merged := WriteMerged(disk, nextSstId, sstables);
      sstables := [merged];
      nextSstId := nextSstId + 1;
      RemoveAll(disk, oldIds);
      CompactDone(s, d, h, limit, disk.history, disk.now);
    }
  }

  lemma Associative<T>(a: seq<T>, b: seq<T>, c: seq<T>)
    ensures a + b + c == a + (b + c)
  {
  }

  /** compaction::compact, and the new table opened. */
  method WriteMerged(disk: Disk, id: nat, tables: seq<SsTable>) returns (table: SsTable)
    requires Writable(Merge(tables)) && forall t :: t in tables ==> Iter(t).Ok?
    modifies disk
    ensures disk.history == old(disk.history) + WriteTrace(old(disk.now), id, FileImage(Merge(tables)))
    ensures disk.now == WriteTrace(old(disk.now), id, FileImage(Merge(tables)))[4]
    ensures table == TableOf(id, Merge(tables))
  {
    hide WriteTrace, FileImage, Merge, Open, TableOf, Iter, Writable;
    var merged := MergeTables(tables);
    WriteTable(disk, id, merged.value);
    OpenWritten(id, merged.value);
    var t := OpenTable(FileImage(merged.value), id);
    table := t.value;
  }

  /** A write is its two log steps, followed by a flush when the memtable is full. */
  lemma WriteShape(s: Store, d: DiskState, op: Op, limit: nat)
    requires ShapeOk(s) && DiskOk(s, d) && Room(s, op) && Writes(op)
    ensures var r := NewRecord(s, op);
            var s1, d1 := Logged(s, r), LogTrace(d, r)[1];
            && ShapeOk(s1) && DiskOk(s1, d1) && Room(s1, FlushOp)
            && After(s, op, limit) == (if Full(s1, limit) then After(s1, FlushOp, limit) else s1)
            && Trace(s, d, op, limit) == LogTrace(d, r) + (if Full(s1, limit) then Trace(s1, d1, FlushOp, limit) else [])
            && Last(d, Trace(s, d, op, limit)) == (if Full(s1, limit) then Last(d1, Trace(s1, d1, FlushOp, limit)) else d1)
  {
    hide FlushTrace, Frame, FileImage, FrameFits, Full, ShapeOk, DiskOk;
    LoggedShape(s, NewRecord(s, op));
    LoggedDisk(s, d, NewRecord(s, op));
  }

  lemma FlushIsWritable(s: Store)
    requires ShapeOk(s) && Room(s, FlushOp)
    ensures Writable(s.mem)
  {
    hide FileImage, Stored, Wf, Sorted, AllFit;
  }

  lemma NothingToFlush(s: Store, d: DiskState, limit: nat)
    requires s.mem == []
    ensures Trace(s, d, FlushOp, limit) == [] && Last(d, []) == d && After(s, FlushOp, limit) == s
  {
  }

  /** Writing the table and resetting the log is the whole trace of a flush. */
  lemma FlushDone(s: Store, d: DiskState, h: seq<DiskState>, limit: nat, history: seq<DiskState>, now: DiskState)
    requires s.mem != []
    requires var write := WriteTrace(d, s.nextId, FileImage(s.mem));
             var reset := ResetTrace(write[4]);
             history == h + write + reset && now == reset[1]
    ensures history == h + Trace(s, d, FlushOp, limit)
    ensures now == Last(d, Trace(s, d, FlushOp, limit))
    ensures After(s, FlushOp, limit) == Store([], [TableOf(s.nextId, s.mem)] + s.tables, s.nextSeq, s.nextId + 1)
  {
    hide WriteTrace, FileImage, TableOf;
    var write := WriteTrace(d, s.nextId, FileImage(s.mem));
    Associative(h, write, ResetTrace(write[4]));
  }

  /** Fewer than two tables: compaction does nothing. */
  lemma NothingToCompact(s: Store, d: DiskState, limit: nat)
    requires |s.tables| < 2
    ensures Trace(s, d, CompactOp, limit) == [] && Last(d, []) == d && After(s, CompactOp, limit) == s
  {
    hide WriteTrace, FileImage, Merge, UnlinkTrace, TableOf;
  }

  /** Writing the merged table and removing its inputs is the whole trace of a compaction. */
  lemma CompactDone(s: Store, d: DiskState, h: seq<DiskState>, limit: nat, history: seq<DiskState>, now: DiskState)
    requires |s.tables| >= 2
    requires var write := WriteTrace(d, s.nextId, FileImage(Merge(s.tables)));
             var removal := RemovalTrace(write[4], Ids(s.tables));
             history == h + write + removal && now == Last(write[4], removal)
    ensures history == h + Trace(s, d, CompactOp, limit)
    ensures now == Last(d, Trace(s, d, CompactOp, limit))
    ensures After(s, CompactOp, limit) == Store(s.mem, [TableOf(s.nextId, Merge(s.tables))], s.nextSeq, s.nextId + 1)
  {
    hide WriteTrace, FileImage, Merge, UnlinkTrace, TableOf;
    var write := WriteTrace(d, s.nextId, FileImage(Merge(s.tables)));
    Associative(h, write, RemovalTrace(write[4], Ids(s.tables)));
  }

  function RemovalTrace(d: DiskState, ids: seq<nat>): seq<DiskState> {
    var unlink := UnlinkTrace(d, ids);
    unlink + [SyncDir(Last(d, unlink))]
  }

  /** Every input of a compaction iterates, and the survivors can be written. */
  lemma MergeIsReadable(s: Store)
    requires ShapeOk(s) && Room(s, CompactOp)
    ensures forall t :: t in s.tables ==> Iter(t).Ok?
    ensures Writable(Merge(s.tables))
  {
    MergeWritable(s);
    hide Wf, Stored, Merge, FileImage, Iter;
    forall t | t in s.tables
      ensures Iter(t).Ok?
    {
      TableRead(t, []);
    }
  }

  /** remove_file for each input in turn, then one directory sync. */
  method RemoveAll(disk: Disk, ids: seq<nat>)
    modifies disk
    ensures disk.history == old(disk.history) + RemovalTrace(old(disk.now), ids)
    ensures disk.now == Last(old(disk.now), RemovalTrace(old(disk.now), ids))
  {
    for i := 0 to |ids|
      invariant disk.history == old(disk.history) + UnlinkTrace(old(disk.now), ids[..i])
      invariant disk.now == Last(old(disk.now), UnlinkTrace(old(disk.now), ids[..i]))
    {
      assert ids[..i + 1][..i] == ids[..i];
      disk.Remove(ids[i]);
    }
    assert ids[..|ids|] == ids;
    disk.SyncDirectory();
  }

  lemma NoHit(levels: seq<seq<Record>>, k: bytes)
    ensures FirstHit(levels[|levels|..], k) == None
  {
  }

  /** keep_newest over one source's records. */
  method KeepAll(start: seq<Record>, ghost seen: seq<Record>, records: seq<Record>) returns (best: seq<Record>)
    requires start == NewestPerKey(seen)
    ensures best == NewestPerKey(seen + records)
  {
    best := start;
    assert records[0..] == records;
    for i := 0 to |records|
      invariant NewestFrom(best, records[i..]) == NewestFrom(start, records)
    {
      hide Insert, Lookup;
      var existing := Lookup(best, records[i].key);
      if existing.None? || existing.value.seqno < records[i].seqno {
        best := Insert(best, records[i]);
      }
      assert records[i..][1..] == records[i + 1..];
    }
    NewestFromConcat([], seen, records);
  }

  method Live(rs: seq<Record>) returns (out: seq<(bytes, bytes)>)
    ensures out == LivePairs(rs)
  {
    out := [];
    assert rs[0..] == rs;
    for i := 0 to |rs|
      invariant out + LivePairs(rs[i..]) == LivePairs(rs)
    {
      assert rs[i..][1..] == rs[i + 1..];
      match rs[i].value {
        case Put(v) => out := out + [(rs[i].key, v)];
        case Delete =>
      }
    }
  }

  // ---- open_with ----------------------------------------------------------------------------------

  method OpenAll(disk: Disk, ghost ssts: map<nat, bytes>, ids: seq<nat>) returns (r: Outcome<seq<SsTable>>)
    requires ssts.Keys == disk.now.dir.Keys && forall id :: id in ssts ==> ssts[id] == disk.now.dir[id].current
    requires forall i :: 0 <= i < |ids| ==> ids[i] in ssts
    ensures r == OpenTables(ssts, ids)
  {
    hide Open;
    var tables: seq<SsTable> := [];
    var i := |ids|;
    while i > 0
      invariant 0 <= i <= |ids|
      invariant OpenTables(ssts, ids[i..]) == Ok(tables)
    {
      i := i - 1;
      assert ids[i..][1..] == ids[i + 1..];
      var t := OpenTable(disk.now.dir[ids[i]].current, ids[i]);
      if !t.Ok? {
        OpenFails(ssts, ids, i);
        return if t.Panic? then Panic else Corrupt;
      }
      tables := [t.value] + tables;
    }
    assert ids[0..] == ids;
    return Ok(tables);
  }

  lemma {:induction false} OpenFails(ssts: map<nat, bytes>, ids: seq<nat>, i: nat)
    requires i <= |ids| && forall j :: 0 <= j < |ids| ==> ids[j] in ssts
    requires !OpenTables(ssts, ids[i..]).Ok?
    ensures OpenTables(ssts, ids) == OpenTables(ssts, ids[i..])
    decreases i
  {
    if i == 0 {
      assert ids[0..] == ids;
    } else {
      hide Open;
      assert ids[1..][i - 1..] == ids[i..];
      OpenFails(ssts, ids[1..], i - 1);
    }
  }

  lemma OpensInShape(c: Image)
    ensures forall ts :: TablesOk(ts) && c.ssts == BytesOf(ts) ==>
              Recover(c).Ok? && ShapeOk(Recover(c).value) && DiskOk(Recover(c).value, Reboot(c))
  {
    hide TablesOk, BytesOf, ShapeOk, DiskOk, Recover;
    forall ts | TablesOk(ts) && c.ssts == BytesOf(ts)
      ensures Recover(c).Ok? && ShapeOk(Recover(c).value) && DiskOk(Recover(c).value, Reboot(c))
    {
      ReopensInShape(c, ts);
    }
  }

  /** Db::open_with on a directory left by a crash: all the recovery there is. Over well-formed tables it always succeeds. */
  method OpenWith(disk: Disk, ghost c: Image, limit: nat) returns (r: Outcome<Db>)
    requires disk.now == Reboot(c)
    ensures r.Ok? <==> Recover(c).Ok?
    ensures r.Ok? ==>
              && r.value.State() == Recover(c).value
              && r.value.disk == disk && r.value.limit == limit
              && r.value.mem.Valid() && Crc32.IsTable(r.value.crcTable)
    ensures forall ts :: TablesOk(ts) && c.ssts == BytesOf(ts) ==> r.Ok? && r.value.Valid()
  {
    hide OpenTables, Descending, Replay, Crc32.IsTable, Sorted, Footprint, TablesOk, BytesOf, ShapeOk, DiskOk;
    OpensInShape(c);
    DescendingMembers(disk.now.dir.Keys);
    assert disk.now.dir.Keys == c.ssts.Keys;
    var ids := Descending(disk.now.dir.Keys);
    var tables := OpenAll(disk, c.ssts, ids);
    if !tables.Ok? { return if tables.Panic? then Panic else Corrupt; }
    var nextId := if ids == [] then 0 else ids[0] + 1;
    var crcTable := Crc32.BuildTable();
    var replayed := ReplayLog(crcTable, disk.now.wal.current);
    var mem := new MemTable();
    assert replayed[..0] == [];
    for i := 0 to |replayed|
      invariant mem.Valid() && mem.entries == MemOf(replayed[..i])
      invariant fresh(mem)
    {
      assert replayed[..i + 1] == replayed[..i] + [replayed[i]];
      MemOfAppend(replayed[..i], replayed[i]);
      mem.Insert(replayed[i]);
    }
    assert replayed[..|replayed|] == replayed;
    var maxWal := HighestSeq(replayed);
    var maxSst := HighestTableSeq(tables.value);
    var db := new Db(disk, mem, tables.value, Max(maxWal, maxSst) + 1, nextId, limit, crcTable);
    return Ok(db);
  }

  method HighestSeq(rs: seq<Record>) returns (m: nat)
    ensures m == MaxSeq(rs)
  {
    m := 0;
    assert rs[0..] == rs;
    for i := 0 to |rs|
      invariant Max(m, MaxSeq(rs[i..])) == MaxSeq(rs)
    {
      assert rs[i..][1..] == rs[i + 1..];
      m := Max(m, rs[i].seqno);
    }
  }

  method HighestTableSeq(ts: seq<SsTable>) returns (m: nat)
    ensures m == MaxTableSeq(ts)
  {
    m := 0;
    assert ts[0..] == ts;
    for i := 0 to |ts|
      invariant Max(m, MaxTableSeq(ts[i..])) == MaxTableSeq(ts)
    {
      assert ts[i..][1..] == ts[i + 1..];
      m := Max(m, ts[i].maxSeq);
    }
  }
}
