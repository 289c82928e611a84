/**
 The states of 10-database-internals/src/db.rs as values: what each operation does to the
 open store and which sequence of disk states it passes through, and what recovery makes
 of a directory.
 */
module Lsm {
  import opened Bytes
  import opened Encoding
  import opened WalFormat
  import opened KeyOrder
  import opened MemTables
  import opened Levels
  import opened SsTables
  import opened Compaction
  import opened Disks

  /** The fields of an open Db; tables are newest first. */
  datatype Store = Store(mem: seq<Record>, tables: seq<SsTable>, nextSeq: nat, nextId: nat)

  datatype Op = PutOp(key: bytes, value: bytes) | DeleteOp(key: bytes) | FlushOp | CompactOp

  // ---- reading -------------------------------------------------------------------------

  function LevelsOf(s: Store): seq<seq<Record>> {
    [s.mem] + TableLevels(s.tables)
  }

  /** Db::get on intact tables. */
  function GetValue(s: Store, k: bytes): Option<bytes> {
    Read(LevelsOf(s), k)
  }

  function LivePairs(rs: seq<Record>): seq<(bytes, bytes)> {
    if rs == [] then []
    else match rs[0].value
      case Put(v) => [(rs[0].key, v)] + LivePairs(rs[1..])
      case Delete => LivePairs(rs[1..])
  }

  /** Db::scan on intact tables: highest seq per key over all tables and then the memtable. */
  function ScanPairs(s: Store): seq<(bytes, bytes)> {
    LivePairs(NewestPerKey(Flatten(TableLevels(s.tables)) + s.mem))
  }

  // ---- the disk states an operation passes through ------------------------------------------

  function Last(d: DiskState, trace: seq<DiskState>): DiskState {
    if trace == [] then d else trace[|trace| - 1]
  }

  /** Wal::append then Wal::sync. */
  function LogTrace(d: DiskState, r: Record): seq<DiskState> {
    var appended := AppendWal(d, Frame(r));
    [appended, SyncWal(appended)]
  }

  /** SsTable::write: temporary file, fsync, rename, directory fsync. */
  function WriteTrace(d: DiskState, id: nat, image: bytes): (trace: seq<DiskState>)
    ensures |trace| == 5
  {
    var d0 := CreateTmp(d, id);
    var d1 := WriteTmp(d0, id, image);
    var d2 := SyncTmp(d1, id);
    var d3 := RenameTmp(d2, id);
    var d4 := SyncDir(d3);
    [d0, d1, d2, d3, d4]
  }

  /** Wal::reset: truncate, fsync. */
  function ResetTrace(d: DiskState): seq<DiskState> {
    var cut := TruncateWal(d);
    [cut, SyncWal(cut)]
  }

  function FlushTrace(s: Store, d: DiskState): seq<DiskState> {
    if s.mem == [] then []
    else
      var write := WriteTrace(d, s.nextId, FileImage(s.mem));
      write + ResetTrace(write[4])
  }

  /** remove_file for each id in turn. */
  function UnlinkTrace(d: DiskState, ids: seq<nat>): (trace: seq<DiskState>)
    ensures |trace| == |ids|
    decreases |ids|
  {
    if ids == [] then []
    else
      var front := UnlinkTrace(d, ids[..|ids| - 1]);
      front + [UnlinkSst(Last(d, front), ids[|ids| - 1])]
  }

  function Ids(tables: seq<SsTable>): (ids: seq<nat>)
    ensures |ids| == |tables|
    ensures forall i :: 0 <= i < |ids| ==> ids[i] == tables[i].id
  {
    seq(|tables|, i requires 0 <= i < |tables| => tables[i].id)
  }

  function CompactTrace(s: Store, d: DiskState): seq<DiskState> {
    if |s.tables| < 2 then []
    else
      var write := WriteTrace(d, s.nextId, FileImage(Merge(s.tables)));
      var unlink := UnlinkTrace(write[4], Ids(s.tables));
      write + unlink + [SyncDir(Last(write[4], unlink))]
  }

  // ---- what an operation does to the store ----------------------------------------------------

  function Writes(op: Op): bool {
    op.PutOp? || op.DeleteOp?
  }

  /** The record put or delete logs under the next sequence number. */
  function NewRecord(s: Store, op: Op): Record
    requires Writes(op)
  {
    match op
    case PutOp(k, v) => Record(s.nextSeq, k, Put(v))
    case DeleteOp(k) => Record(s.nextSeq, k, Delete)
  }

  function Logged(s: Store, r: Record): Store {
    s.(mem := Insert(s.mem, r), nextSeq := s.nextSeq + 1)
  }

  function Flushed(s: Store): Store {
    if s.mem == [] then s
    else s.(mem := [], tables := [TableOf(s.nextId, s.mem)] + s.tables, nextId := s.nextId + 1)
  }

  function Compacted(s: Store): Store {
    if |s.tables| < 2 then s
    else s.(tables := [TableOf(s.nextId, Merge(s.tables))], nextId := s.nextId + 1)
  }

  /** maybe_flush: has the memtable crossed the threshold? */
  predicate Full(s: Store, limit: nat) {
    Footprint(s.mem) >= limit
  }

  function After(s: Store, op: Op, limit: nat): Store {
    match op
    case FlushOp => Flushed(s)
    case CompactOp => Compacted(s)
    case _ =>
      var logged := Logged(s, NewRecord(s, op));
      if Full(logged, limit) then Flushed(logged) else logged
  }

  function Trace(s: Store, d: DiskState, op: Op, limit: nat): seq<DiskState> {
    match op
    case FlushOp => FlushTrace(s, d)
    case CompactOp => CompactTrace(s, d)
    case _ =>
      var r := NewRecord(s, op);
      var log := LogTrace(d, r);
      if Full(Logged(s, r), limit) then log + FlushTrace(Logged(s, r), log[1]) else log
  }

  // ---- recovery ---------------------------------------------------------------------------------

  function Greatest(ids: set<nat>): (m: nat)
    requires ids != {}
    ensures m in ids && forall i :: i in ids ==> i <= m
  {
    GreatestExists(ids);
    var m :| m in ids && forall i :: i in ids ==> i <= m;
    m
  }

  lemma GreatestExists(ids: set<nat>)
    requires ids != {}
    ensures exists m :: m in ids && forall i :: i in ids ==> i <= m
  {
    var x :| x in ids;
    if ids - {x} != {} {
      GreatestExists(ids - {x});
      var m :| m in ids - {x} && forall i :: i in ids - {x} ==> i <= m;
      var top := if m >= x then m else x;
      assert forall i :: i in ids ==> i == x || i in ids - {x};
      assert top in ids && forall i :: i in ids ==> i <= top;
    } else {
      assert ids == {x};
    }
  }

  /** The ids of a directory, newest first. */
  function Descending(ids: set<nat>): seq<nat> {
    if ids == {} then [] else var m := Greatest(ids); [m] + Descending(ids - {m})
  }

  /** The tables of these ids, newest first; the oldest is opened first. */
  function OpenTables(ssts: map<nat, bytes>, ids: seq<nat>): Outcome<seq<SsTable>>
    requires forall i :: 0 <= i < |ids| ==> ids[i] in ssts
  {
    if ids == [] then Ok([])
    else match OpenTables(ssts, ids[1..])
      case Ok(rest) =>
        (match Open(ssts[ids[0]], ids[0])
         case Ok(t) => Ok([t] + rest)
         case failed => if failed.Panic? then Panic else Corrupt)
      case failed => failed
  }

  function MaxTableSeq(tables: seq<SsTable>): nat {
    if tables == [] then 0 else Max(tables[0].maxSeq, MaxTableSeq(tables[1..]))
  }

  lemma {:induction false} DescendingMembers(ids: set<nat>)
    ensures forall i :: i in ids <==> i in Descending(ids)
  {
    if ids != {} {
      var m := Greatest(ids);
      DescendingMembers(ids - {m});
    }
  }

  /** Db::open_with: open every table, replay the log into a fresh memtable, restore both counters. */
  function Recover(c: Image): Outcome<Store> {
    DescendingMembers(c.ssts.Keys);
    var ids := Descending(c.ssts.Keys);
    match OpenTables(c.ssts, ids)
    case Ok(tables) =>
      var log := Replay(c.wal);
      Ok(Store(MemOf(log), tables, Max(MaxSeq(log), MaxTableSeq(tables)) + 1, if ids == [] then 0 else ids[0] + 1))
    case failed => if failed.Panic? then Panic else Corrupt
  }
}
