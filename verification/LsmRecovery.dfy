/** What Db::open_with rebuilds from a directory and a log. */
module LsmRecovery {
  import opened Bytes
  import opened Encoding
  import opened WalFormat
  import opened KeyOrder
  import opened MemTables
  import opened Levels
  import opened SsTables
  import opened Compaction
  import opened Disks
  import opened Lsm
  import opened LsmInvariant

  // ---- directories ---------------------------------------------------------------------

  function BytesOf(ts: seq<SsTable>): map<nat, bytes> {
    if ts == [] then map[] else BytesOf(ts[1..])[ts[0].id := ts[0].file]
  }

  predicate DescendingIds(ts: seq<SsTable>) {
    forall i, j :: 0 <= i < j < |ts| ==> ts[i].id > ts[j].id
  }

  lemma {:induction false} DirKeys(ts: seq<SsTable>)
    ensures forall id :: id in DirOf(ts) <==> exists i :: 0 <= i < |ts| && ts[i].id == id
    ensures DirOf(ts).Keys == BytesOf(ts).Keys
    ensures forall id :: id in DirOf(ts) ==> DirOf(ts)[id] == Synced(BytesOf(ts)[id])
  {
    if ts != [] {
      DirKeys(ts[1..]);
      forall id
        ensures id in DirOf(ts) <==> exists i :: 0 <= i < |ts| && ts[i].id == id
      {
        if id in DirOf(ts) {
          if id == ts[0].id {
          } else {
            var i :| 0 <= i < |ts[1..]| && ts[1..][i].id == id;
            assert ts[i + 1].id == id;
          }
        }
        if i :| 0 <= i < |ts| && ts[i].id == id {
          if i > 0 { assert ts[1..][i - 1].id == id; }
        }
      }
    }
  }

  /** A crash with nothing pending finds exactly the live tables. */
  lemma DirOutcomeOf(ts: seq<SsTable>, ssts: map<nat, bytes>)
    requires DirOutcome(DirOf(ts), ssts)
    ensures ssts == BytesOf(ts)
  {
    hide DirOf, BytesOf;
    DirKeys(ts);
    forall id | id in ssts
      ensures ssts[id] == BytesOf(ts)[id]
    {
      assert FileOutcome(DirOf(ts)[id], ssts[id]);
    }
  }

  lemma {:induction false} BytesAt(ts: seq<SsTable>, i: nat)
    requires DescendingIds(ts) && i < |ts|
    ensures ts[i].id in BytesOf(ts) && BytesOf(ts)[ts[i].id] == ts[i].file
  {
    if i > 0 {
      BytesAt(ts[1..], i - 1);
      assert ts[0].id > ts[i].id;
    }
  }

  lemma KeysStep(ts: seq<SsTable>)
    requires DescendingIds(ts) && ts != []
    ensures var keys := BytesOf(ts).Keys;
            && ts[0].id in keys && (forall id :: id in keys ==> id <= ts[0].id)
            && keys - {ts[0].id} == BytesOf(ts[1..]).Keys
  {
    DirKeys(ts[1..]);
    DirKeys(ts);
  }

  lemma {:induction false} DescendingOf(ts: seq<SsTable>)
    requires DescendingIds(ts)
    ensures Descending(BytesOf(ts).Keys) == Ids(ts)
  {
    hide BytesOf, Greatest;
    if ts == [] {
      assert BytesOf([]).Keys == {} by { DirKeys([]); EmptyBytes(); }
    } else {
      KeysStep(ts);
      assert Greatest(BytesOf(ts).Keys) == ts[0].id;
      DescendingOf(ts[1..]);
      assert Ids(ts) == [ts[0].id] + Ids(ts[1..]);
    }
  }

  lemma EmptyBytes()
    ensures BytesOf([]) == map[]
  {
  }

  lemma {:induction false} OpenTablesOf(ssts: map<nat, bytes>, ts: seq<SsTable>)
    requires forall i :: 0 <= i < |ts| ==> Wf(ts[i])
    requires forall i :: 0 <= i < |ts| ==> ts[i].id in ssts && ssts[ts[i].id] == ts[i].file
    ensures OpenTables(ssts, Ids(ts)) == Ok(ts)
  {
    hide Open, Wf;
    if ts != [] {
      OpenWf(ts[0]);
      var rest := ts[1..];
      assert forall i :: 0 <= i < |rest| ==> rest[i] == ts[i + 1];
      OpenTablesOf(ssts, rest);
      assert Ids(ts)[1..] == Ids(rest);
      assert ts == [ts[0]] + rest;
    }
  }

  lemma OpenWf(t: SsTable)
    requires Wf(t)
    ensures Open(t.file, t.id) == Ok(t)
    ensures t.maxSeq == MaxSeq(Records(t))
  {
    hide Open, TableOf, Records, Writable, MaxSeq;
    TableId(t.id, Records(t));
    OpenWritten(t.id, Records(t));
  }

  /** The store that opening a log next to a list of live tables gives. */
  function RecoveredStore(wal: bytes, ts: seq<SsTable>): Store {
    Store(MemOf(Replay(wal)), ts, Max(MaxSeq(Replay(wal)), MaxTableSeq(ts)) + 1, if ts == [] then 0 else ts[0].id + 1)
  }

  lemma RecoverOpens(c: Image, ts: seq<SsTable>)
    requires TablesOk(ts) && c.ssts == BytesOf(ts)
    ensures Recover(c) == Ok(RecoveredStore(c.wal, ts))
  {
    hide Replay, MemOf, MaxSeq, Wf, OpenTables, Descending, BytesOf;
    DescendingOf(ts);
    forall i | 0 <= i < |ts|
      ensures ts[i].id in c.ssts && c.ssts[ts[i].id] == ts[i].file
    {
      BytesAt(ts, i);
    }
    DescendingMembers(c.ssts.Keys);
    OpenTablesOf(c.ssts, ts);
  }

  lemma {:induction false} MaxTableSeqCovers(ts: seq<SsTable>, r: Record)
    requires forall i :: 0 <= i < |ts| ==> Wf(ts[i])
    requires Stored(TableLevels(ts), r)
    ensures r.seqno <= MaxTableSeq(ts)
  {
    hide Records, Wf, MaxSeq;
    var rest := ts[1..];
    assert forall i :: 0 <= i < |rest| ==> rest[i] == ts[i + 1];
    OpenWf(ts[0]);
    MaxSeqBounds(Records(ts[0]));
    TableLevelsStored(ts);
    if r !in Records(ts[0]) {
      MaxTableSeqCovers(rest, r);
    }
  }

  lemma TableLevelsStored(ts: seq<SsTable>)
    requires ts != []
    ensures forall x :: Stored(TableLevels(ts), x) <==> x in Records(ts[0]) || Stored(TableLevels(ts[1..]), x)
  {
    hide Records;
    assert ts == [ts[0]] + ts[1..];
    TableLevelsCons(ts[0], ts[1..]);
    StoredCons(Records(ts[0]), TableLevels(ts[1..]));
  }

  lemma {:induction false} MaxTableSeqBelow(ts: seq<SsTable>, bound: nat)
    requires forall i :: 0 <= i < |ts| ==> Wf(ts[i])
    requires bound > 0 && forall r :: Stored(TableLevels(ts), r) ==> r.seqno < bound
    ensures MaxTableSeq(ts) < bound
  {
    if ts != [] {
      hide Records, Wf, MaxSeq;
      var rest := ts[1..];
      assert forall i :: 0 <= i < |rest| ==> rest[i] == ts[i + 1];
      OpenWf(ts[0]);
      TableLevelsStored(ts);
      MaxSeqBelow(Records(ts[0]), bound);
      MaxTableSeqBelow(rest, bound);
    }
  }

  lemma {:induction false} MaxSeqBelow(rs: seq<Record>, bound: nat)
    requires bound > 0 && forall r :: r in rs ==> r.seqno < bound
    ensures MaxSeq(rs) < bound
  {
    if rs != [] {
      assert rs == [rs[0]] + rs[1..];
      MaxSeqBelow(rs[1..], bound);
    }
  }

  /** Whatever is consistent on disk reopens into a store that satisfies every invariant. */
  lemma RecoveredOk(wal: bytes, ts: seq<SsTable>)
    requires Consistent(MemOf(Replay(wal)), ts)
    requires SeqUnique(Replay(wal), TableLevels(ts))
    ensures var s := RecoveredStore(wal, ts); RamOk(s) && LogOk(s, wal)
  {
    hide Replay, MemOf, MaxSeq, MaxTableSeq, Wf, Sorted, AllFit, Records, Layered, Stored, TableLevels;
    RecoveredMem(wal);
    StoredCons(MemOf(Replay(wal)), TableLevels(ts));
    RecoveredBelowNext(wal, ts);
  }

  lemma RecoveredBelowNext(wal: bytes, ts: seq<SsTable>)
    requires TablesOk(ts)
    ensures forall r :: r in Replay(wal) || Stored(TableLevels(ts), r) ==> r.seqno < RecoveredStore(wal, ts).nextSeq
  {
    hide Replay, MemOf, MaxSeq, MaxTableSeq, Wf, Stored, TableLevels;
    MaxSeqBounds(Replay(wal));
    forall r | Stored(TableLevels(ts), r)
      ensures r.seqno <= MaxTableSeq(ts)
    {
      MaxTableSeqCovers(ts, r);
    }
  }

  /** The restored counter does not exceed any strict upper bound on the sequence numbers on disk. */
  lemma RecoveredSeqBound(wal: bytes, ts: seq<SsTable>, bound: nat)
    requires TablesOk(ts) && bound > 0
    requires forall r :: r in Replay(wal) || Stored(TableLevels(ts), r) ==> r.seqno < bound
    ensures RecoveredStore(wal, ts).nextSeq <= bound
  {
    hide Replay, MemOf, Wf, Records;
    MaxSeqBelow(Replay(wal), bound);
    MaxTableSeqBelow(ts, bound);
  }

  lemma {:induction false} MaxTableSeqAttained(ts: seq<SsTable>)
    requires forall i :: 0 <= i < |ts| ==> Wf(ts[i])
    ensures MaxTableSeq(ts) == 0 || exists r :: Stored(TableLevels(ts), r) && r.seqno == MaxTableSeq(ts)
  {
    if ts != [] {
      hide Records, Wf, MaxSeq, Stored, TableLevels;
      var rest := ts[1..];
      assert forall i :: 0 <= i < |rest| ==> rest[i] == ts[i + 1];
      OpenWf(ts[0]);
      TableLevelsStored(ts);
      MaxSeqBounds(Records(ts[0]));
      if Records(ts[0]) == [] { assert MaxSeq([]) == 0 by { EmptyMaxSeq(); } }
      MaxTableSeqAttained(rest);
    }
  }

  lemma EmptyMaxSeq()
    ensures MaxSeq([]) == 0
  {
  }

  /** Some record of the log or the tables carries this sequence number. */
  ghost predicate Carried(wal: bytes, ts: seq<SsTable>, seqno: nat) {
    exists r :: (r in Replay(wal) || Stored(TableLevels(ts), r)) && r.seqno == seqno
  }

  /** A restart continues at next exactly when the number before it is still on disk, or none was ever given. */
  lemma RestartKeepsCounterIff(wal: bytes, ts: seq<SsTable>, next: nat)
    requires TablesOk(ts) && next > 0
    requires forall r :: r in Replay(wal) || Stored(TableLevels(ts), r) ==> r.seqno < next
    ensures RecoveredStore(wal, ts).nextSeq == next <==> next == 1 || Carried(wal, ts, next - 1)
  {
    hide Replay, MemOf, Wf, Records, MaxSeq, MaxTableSeq, Stored, TableLevels;
    var log := Replay(wal);
    RecoveredSeqBound(wal, ts, next);
    MaxSeqBounds(log);
    if log == [] { EmptyMaxSeq(); }
    MaxTableSeqAttained(ts);
    if Carried(wal, ts, next - 1) {
      var r :| (r in log || Stored(TableLevels(ts), r)) && r.seqno == next - 1;
      if Stored(TableLevels(ts), r) { MaxTableSeqCovers(ts, r); }
    }
  }

  lemma RebootOk(c: Image, ts: seq<SsTable>)
    requires c.ssts == BytesOf(ts)
    ensures DiskOk(RecoveredStore(c.wal, ts), Reboot(c)) && Reboot(c).wal.current == c.wal
  {
    hide Replay, MemOf, MaxSeq;
    DirKeys(ts);
  }

  /** The next table gets the number after the greatest one found, or 0. */
  lemma RecoveredNextId(wal: bytes, ts: seq<SsTable>)
    requires DescendingIds(ts)
    ensures var next := RecoveredStore(wal, ts).nextId;
            if ts == [] then next == 0
            else (forall t :: t in ts ==> t.id < next) && exists t :: t in ts && t.id + 1 == next
  {
    hide Replay, MemOf, MaxSeq, MaxTableSeq;
    if ts != [] { assert ts[0] in ts; }
  }
}
