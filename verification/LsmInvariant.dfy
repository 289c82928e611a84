/**
 What every state of the store keeps: sorted levels, per-key sequence numbers that never
 increase towards older levels, one record per sequence number, and counters above
 everything stored.
 */
module LsmInvariant {
  import opened Bytes
  import opened Encoding
  import opened WalFormat
  import opened KeyOrder
  import opened MemTables
  import opened Levels
  import opened SsTables
  import opened Compaction
  import opened Disks
  import opened Lsm

  /** The table is what opening the image of its own record list gives. */
  predicate Wf(t: SsTable) {
    Writable(Records(t)) && t == TableOf(t.id, Records(t))
  }

  predicate TablesOk(ts: seq<SsTable>) {
    && (forall i :: 0 <= i < |ts| ==> Wf(ts[i]))
    && (forall i, j :: 0 <= i < j < |ts| ==> ts[i].id > ts[j].id)
  }

  ghost predicate SeqUnique(log: seq<Record>, levels: seq<seq<Record>>) {
    forall a, b :: (a in log || Stored(levels, a)) && (b in log || Stored(levels, b)) && a.seqno == b.seqno ==> a == b
  }

  ghost predicate Consistent(mem: seq<Record>, ts: seq<SsTable>) {
    TablesOk(ts) && Sorted(mem) && AllFit(mem) && Layered([mem] + TableLevels(ts))
  }

  /** The open store: levels in order, counters above everything stored. */
  ghost predicate RamOk(s: Store) {
    && Consistent(s.mem, s.tables)
    && s.nextSeq > 0
    && (forall r :: Stored(LevelsOf(s), r) ==> r.seqno < s.nextSeq)
    && (forall i :: 0 <= i < |s.tables| ==> s.tables[i].id < s.nextId)
    && SeqUnique([], LevelsOf(s))
  }

  /** What holds even behind a torn log: a sorted memtable, well-formed tables, and both counters above everything stored. */
  ghost predicate ShapeOk(s: Store) {
    && TablesOk(s.tables) && Sorted(s.mem) && AllFit(s.mem)
    && s.nextSeq > 0
    && (forall r :: Stored(LevelsOf(s), r) ==> r.seqno < s.nextSeq)
    && (forall i :: 0 <= i < |s.tables| ==> s.tables[i].id < s.nextId)
  }

  lemma RamShape(s: Store)
    requires RamOk(s)
    ensures ShapeOk(s) && Layered(LevelsOf(s))
  {
    hide Layered, Stored, TableLevels, TablesOk, AllFit, Sorted;
  }

  /** The log on its own would rebuild the memtable. */
  ghost predicate LogOk(s: Store, wal: bytes) {
    && s.mem == MemOf(Replay(wal))
    && (forall r :: r in Replay(wal) ==> r.seqno < s.nextSeq)
    && SeqUnique(Replay(wal), LevelsOf(s))
  }

  function DirOf(ts: seq<SsTable>): map<nat, File> {
    if ts == [] then map[] else DirOf(ts[1..])[ts[0].id := Synced(ts[0].file)]
  }

  /** Nothing is pending and the directory holds exactly the live tables. */
  predicate DiskOk(s: Store, d: DiskState) {
    d.pending == [] && d.dir == DirOf(s.tables) && d.wal == Synced(d.wal.current)
  }

  // ---- single tables -----------------------------------------------------------------------

  lemma WrittenTable(id: nat, rs: seq<Record>)
    requires Writable(rs)
    ensures Wf(TableOf(id, rs)) && Records(TableOf(id, rs)) == rs
  {
    hide TableOf, Iter, Writable;
    IterWritten(id, rs);
    TableId(id, rs);
  }

  lemma TableId(id: nat, rs: seq<Record>)
    ensures TableOf(id, rs).id == id && TableOf(id, rs).file == FileImage(rs) && TableOf(id, rs).maxSeq == MaxSeq(rs)
  {
  }

  lemma TableRead(t: SsTable, k: bytes)
    requires Wf(t)
    ensures Get(t, k) == Ok(Lookup(Records(t), k)) && Iter(t) == Ok(Records(t)) && IndexSorted(t.index)
  {
    hide Get, Iter, Records;
    GetWritten(t.id, Records(t), k);
    IterWritten(t.id, Records(t));
    IndexOfSorted(Records(t), 0);
  }

  lemma TableLevelsCons(t: SsTable, ts: seq<SsTable>)
    ensures TableLevels([t] + ts) == [Records(t)] + TableLevels(ts)
  {
  }

  lemma TableLevelsSorted(ts: seq<SsTable>)
    requires TablesOk(ts)
    ensures AllSorted(TableLevels(ts))
  {
    hide Records, Sorted;
    forall i | 0 <= i < |ts|
      ensures Sorted(Records(ts[i]))
    {
      assert Wf(ts[i]);
    }
  }

  // ---- the memtable ------------------------------------------------------------------------------

  lemma {:induction false} ReplayFits(buf: bytes)
    ensures AllFit(Replay(buf))
    decreases |buf|
  {
    match FirstFrame(buf)
    case None =>
    case Some((r, n)) =>
      FirstFrameFits(buf, r, n);
      ReplayFits(buf[n..]);
  }

  lemma FirstFrameFits(buf: bytes, r: Record, n: nat)
    requires FirstFrame(buf) == Some((r, n))
    ensures FrameFits(r)
  {
    FromLeRange(buf[4..8]);
    hide Crc32.CrcValue, Decode, Encode, FromLe;
    var payload := buf[8..n];
    DecodeFits(payload, r, Decode(payload).value.1);
  }

  /** What recovery puts in the memtable is sorted and fits its fields. */
  lemma RecoveredMem(wal: bytes)
    ensures Sorted(MemOf(Replay(wal))) && AllFit(MemOf(Replay(wal)))
    ensures forall r :: r in MemOf(Replay(wal)) ==> r in Replay(wal)
  {
    hide Replay, FrameFits;
    ReplayFits(wal);
    MemOfSorted(Replay(wal));
  }

  /** A logged write keeps the layering: it carries the highest seq so far. */
  lemma InsertKeeps(mem: seq<Record>, levels: seq<seq<Record>>, r: Record)
    requires Layered([mem] + levels) && Sorted(mem)
    requires forall x :: Stored([mem] + levels, x) ==> x.seqno < r.seqno
    ensures Layered([Insert(mem, r)] + levels) && Sorted(Insert(mem, r))
    ensures forall x :: Stored([Insert(mem, r)] + levels, x) ==> x == r || Stored([mem] + levels, x)
  {
    LayeredUncons(mem, levels);
    StoredCons(mem, levels);
    StoredCons(Insert(mem, r), levels);
    InsertSorted(mem, r);
    forall x | x in Insert(mem, r)
      ensures x == r || x in mem
    {
      InsertMembers(mem, r, x);
    }
    LayeredCons(Insert(mem, r), levels);
  }

  /** Moving the memtable into a new first level keeps the layering, before and after it is cleared. */
  lemma FlushKeeps(mem: seq<Record>, levels: seq<seq<Record>>)
    requires Layered([mem] + levels) && Sorted(mem)
    ensures Layered([mem] + ([mem] + levels)) && Layered([[]] + ([mem] + levels))
    ensures forall x :: Stored([mem] + ([mem] + levels), x) <==> Stored([mem] + levels, x)
    ensures forall x :: Stored([[]] + ([mem] + levels), x) <==> Stored([mem] + levels, x)
  {
    var all := [mem] + levels;
    StoredCons(mem, levels);
    LayeredUncons(mem, levels);
    forall a, b | a in mem && b in mem && a.key == b.key
      ensures a == b
    {
      LookupMember(mem, a);
      LookupMember(mem, b);
    }
    LayeredCons(mem, all);
    LayeredCons([], all);
    StoredCons(mem, all);
    StoredCons([], all);
  }

  lemma FlushReads(mem: seq<Record>, levels: seq<seq<Record>>, k: bytes)
    ensures Read([mem] + ([mem] + levels), k) == Read([mem] + levels, k)
    ensures Read([[]] + ([mem] + levels), k) == Read([mem] + levels, k)
  {
    FirstHitCons(mem, [mem] + levels, k);
    FirstHitCons([], [mem] + levels, k);
    FirstHitCons(mem, levels, k);
  }

  // ---- compaction -------------------------------------------------------------------------------------

  /** Whatever the order of the levels, the merge is sorted and holds stored puts only. */
  lemma MergedStored(levels: seq<seq<Record>>)
    ensures Sorted(Merged(levels))
    ensures forall r :: r in Merged(levels) ==> Stored(levels, r) && r.value.Put?
  {
    hide Stored, Sorted;
    var all := Flatten(levels);
    NewestPerKeySummarises(all);
    DropTombstonesSorted(NewestPerKey(all));
    forall r | r in Merged(levels)
      ensures Stored(levels, r) && r.value.Put?
    {
      DropTombstonesMembers(NewestPerKey(all), r);
      FlattenStored(levels, r);
    }
  }

  /** Looking a key up in the merge is reading it through all the levels. */
  lemma LookupMerged(levels: seq<seq<Record>>, k: bytes)
    requires AllSorted(levels) && Layered(levels)
    ensures Sorted(Merged(levels))
    ensures Lookup(Merged(levels), k) ==
            match FirstHit(levels, k) case Some(r) => (if r.value.Put? then Some(r) else None) case None => None
  {
    var all := Flatten(levels);
    forall r
      ensures r in all <==> Stored(levels, r)
    {
      FlattenStored(levels, r);
    }
    NewestPerKeySummarises(all);
    ReadsAgree(levels, all, k);
    DropTombstonesSorted(NewestPerKey(all));
    LookupDropTombstones(NewestPerKey(all), k);
  }

  /** Every merged record is stored, and newest among the records of its key. */
  lemma MergedMembers(levels: seq<seq<Record>>, r: Record)
    requires AllSorted(levels) && Layered(levels) && r in Merged(levels)
    ensures Stored(levels, r) && r.value.Put?
    ensures forall x :: Stored(levels, x) && x.key == r.key ==> x.seqno < r.seqno || x == r
  {
    LookupMerged(levels, r.key);
    LookupMember(Merged(levels), r);
    FirstHitIsNewest(levels, r.key);
  }

  /** Putting the merge in front of a part of the levels it was made from keeps the layering. */
  lemma MergeInFront(mem: seq<Record>, levels: seq<seq<Record>>, rest: seq<seq<Record>>)
    requires AllSorted(levels) && Layered([mem] + levels)
    requires Layered(rest) && forall x :: Stored(rest, x) ==> Stored(levels, x)
    ensures Layered([mem] + ([Merged(levels)] + rest))
    ensures forall x :: Stored([mem] + ([Merged(levels)] + rest), x) ==> Stored([mem] + levels, x)
  {
    hide Merged, Sorted;
    var m := Merged(levels);
    LayeredUncons(mem, levels);
    StoredCons(mem, levels);
    StoredCons(m, rest);
    StoredCons(mem, [m] + rest);
    forall r | r in m
      ensures Stored(levels, r) && forall x :: Stored(levels, x) && x.key == r.key ==> x.seqno < r.seqno || x == r
    {
      MergedMembers(levels, r);
    }
    LayeredCons(m, rest);
    LayeredCons(mem, [m] + rest);
  }

  /** In particular any suffix, which is what the unlink loop leaves. */
  lemma MergeKeeps(mem: seq<Record>, levels: seq<seq<Record>>, j: nat)
    requires AllSorted(levels) && Layered([mem] + levels) && j <= |levels|
    ensures Layered([mem] + ([Merged(levels)] + levels[j..]))
    ensures forall x :: Stored([mem] + ([Merged(levels)] + levels[j..]), x) ==> Stored([mem] + levels, x)
  {
    hide Merged, Sorted;
    LayeredUncons(mem, levels);
    LayeredSuffix(levels, j);
    forall x | Stored(levels[j..], x)
      ensures Stored(levels, x)
    {
      StoredSuffix(levels, j, x);
    }
    MergeInFront(mem, levels, levels[j..]);
  }

  /** Every read is unchanged with the merge in front of all its inputs, and with the merge alone. */
  lemma CompactionPreservesReads(mem: seq<Record>, levels: seq<seq<Record>>, k: bytes)
    requires AllSorted(levels) && Layered(levels)
    ensures Read([mem] + ([Merged(levels)] + levels), k) == Read([mem] + levels, k)
    ensures Read([mem] + [Merged(levels)], k) == Read([mem] + levels, k)
  {
    hide Merged, Sorted, Lookup;
    var m := Merged(levels);
    LookupMerged(levels, k);
    FirstHitCons(mem, [m] + levels, k);
    FirstHitCons(mem, [m], k);
    FirstHitCons(mem, levels, k);
    FirstHitCons(m, levels, k);
    FirstHitCons(m, [], k);
    assert [m] + [] == [m];
  }

  /** The put r still stands in the tables, although they read its key as deleted and the memtable is silent on it. */
  ghost predicate Shadowed(mem: seq<Record>, levels: seq<seq<Record>>, r: Record) {
    Stored(levels, r) && r.value.Put? && Read(levels, r.key) == None && Lookup(mem, r.key) == None
  }

  ghost predicate ShadowedPut(mem: seq<Record>, levels: seq<seq<Record>>) {
    exists r :: Shadowed(mem, levels, r)
  }

  /** Unlinking oldest first: any prefix of the inputs behind the merge reads the same. */
  lemma OldestFirstIsSafe(mem: seq<Record>, levels: seq<seq<Record>>, j: nat, k: bytes)
    requires AllSorted(levels) && Layered(levels) && j <= |levels|
    ensures Read([mem] + ([Merged(levels)] + levels[..j]), k) == Read([mem] + levels, k)
  {
    hide Merged, Sorted, Lookup;
    var m := Merged(levels);
    LookupMerged(levels, k);
    FirstHitCons(mem, [m] + levels[..j], k);
    FirstHitCons(mem, levels, k);
    FirstHitCons(m, levels[..j], k);
    FirstHitPrefix(levels, j, k);
  }

  lemma {:induction false} FirstHitPrefix(levels: seq<seq<Record>>, j: nat, k: bytes)
    requires j <= |levels|
    ensures FirstHit(levels[..j], k) == FirstHit(levels, k) || FirstHit(levels[..j], k) == None
    decreases j
  {
    if j > 0 {
      assert levels[..j][1..] == levels[1..][..j - 1];
      FirstHitPrefix(levels[1..], j - 1, k);
    }
  }

  /** Unlinking newest first, as the code does, is safe at every point when no put is shadowed. */
  lemma NewestFirstSafe(mem: seq<Record>, levels: seq<seq<Record>>, j: nat, k: bytes)
    requires AllSorted(levels) && Layered(levels) && j <= |levels| && !ShadowedPut(mem, levels)
    ensures Read([mem] + ([Merged(levels)] + levels[j..]), k) == Read([mem] + levels, k)
  {
    hide Merged, Sorted, Lookup;
    var m := Merged(levels);
    LookupMerged(levels, k);
    FirstHitCons(mem, [m] + levels[j..], k);
    FirstHitCons(mem, levels, k);
    FirstHitCons(m, levels[j..], k);
    if Lookup(mem, k) == None && Read(levels, k) == None && Read(levels[j..], k) != None {
      LayeredSuffix(levels, j);
      FirstHitIsNewest(levels[j..], k);
      var r := FirstHit(levels[j..], k).value;
      StoredSuffix(levels, j, r);
      var shadowed := Shadowed(mem, levels, r);
    }
  }

  lemma ResurrectedRead(mem: seq<Record>, m: seq<Record>, levels: seq<seq<Record>>, j: nat, r: Record)
    requires j < |levels| && Sorted(levels[j]) && r in levels[j] && r.value.Put?
    requires Lookup(mem, r.key) == None && Lookup(m, r.key) == None
    ensures Read([mem] + ([m] + levels[j..]), r.key) == Some(r.value.bytes)
  {
    LookupMember(levels[j], r);
    hide Sorted;
    assert levels[j..] == [levels[j]] + levels[j + 1..];
    FirstHitCons(levels[j], levels[j + 1..], r.key);
    FirstHitCons(m, levels[j..], r.key);
    FirstHitCons(mem, [m] + levels[j..], r.key);
  }

  /** Some crash point of the newest-first loop brings a shadowed put back. */
  lemma NewestFirstResurrects(mem: seq<Record>, levels: seq<seq<Record>>, r: Record) returns (j: nat)
    requires AllSorted(levels) && Layered(levels) && Shadowed(mem, levels, r)
    ensures 0 < j < |levels| && Read([mem] + levels, r.key) == None
    ensures Read([mem] + ([Merged(levels)] + levels[j..]), r.key) == Some(r.value.bytes)
  {
    var k := r.key;
    j :| 0 <= j < |levels| && r in levels[j];
    hide Merged, Layered, Sorted, Lookup;
    LookupMerged(levels, k);
    FirstHitCons(mem, levels, k);
    ResurrectedRead(mem, Merged(levels), levels, j, r);
    LookupMember(levels[0], r);
  }

  /**
   The unlink loop of compact removes inputs newest first. Every crash point inside it
   preserves every read exactly when no put is shadowed.
   */
  lemma UnlinkLoopSafeIff(mem: seq<Record>, levels: seq<seq<Record>>)
    requires AllSorted(levels) && Layered(levels)
    ensures (forall j, k :: 0 <= j <= |levels| ==>
               Read([mem] + ([Merged(levels)] + levels[j..]), k) == Read([mem] + levels, k))
            <==> !ShadowedPut(mem, levels)
  {
    hide Merged, Sorted;
    if ShadowedPut(mem, levels) {
      var r :| Shadowed(mem, levels, r);
      var j := NewestFirstResurrects(mem, levels, r);
      assert Read([mem] + ([Merged(levels)] + levels[j..]), r.key) != Read([mem] + levels, r.key);
    } else {
      forall j, k | 0 <= j <= |levels|
        ensures Read([mem] + ([Merged(levels)] + levels[j..]), k) == Read([mem] + levels, k)
      {
        NewestFirstSafe(mem, levels, j, k);
      }
    }
  }
}
