/**
 Get and scan side by side. Get stops at the first level that has the key, scan takes the
 highest sequence number: when the two agree, in any store and after any crash of a flush.
 */
module LsmReads {
  import opened Bytes
  import opened Encoding
  import opened WalFormat
  import opened KeyOrder
  import opened MemTables
  import opened Levels
  import opened SsTables
  import opened Compaction
  import opened Disks
  import opened Lsm
  import opened LsmInvariant
  import opened LsmRecovery
  import opened LsmCrash

  predicate KeysAscend(pairs: seq<(bytes, bytes)>) {
    forall i, j :: 0 <= i < j < |pairs| ==> Less(pairs[i].0, pairs[j].0)
  }

  lemma {:induction false} LivePairsOf(rs: seq<Record>)
    requires Sorted(rs)
    ensures KeysAscend(LivePairs(rs))
    ensures forall p :: p in LivePairs(rs) <==> Value(Lookup(rs, p.0)) == Some(p.1)
  {
    if rs != [] {
      var rest := rs[1..];
      LivePairsOf(rest);
      AbsentFromTail(rs);
      assert forall k :: k != rs[0].key ==> Lookup(rs, k) == Lookup(rest, k);
      if rs[0].value.Put? {
        var live := LivePairs(rest);
        forall j | 0 <= j < |live|
          ensures Less(rs[0].key, live[j].0)
        {
          assert live[j] in live;
          var r := Lookup(rest, live[j].0).value;
          var i :| 0 <= i < |rest| && rest[i] == r;
          assert rs[i + 1] == r;
        }
      }
    }
  }

  // ---- any store -----------------------------------------------------------------------------

  /** Scan lists exactly what get finds. */
  ghost predicate ReadsAsListed(s: Store) {
    forall p :: p in ScanPairs(s) <==> GetValue(s, p.0) == Some(p.1)
  }

  /** Get answers with the memtable's record of k, although the tables have another value under a seq that is not lower. */
  predicate StaleAt(mem: seq<Record>, levels: seq<seq<Record>>, k: bytes) {
    var r, x := Lookup(mem, k), FirstHit(levels, k);
    r.Some? && x.Some? && x.value.seqno >= r.value.seqno && x.value.value != r.value.value
  }

  ghost predicate Stale(mem: seq<Record>, levels: seq<seq<Record>>) {
    exists k :: StaleAt(mem, levels, k)
  }

  /** What scan finds under k, in terms of the memtable and of what the tables read. */
  lemma NewestOverTables(mem: seq<Record>, levels: seq<seq<Record>>, k: bytes)
    requires AllSorted(levels) && Layered(levels) && Sorted(mem)
    ensures Sorted(NewestPerKey(Flatten(levels) + mem))
    ensures Value(Lookup(NewestPerKey(Flatten(levels) + mem), k)) == Read([mem] + levels, k) <==> !StaleAt(mem, levels, k)
  {
    hide Layered, Stored, Sorted, Lookup, FirstHit;
    var tables := Flatten(levels);
    forall r
      ensures r in tables <==> Stored(levels, r)
    {
      FlattenStored(levels, r);
    }
    ReadsAgree(levels, tables, k);
    NewestFromConcat([], tables, mem);
    NewestFromSorted(NewestPerKey(tables), mem, k);
    NewestPerKeySummarises(tables + mem);
    FirstHitCons(mem, levels, k);
  }

  /** Get and scan of a store with layered tables agree exactly when no key of the memtable is stale. */
  lemma ScanMatchesGetIff(s: Store)
    requires TablesOk(s.tables) && Sorted(s.mem) && Layered(TableLevels(s.tables))
    ensures KeysAscend(ScanPairs(s))
    ensures ReadsAsListed(s) <==> !Stale(s.mem, TableLevels(s.tables))
  {
    hide Layered, Sorted, Lookup, TablesOk, TableLevels, Read, NewestPerKey, StaleAt, Value;
    var levels := TableLevels(s.tables);
    var found := NewestPerKey(Flatten(levels) + s.mem);
    TableLevelsSorted(s.tables);
    NewestOverTables(s.mem, levels, []);
    LivePairsOf(found);
    forall k
      ensures Value(Lookup(found, k)) == GetValue(s, k) <==> !StaleAt(s.mem, levels, k)
    {
      NewestOverTables(s.mem, levels, k);
    }
    if Stale(s.mem, levels) {
      var k :| StaleAt(s.mem, levels, k);
      var got, listed := GetValue(s, k), Value(Lookup(found, k));
      var v := if got.Some? then got.value else listed.value;
      assert (k, v) in ScanPairs(s) <==> listed == Some(v);
    }
  }

  lemma LayeredIsFresh(mem: seq<Record>, levels: seq<seq<Record>>)
    requires AllSorted(levels) && Layered([mem] + levels)
    ensures !Stale(mem, levels)
  {
    hide Layered, Stored;
    LayeredUncons(mem, levels);
    forall k
      ensures !StaleAt(mem, levels, k)
    {
      FirstHitIsNewest(levels, k);
    }
  }

  /** With the levels in order, scan lists exactly what get finds, in ascending key order. */
  lemma ScanMatchesGet(s: Store)
    requires RamOk(s)
    ensures KeysAscend(ScanPairs(s))
    ensures ReadsAsListed(s)
  {
    hide Layered, Stored, Sorted, Wf, AllFit, SeqUnique, TableLevels, Stale, ReadsAsListed;
    var levels := TableLevels(s.tables);
    TableLevelsSorted(s.tables);
    LayeredUncons(s.mem, levels);
    LayeredIsFresh(s.mem, levels);
    ScanMatchesGetIff(s);
  }

  // ---- after a crash -------------------------------------------------------------------------

  /** What open makes of layered tables and any log reads consistently exactly when the replayed memtable is not stale. */
  lemma RecoveredReadsIff(c: Image, wal: bytes, ts: seq<SsTable>)
    requires TablesOk(ts) && Layered(TableLevels(ts)) && Holds(c, wal, ts)
    ensures Recover(c).Ok?
    ensures ReadsAsListed(Recover(c).value) <==> !Stale(MemOf(Replay(wal)), TableLevels(ts))
  {
    hide Recover, Replay, MemOf, Layered, TablesOk, TableLevels, Stale, ReadsAsListed, BytesOf;
    RecoverOpens(c, ts);
    RecoveredMem(wal);
    ScanMatchesGetIff(RecoveredStore(wal, ts));
  }

  /** Every crash anywhere in the flush reopens, and get and scan agree on every key. */
  ghost predicate FlushReadsAsListed(s: Store, d: DiskState) {
    forall at: nat, c :: at <= |FlushTrace(s, d)| && CrashImage(StateAt(d, FlushTrace(s, d), at), c) ==>
      Recover(c).Ok? && ReadsAsListed(Recover(c).value)
  }

  /** The tables a flush leaves, with and without its own. */
  lemma FlushedLayers(s: Store)
    requires ShapeOk(s) && Layered(LevelsOf(s)) && |FileImage(s.mem)| < U64_LIMIT
    ensures TablesOk(s.tables) && Layered(TableLevels(s.tables))
    ensures s.mem != [] ==> TablesOk(Flushed(s).tables) && TableLevels(Flushed(s).tables) == [s.mem] + TableLevels(s.tables)
  {
    hide Layered, Stored, TablesOk, TableLevels, FileImage, Flushed, Sorted;
    LayeredUncons(s.mem, TableLevels(s.tables));
    if s.mem != [] { FlushedTables(s); }
  }

  lemma NothingIsStale(levels: seq<seq<Record>>)
    ensures !Stale(MemOf(Replay([])), levels)
  {
    EmptyFrame();
    hide FirstFrame, FirstHit;
    assert Replay([]) == [];
  }

  /** An empty memtable changes no first hit, so flushing nothing adds no way to go stale. */
  lemma StaleOverEmpty(mem: seq<Record>, levels: seq<seq<Record>>)
    ensures Stale(mem, [[]] + levels) <==> Stale(mem, levels)
  {
    hide FirstHit;
    forall k
      ensures StaleAt(mem, [[]] + levels, k) <==> StaleAt(mem, levels, k)
    {
      FirstHitCons([], levels, k);
    }
  }

  /** The crash images that decide: before the first system call, and after the new table is durable. */
  lemma FlushWitness(s: Store, d: DiskState, written: bool) returns (at: nat, c: Image)
    requires DiskOk(s, d) && (written ==> s.mem != [])
    ensures at <= |FlushTrace(s, d)| && CrashImage(StateAt(d, FlushTrace(s, d), at), c)
    ensures Holds(c, d.wal.current, if written then Flushed(s).tables else s.tables)
  {
    hide CrashImage, DirOf, Holds, WriteTrace, TableOf, FileImage;
    if written {
      var write := WriteTrace(d, s.nextId, FileImage(s.mem));
      WriteDone(d, s.tables, s.nextId, s.mem);
      at := 5;
      c := WholeImage(write[4], [TableOf(s.nextId, s.mem)] + s.tables);
      assert StateAt(d, FlushTrace(s, d), at) == write[4];
    } else {
      at := 0;
      c := WholeImage(d, s.tables);
    }
  }

  /**
   After every crash of a flush get and scan agree, exactly when the memtable that the log
   on disk replays to is stale neither over the tables nor over the flushed memtable in
   front of them.
   */
  lemma FlushReadsAgreeIff(s: Store, d: DiskState)
    requires ShapeOk(s) && Layered(LevelsOf(s)) && DiskOk(s, d) && |FileImage(s.mem)| < U64_LIMIT
    ensures var m, levels := MemOf(Replay(d.wal.current)), TableLevels(s.tables);
            FlushReadsAsListed(s, d) <==> !Stale(m, levels) && !Stale(m, [s.mem] + levels)
  {
    var wal, levels := d.wal.current, TableLevels(s.tables);
    var m := MemOf(Replay(wal));
    FlushedLayers(s);
    if s.mem == [] { StaleOverEmpty(m, levels); }
    hide ShapeOk, Layered, DiskOk, TablesOk, TableLevels, FlushTrace, CrashImage, StateAt, FileImage, Recover, Replay, MemOf,
         Stale, ReadsAsListed, Flushed, Holds, TableOf;
    if !Stale(m, levels) && !Stale(m, [s.mem] + levels) {
      forall at: nat, c | at <= |FlushTrace(s, d)| && CrashImage(StateAt(d, FlushTrace(s, d), at), c)
        ensures Recover(c).Ok? && ReadsAsListed(Recover(c).value)
      {
        FlushImage(s, d, at, c);
        if Holds(c, wal, s.tables) {
          RecoveredReadsIff(c, wal, s.tables);
        } else if Holds(c, wal, Flushed(s).tables) {
          RecoveredReadsIff(c, wal, Flushed(s).tables);
        } else {
          RecoveredReadsIff(c, [], Flushed(s).tables);
          NothingIsStale([s.mem] + levels);
        }
      }
    } else {
      var written := !Stale(m, levels);
      var at, c := FlushWitness(s, d, written);
      RecoveredReadsIff(c, wal, if written then Flushed(s).tables else s.tables);
      assert !ReadsAsListed(Recover(c).value);
    }
  }
}
