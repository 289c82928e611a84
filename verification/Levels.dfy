/**
 The two ways the store reads: first hit from newest to oldest level (Db::get) and highest
 sequence number over everything (Db::scan, compaction), and when they agree.
 */
module Levels {
  import opened Bytes
  import opened Encoding
  import opened KeyOrder

  // ---- highest seq wins -------------------------------------------------------------

  function KeepNewest(best: seq<Record>, r: Record): seq<Record> {
    match Lookup(best, r.key)
    case Some(existing) => if existing.seqno >= r.seqno then best else Insert(best, r)
    case None => Insert(best, r)
  }

  /** Folding a batch of records into a sorted map, higher seq replacing lower. */
  function NewestFrom(best: seq<Record>, records: seq<Record>): seq<Record>
    decreases |records|
  {
    if records == [] then best else NewestFrom(KeepNewest(best, records[0]), records[1..])
  }

  function NewestPerKey(records: seq<Record>): seq<Record> {
    NewestFrom([], records)
  }

  method NewestPerKeyLoop(records: seq<Record>) returns (best: seq<Record>)
    ensures best == NewestPerKey(records)
  {
    best := [];
    for i := 0 to |records|
      invariant NewestFrom(best, records[i..]) == NewestPerKey(records)
    {
      var existing := Lookup(best, records[i].key);
      if existing.None? || existing.value.seqno < records[i].seqno {
        best := Insert(best, records[i]);
      }
      assert records[i..][1..] == records[i + 1..];
    }
  }

  /** r is a record of the batch and no record of its key has a higher seq. */
  predicate IsNewest(records: seq<Record>, r: Record) {
    r in records && forall x :: x in records && x.key == r.key ==> x.seqno <= r.seqno
  }

  /** best holds exactly one newest record for every key of the batch. */
  ghost predicate Summarises(best: seq<Record>, records: seq<Record>) {
    && Sorted(best)
    && (forall r :: r in best ==> IsNewest(records, r))
    && (forall r :: r in records ==> Lookup(best, r.key).Some?)
  }

  lemma KeepNewestSummarises(best: seq<Record>, records: seq<Record>, r: Record)
    requires Summarises(best, records)
    ensures Summarises(KeepNewest(best, r), records + [r])
  {
    var next := KeepNewest(best, r);
    InsertSorted(best, r);
    forall x | x in next
      ensures IsNewest(records + [r], x)
    {
      LookupMember(next, x);
      LookupInsert(best, r, x.key);
    }
    forall x | x in records + [r]
      ensures Lookup(next, x.key).Some?
    {
      LookupInsert(best, r, x.key);
    }
  }

  lemma {:induction false} NewestFromSummarises(best: seq<Record>, done: seq<Record>, records: seq<Record>)
    requires Summarises(best, done)
    ensures Summarises(NewestFrom(best, records), done + records)
    decreases |records|
  {
    hide KeepNewest, Summarises;
    if records == [] {
      assert done + records == done;
    } else {
      KeepNewestSummarises(best, done, records[0]);
      NewestFromSummarises(KeepNewest(best, records[0]), done + [records[0]], records[1..]);
      assert done + [records[0]] + records[1..] == done + records;
    }
  }

  /** One record per key, sorted by key, each the highest seq of its key. */
  lemma NewestPerKeySummarises(records: seq<Record>)
    ensures Summarises(NewestPerKey(records), records)
  {
    NewestFromSummarises([], [], records);
    assert [] + records == records;
  }

  lemma {:induction false} NewestFromConcat(best: seq<Record>, a: seq<Record>, b: seq<Record>)
    ensures NewestFrom(best, a + b) == NewestFrom(NewestFrom(best, a), b)
    decreases |a|
  {
    hide KeepNewest;
    if a == [] {
      assert a + b == b;
    } else {
      assert (a + b)[1..] == a[1..] + b;
      NewestFromConcat(KeepNewest(best, a[0]), a[1..], b);
    }
  }

  /** A batch with one record per key replaces what is there only by a higher seq: a tie keeps the older record. */
  lemma {:induction false} NewestFromSorted(best: seq<Record>, batch: seq<Record>, k: bytes)
    requires Sorted(batch)
    ensures var r, x := Lookup(batch, k), Lookup(best, k);
            Lookup(NewestFrom(best, batch), k) == if r.None? || (x.Some? && x.value.seqno >= r.value.seqno) then x else r
    decreases |batch|
  {
    if batch != [] {
      LookupInsert(best, batch[0], k);
      AbsentFromTail(batch);
      NewestFromSorted(KeepNewest(best, batch[0]), batch[1..], k);
    }
  }

  // ---- first hit wins -----------------------------------------------------------------

  /** Walk the levels newest first and stop at the first that has the key. */
  function FirstHit(levels: seq<seq<Record>>, k: bytes): Option<Record>
    decreases |levels|
  {
    if levels == [] then None
    else match Lookup(levels[0], k)
      case Some(r) => Some(r)
      case None => FirstHit(levels[1..], k)
  }

  /** A tombstone hit reads as absent. */
  function Value(r: Option<Record>): Option<bytes> {
    match r
    case Some(Record(_, _, Put(v))) => Some(v)
    case _ => None
  }

  function Read(levels: seq<seq<Record>>, k: bytes): Option<bytes> {
    Value(FirstHit(levels, k))
  }

  predicate AllSorted(levels: seq<seq<Record>>) {
    forall i :: 0 <= i < |levels| ==> Sorted(levels[i])
  }

  /** Per key, sequence numbers never increase from a newer to an older level. */
  ghost predicate Layered(levels: seq<seq<Record>>) {
    forall i, j, a, b :: 0 <= i < j < |levels| && a in levels[i] && b in levels[j] && a.key == b.key
      ==> a.seqno > b.seqno || a == b
  }

  ghost predicate Stored(levels: seq<seq<Record>>, r: Record) {
    exists i :: 0 <= i < |levels| && r in levels[i]
  }

  lemma {:induction false} FirstHitNone(levels: seq<seq<Record>>, k: bytes)
    ensures FirstHit(levels, k) == None <==> forall i, r :: 0 <= i < |levels| && r in levels[i] ==> r.key != k
    decreases |levels|
  {
    if levels != [] {
      LookupNone(levels[0], k);
      FirstHitNone(levels[1..], k);
      assert levels == [levels[0]] + levels[1..];
      assert forall i :: 1 <= i < |levels| ==> levels[i] == levels[1..][i - 1];
      assert forall i :: 0 <= i < |levels[1..]| ==> levels[1..][i] == levels[i + 1];
    }
  }

  /** The first hit is stored, and it is the highest seq of its key; a stored tie is the same record. */
  lemma {:induction false} FirstHitIsNewest(levels: seq<seq<Record>>, k: bytes)
    requires AllSorted(levels) && Layered(levels)
    ensures FirstHit(levels, k).Some? ==>
              var r := FirstHit(levels, k).value;
              && r.key == k && Stored(levels, r)
              && forall x :: Stored(levels, x) && x.key == k ==> x.seqno < r.seqno || x == r
    decreases |levels|
  {
    if FirstHit(levels, k).Some? {
      var rest := levels[1..];
      var r := FirstHit(levels, k).value;
      LookupNone(levels[0], k);
      if Lookup(levels[0], k).Some? {
        forall x | Stored(levels, x) && x.key == k
          ensures x.seqno < r.seqno || x == r
        {
          var i :| 0 <= i < |levels| && x in levels[i];
          LookupMember(levels[0], x);
        }
      } else {
        assert Layered(rest) by { LayeredTail(levels); }
        FirstHitIsNewest(rest, k);
        StoredTail(levels);
      }
    }
  }

  lemma LayeredTail(levels: seq<seq<Record>>)
    requires Layered(levels) && levels != []
    ensures Layered(levels[1..])
  {
  }

  lemma StoredTail(levels: seq<seq<Record>>)
    requires levels != []
    ensures forall x :: Stored(levels, x) <==> x in levels[0] || Stored(levels[1..], x)
  {
    forall x
      ensures Stored(levels, x) <==> x in levels[0] || Stored(levels[1..], x)
    {
      if x in levels[0] || Stored(levels[1..], x) {
        if x in levels[0] {
        } else {
          var i :| 0 <= i < |levels[1..]| && x in levels[1..][i];
          assert x in levels[i + 1];
        }
      }
      if Stored(levels, x) && x !in levels[0] {
        var i :| 0 <= i < |levels| && x in levels[i];
        assert x in levels[1..][i - 1];
      }
    }
  }

  /** First-hit reads and highest-seq reads see the same record of every key. */
  lemma ReadsAgree(levels: seq<seq<Record>>, records: seq<Record>, k: bytes)
    requires AllSorted(levels) && Layered(levels)
    requires forall r :: r in records <==> Stored(levels, r)
    ensures Lookup(NewestPerKey(records), k) == FirstHit(levels, k)
  {
    NewestPerKeySummarises(records);
    FirstHitIsNewest(levels, k);
    FirstHitNone(levels, k);
    var newest := Lookup(NewestPerKey(records), k);
    if newest.Some? {
      assert Stored(levels, newest.value);
    }
  }

  // ---- how the layering is kept ------------------------------------------------------------

  lemma LayeredCons(top: seq<Record>, levels: seq<seq<Record>>)
    requires Layered(levels)
    requires forall a, b :: a in top && Stored(levels, b) && a.key == b.key ==> a.seqno > b.seqno || a == b
    ensures Layered([top] + levels)
  {
    var all := [top] + levels;
    forall i, j, a: Record, b: Record | 0 <= i < j < |all| && a in all[i] && b in all[j] && a.key == b.key
      ensures a.seqno > b.seqno || a == b
    {
      assert all[j] == levels[j - 1];
      if i > 0 { assert all[i] == levels[i - 1]; }
    }
  }

  lemma LayeredUncons(top: seq<Record>, levels: seq<seq<Record>>)
    requires Layered([top] + levels)
    ensures Layered(levels)
    ensures forall a, b :: a in top && Stored(levels, b) && a.key == b.key ==> a.seqno > b.seqno || a == b
  {
    var all := [top] + levels;
    LayeredTail(all);
    assert all[1..] == levels;
    forall a, b | a in top && Stored(levels, b) && a.key == b.key
      ensures a.seqno > b.seqno || a == b
    {
      var j :| 0 <= j < |levels| && b in levels[j];
      assert all[j + 1] == levels[j] && all[0] == top;
    }
  }

  lemma StoredCons(top: seq<Record>, levels: seq<seq<Record>>)
    ensures forall x :: Stored([top] + levels, x) <==> x in top || Stored(levels, x)
  {
    StoredTail([top] + levels);
    assert ([top] + levels)[1..] == levels;
  }

  lemma StoredSuffix(levels: seq<seq<Record>>, j: nat, x: Record)
    requires j <= |levels| && Stored(levels[j..], x)
    ensures Stored(levels, x)
  {
    var i :| 0 <= i < |levels[j..]| && x in levels[j..][i];
    assert x in levels[i + j];
  }

  lemma LayeredSuffix(levels: seq<seq<Record>>, j: nat)
    requires Layered(levels) && j <= |levels|
    ensures Layered(levels[j..])
  {
    var rest := levels[j..];
    forall i, i', a: Record, b: Record | 0 <= i < i' < |rest| && a in rest[i] && b in rest[i'] && a.key == b.key
      ensures a.seqno > b.seqno || a == b
    {
      assert rest[i] == levels[i + j] && rest[i'] == levels[i' + j];
    }
  }

  lemma FirstHitCons(top: seq<Record>, levels: seq<seq<Record>>, k: bytes)
    ensures FirstHit([top] + levels, k) == (if Lookup(top, k).Some? then Lookup(top, k) else FirstHit(levels, k))
    ensures Read([top] + levels, k) == (if Lookup(top, k).Some? then Value(Lookup(top, k)) else Read(levels, k))
  {
    assert ([top] + levels)[1..] == levels;
  }
}
