/** The merge of 10-database-internals/src/compaction.rs: highest seq per key, tombstones dropped. */
module Compaction {
  import opened Bytes
  import opened Encoding
  import opened KeyOrder
  import opened SsTables
  import opened Levels

  /** The records of a table whose file is intact. */
  function Records(t: SsTable): seq<Record> {
    match Iter(t)
    case Ok(rs) => rs
    case _ => []
  }

  function TableLevels(tables: seq<SsTable>): (levels: seq<seq<Record>>)
    ensures |levels| == |tables|
    ensures forall i :: 0 <= i < |tables| ==> levels[i] == Records(tables[i])
  {
    seq(|tables|, i requires 0 <= i < |tables| => Records(tables[i]))
  }

  function Flatten(levels: seq<seq<Record>>): seq<Record> {
    if levels == [] then [] else levels[0] + Flatten(levels[1..])
  }

  lemma {:induction false} FlattenStored(levels: seq<seq<Record>>, r: Record)
    ensures r in Flatten(levels) <==> Stored(levels, r)
  {
    if levels != [] {
      FlattenStored(levels[1..], r);
      StoredTail(levels);
    }
  }

  lemma {:induction false} FlattenConcat(a: seq<seq<Record>>, b: seq<seq<Record>>)
    ensures Flatten(a + b) == Flatten(a) + Flatten(b)
  {
    if a == [] {
      assert a + b == b;
    } else {
      assert (a + b)[1..] == a[1..] + b;
      FlattenConcat(a[1..], b);
    }
  }

  lemma FlattenSnoc(levels: seq<seq<Record>>, last: seq<Record>)
    ensures Flatten(levels + [last]) == Flatten(levels) + last
    ensures Flatten([]) == []
  {
    FlattenConcat(levels, [last]);
  }

  /** Vec::retain(|rec| rec.value != Delete). */
  function DropTombstones(rs: seq<Record>): seq<Record> {
    if rs == [] then []
    else if rs[0].value.Delete? then DropTombstones(rs[1..])
    else [rs[0]] + DropTombstones(rs[1..])
  }

  /** The merge of all levels: newest record per key, tombstones dropped. */
  function Merged(levels: seq<seq<Record>>): seq<Record> {
    DropTombstones(NewestPerKey(Flatten(levels)))
  }

  /** The record list the compacted table is written from. */
  function Merge(tables: seq<SsTable>): seq<Record> {
    Merged(TableLevels(tables))
  }

  lemma {:induction false} DropTombstonesMembers(rs: seq<Record>, r: Record)
    ensures r in DropTombstones(rs) <==> r in rs && r.value.Put?
  {
    if rs != [] { DropTombstonesMembers(rs[1..], r); }
  }

  lemma {:induction false} DropTombstonesSorted(rs: seq<Record>)
    requires Sorted(rs)
    ensures Sorted(DropTombstones(rs))
  {
    if rs != [] {
      DropTombstonesSorted(rs[1..]);
      var rest := DropTombstones(rs[1..]);
      forall j | 0 <= j < |rest|
        ensures Less(rs[0].key, rest[j].key)
      {
        DropTombstonesMembers(rs[1..], rest[j]);
      }
    }
  }

  /** Merging keeps exactly the keys whose newest record is a put. */
  lemma {:induction false} LookupDropTombstones(rs: seq<Record>, k: bytes)
    requires Sorted(rs)
    ensures Lookup(DropTombstones(rs), k) ==
            match Lookup(rs, k) case Some(r) => (if r.value.Put? then Some(r) else None) case None => None
  {
    var kept := DropTombstones(rs);
    DropTombstonesSorted(rs);
    if Lookup(kept, k).Some? {
      DropTombstonesMembers(rs, Lookup(kept, k).value);
      LookupMember(rs, Lookup(kept, k).value);
    }
    if Lookup(rs, k).Some? {
      DropTombstonesMembers(rs, Lookup(rs, k).value);
      LookupMember(kept, Lookup(rs, k).value);
    }
  }

  method MergeTables(tables: seq<SsTable>) returns (r: Outcome<seq<Record>>)
    ensures r.Ok? <==> forall t :: t in tables ==> Iter(t).Ok?
    ensures r.Ok? ==> r.value == Merge(tables)
  {
    hide Iter, Flatten;
    var records: seq<Record> := [];
    FlattenSnoc([], []);
    for i := 0 to |tables|
      invariant forall j :: 0 <= j < i ==> Iter(tables[j]).Ok?
      invariant records == Flatten(TableLevels(tables[..i]))
    {
      var part := IterTable(tables[i]);
      if !part.Ok? {
        assert tables[i] in tables;
        return Corrupt;
      }
      records := records + part.value;
      assert TableLevels(tables[..i + 1]) == TableLevels(tables[..i]) + [part.value];
      FlattenSnoc(TableLevels(tables[..i]), part.value);
    }
    assert tables[..|tables|] == tables;
    var survivors := NewestPerKeyLoop(records);
    var kept := Retain(survivors);
    return Ok(kept);
  }

  method Retain(rs: seq<Record>) returns (kept: seq<Record>)
    ensures kept == DropTombstones(rs)
  {
    kept := [];
    assert rs[0..] == rs;
    for i := 0 to |rs|
      invariant kept + DropTombstones(rs[i..]) == DropTombstones(rs)
    {
      assert rs[i..][1..] == rs[i + 1..];
      if rs[i].value.Put? {
        kept := kept + [rs[i]];
      }
    }
  }
}
