/** The memtable of 10-database-internals/src/memtable.rs: a sorted map with a byte estimate. */
module MemTables {
  import opened Bytes
  import opened Encoding
  import opened KeyOrder

  const ENTRY_OVERHEAD: nat := 48

  function EntrySize(r: Record): nat {
    |r.key| + |Payload(r.value)| + ENTRY_OVERHEAD
  }

  function Footprint(rs: seq<Record>): nat {
    if rs == [] then 0 else EntrySize(rs[0]) + Footprint(rs[1..])
  }

  function ReplacedSize(rs: seq<Record>, k: bytes): nat {
    match Lookup(rs, k)
    case Some(existing) => EntrySize(existing)
    case None => 0
  }

  /** Inserting moves the footprint by the new entry less the one it replaces. */
  lemma {:induction false} FootprintInsert(rs: seq<Record>, r: Record)
    requires Sorted(rs)
    ensures Footprint(Insert(rs, r)) + ReplacedSize(rs, r.key) == Footprint(rs) + EntrySize(r)
  {
    if rs == [] {
    } else if rs[0].key == r.key {
      assert ([r] + rs[1..])[1..] == rs[1..];
    } else if Less(r.key, rs[0].key) {
      assert ([r] + rs)[1..] == rs;
      forall x | x in rs
        ensures x.key != r.key
      {
        var i :| 0 <= i < |rs| && rs[i] == x;
        if i > 0 { LessTransitive(r.key, rs[0].key, x.key); }
        LessAsymmetric(r.key, x.key);
      }
      LookupNone(rs, r.key);
    } else {
      FootprintInsert(rs[1..], r);
      assert ([rs[0]] + Insert(rs[1..], r))[1..] == Insert(rs[1..], r);
    }
  }

  /** The memtable a log rebuilds: its records inserted in order, the last one per key winning. */
  function MemOf(log: seq<Record>): seq<Record> {
    if log == [] then [] else Insert(MemOf(log[..|log| - 1]), log[|log| - 1])
  }

  lemma MemOfAppend(log: seq<Record>, r: Record)
    ensures MemOf(log + [r]) == Insert(MemOf(log), r)
  {
    assert (log + [r])[..|log|] == log;
  }

  lemma {:induction false} MemOfSorted(log: seq<Record>)
    ensures Sorted(MemOf(log))
    ensures forall r :: r in MemOf(log) ==> r in log
  {
    if log != [] {
      var front, last := log[..|log| - 1], log[|log| - 1];
      MemOfSorted(front);
      InsertSorted(MemOf(front), last);
      forall r | r in MemOf(log)
        ensures r in log
      {
        InsertMembers(MemOf(front), last, r);
      }
    }
  }

  class MemTable {
    var entries: seq<Record>
    var approxBytes: nat

    ghost predicate Valid()
      reads this
    {
      Sorted(entries) && approxBytes == Footprint(entries)
    }

    constructor ()
      ensures Valid() && entries == []
    {
      entries := [];
      approxBytes := 0;
    }

    method Insert(record: Record)
      requires Valid()
      modifies this
      ensures Valid()
      ensures entries == KeyOrder.Insert(old(entries), record)
    {
      FootprintInsert(entries, record);
      InsertSorted(entries, record);
      var newSize := EntrySize(record);
      var existing := Lookup(entries, record.key);
      FootprintCovers(entries, record.key);
      entries := KeyOrder.Insert(entries, record);
      if existing.Some? {
        approxBytes := approxBytes - EntrySize(existing.value);
      }
      approxBytes := approxBytes + newSize;
    }

    method Get(key: bytes) returns (r: Option<Record>)
      ensures r == Lookup(entries, key)
    {
      r := Lookup(entries, key);
    }

    method Clear()
      modifies this
      ensures Valid() && entries == []
    {
      entries := [];
      approxBytes := 0;
    }
  }

  /** The estimate never underflows when an entry is taken out of it. */
  lemma {:induction false} FootprintCovers(rs: seq<Record>, k: bytes)
    ensures ReplacedSize(rs, k) <= Footprint(rs)
  {
    if rs != [] && rs[0].key != k { FootprintCovers(rs[1..], k); }
  }
}
