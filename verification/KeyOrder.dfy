/**
 Rust's order on byte strings (lexicographic) and the sorted record lists that stand for
 a BTreeMap<Vec<u8>, Record> and for the data region of an SSTable.
 */
module KeyOrder {
  import opened Bytes
  import opened Encoding

  /** a < b in the order of Vec<u8>. */
  predicate Less(a: bytes, b: bytes)
    decreases |a|
  {
    b != [] && (a == [] || a[0] < b[0] || (a[0] == b[0] && Less(a[1..], b[1..])))
  }

  lemma {:induction false} LessIrreflexive(a: bytes)
    ensures !Less(a, a)
    decreases |a|
  {
    if a != [] { LessIrreflexive(a[1..]); }
  }

  lemma {:induction false} LessTransitive(a: bytes, b: bytes, c: bytes)
    requires Less(a, b) && Less(b, c)
    ensures Less(a, c)
    decreases |a|
  {
    if a != [] && a[0] == b[0] == c[0] { LessTransitive(a[1..], b[1..], c[1..]); }
  }

  lemma {:induction false} LessTotal(a: bytes, b: bytes)
    ensures a == b || Less(a, b) || Less(b, a)
    decreases |a|
  {
    if a != [] && b != [] && a[0] == b[0] {
      LessTotal(a[1..], b[1..]);
      if a[1..] == b[1..] {
        assert a == [a[0]] + a[1..] && b == [b[0]] + b[1..];
      }
    }
  }

  lemma LessAsymmetric(a: bytes, b: bytes)
    requires Less(a, b)
    ensures a != b && !Less(b, a)
  {
    if Less(b, a) { LessTransitive(a, b, a); }
    LessIrreflexive(a);
  }

  /** Strictly ascending keys, hence no key twice. */
  predicate Sorted(rs: seq<Record>) {
    forall i, j :: 0 <= i < j < |rs| ==> Less(rs[i].key, rs[j].key)
  }

  /** The record stored under key k. */
  function Lookup(rs: seq<Record>, k: bytes): (r: Option<Record>)
    ensures r.Some? ==> r.value in rs && r.value.key == k
  {
    if rs == [] then None
    else if rs[0].key == k then Some(rs[0])
    else Lookup(rs[1..], k)
  }

  lemma {:induction false} LookupNone(rs: seq<Record>, k: bytes)
    ensures Lookup(rs, k) == None <==> forall r :: r in rs ==> r.key != k
  {
    if rs != [] {
      LookupNone(rs[1..], k);
      assert rs == [rs[0]] + rs[1..];
    }
  }

  lemma {:induction false} LookupAt(rs: seq<Record>, i: nat)
    requires Sorted(rs) && i < |rs|
    ensures Lookup(rs, rs[i].key) == Some(rs[i])
  {
    if i > 0 {
      LessAsymmetric(rs[0].key, rs[i].key);
      LookupAt(rs[1..], i - 1);
    }
  }

  /** In a sorted list membership and look-up are the same thing. */
  lemma LookupMember(rs: seq<Record>, r: Record)
    requires Sorted(rs)
    ensures r in rs <==> Lookup(rs, r.key) == Some(r)
  {
    if r in rs {
      var i :| 0 <= i < |rs| && rs[i] == r;
      LookupAt(rs, i);
    }
  }

  /** BTreeMap::insert: replace the entry under r.key, or add it in place. */
  function Insert(rs: seq<Record>, r: Record): seq<Record> {
    if rs == [] then [r]
    else if rs[0].key == r.key then [r] + rs[1..]
    else if Less(r.key, rs[0].key) then [r] + rs
    else [rs[0]] + Insert(rs[1..], r)
  }

  lemma {:induction false} InsertMembers(rs: seq<Record>, r: Record, x: Record)
    ensures x in Insert(rs, r) ==> x == r || x in rs
  {
    if rs != [] { InsertMembers(rs[1..], r, x); }
  }

  lemma {:induction false} InsertSorted(rs: seq<Record>, r: Record)
    requires Sorted(rs)
    ensures Sorted(Insert(rs, r))
  {
    if rs != [] && rs[0].key != r.key {
      LessTotal(rs[0].key, r.key);
      if Less(r.key, rs[0].key) {
        forall j | 0 <= j < |rs|
          ensures Less(r.key, rs[j].key)
        {
          if j > 0 { LessTransitive(r.key, rs[0].key, rs[j].key); }
        }
      } else {
        InsertSorted(rs[1..], r);
        var rest := Insert(rs[1..], r);
        forall j | 0 <= j < |rest|
          ensures Less(rs[0].key, rest[j].key)
        {
          InsertMembers(rs[1..], r, rest[j]);
        }
      }
    }
  }

  lemma {:induction false} LookupInsert(rs: seq<Record>, r: Record, k: bytes)
    ensures Lookup(Insert(rs, r), k) == if k == r.key then Some(r) else Lookup(rs, k)
  {
    if rs == [] {
    } else if rs[0].key == r.key {
      assert ([r] + rs[1..])[1..] == rs[1..];
    } else if Less(r.key, rs[0].key) {
      assert ([r] + rs)[1..] == rs;
    } else {
      LookupInsert(rs[1..], r, k);
      assert ([rs[0]] + Insert(rs[1..], r))[1..] == Insert(rs[1..], r);
    }
  }

  /** Sorted lists are determined by their look-ups. */
  lemma {:induction false} SortedUnique(a: seq<Record>, b: seq<Record>)
    requires Sorted(a) && Sorted(b)
    requires forall k :: Lookup(a, k) == Lookup(b, k)
    ensures a == b
  {
    if a == [] || b == [] {
      assert b != [] ==> Lookup(b, b[0].key).Some?;
      assert a != [] ==> Lookup(a, a[0].key).Some?;
    } else {
      LeastKeysAgree(a, b);
      assert Lookup(a, a[0].key) == Some(a[0]) && Lookup(b, a[0].key) == Some(b[0]);
      forall k
        ensures Lookup(a[1..], k) == Lookup(b[1..], k)
      {
        if k == a[0].key {
          AbsentFromTail(a);
          AbsentFromTail(b);
        } else {
          assert Lookup(a, k) == Lookup(a[1..], k) && Lookup(b, k) == Lookup(b[1..], k);
        }
      }
      SortedUnique(a[1..], b[1..]);
    }
  }

  lemma AbsentFromTail(a: seq<Record>)
    requires Sorted(a) && a != []
    ensures Lookup(a[1..], a[0].key) == None
  {
    LookupNone(a[1..], a[0].key);
    forall r | r in a[1..]
      ensures r.key != a[0].key
    {
      LessAsymmetric(a[0].key, r.key);
    }
  }

  lemma LeastKeysAgree(a: seq<Record>, b: seq<Record>)
    requires Sorted(a) && Sorted(b) && a != [] && b != []
    requires forall k :: Lookup(a, k) == Lookup(b, k)
    ensures a[0].key == b[0].key
  {
    assert Lookup(b, a[0].key) == Lookup(a, a[0].key) == Some(a[0]);
    assert Lookup(a, b[0].key) == Lookup(b, b[0].key) == Some(b[0]);
    if a[0].key != b[0].key {
      LessAsymmetric(b[0].key, a[0].key);
    }
  }

  /** a comes before b where they first differ: a ends there, or has the smaller byte. */
  ghost predicate DifferFirstAt(a: bytes, b: bytes, i: nat) {
    i <= |a| && i < |b| && a[..i] == b[..i] && (i == |a| || a[i] < b[i])
  }

  /** The order of keys is the lexicographic order of their bytes. */
  lemma {:induction false} LessIsLexicographic(a: bytes, b: bytes)
    ensures Less(a, b) <==> exists i: nat :: DifferFirstAt(a, b, i)
    decreases |a|
  {
    forall i: nat | DifferFirstAt(a, b, i) && i > 0
      ensures a != [] && b != [] && a[0] == b[0]
    {
      assert a[..i][0] == b[..i][0];
    }
    if b == [] {
    } else if a == [] || a[0] < b[0] {
      assert DifferFirstAt(a, b, 0);
    } else if a[0] == b[0] {
      LessIsLexicographic(a[1..], b[1..]);
      if i: nat :| DifferFirstAt(a[1..], b[1..], i) {
        assert a[..i + 1] == [a[0]] + a[1..][..i] && b[..i + 1] == [b[0]] + b[1..][..i];
        assert DifferFirstAt(a, b, i + 1);
      }
      if i: nat :| DifferFirstAt(a, b, i) {
        if i > 0 {
          assert a[1..][..i - 1] == a[..i][1..] && b[1..][..i - 1] == b[..i][1..];
          assert DifferFirstAt(a[1..], b[1..], i - 1);
        }
      }
    }
  }
}
