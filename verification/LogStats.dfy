/**
 The aggregate of 04-concurrency/src/stats.rs and the sequential oracle: counters, count
 maps and samples, combined by a merge that must not depend on grouping or order.
 */
module LogStats {
  import opened Bytes

  /** A request time: an opaque ordered value. */
  type Time = real

  datatype LogEntry = LogEntry(size: nat, status: nat, path: bytes, ip: bytes, time: Time)

  /** A non-blank line together with what parse_line makes of it: None is malformed. */
  datatype Line = Line(entry: Option<LogEntry>)

  type Counts<!K> = map<K, nat>

  datatype Stats = Stats(requests: nat, malformed: nat, totalBytes: nat,
                         status: Counts<nat>, paths: Counts<bytes>, ips: Counts<bytes>, times: seq<Time>)

  function Default(): Stats {
    Stats(0, 0, 0, map[], map[], map[], [])
  }

  function CountOf<K>(m: Counts<K>, k: K): nat {
    if k in m then m[k] else 0
  }

  /** *m.entry(k).or_insert(0) += n */
  function Bump<K>(m: Counts<K>, k: K, n: nat): Counts<K> {
    m[k := CountOf(m, k) + n]
  }

  function Record(s: Stats, e: LogEntry): Stats {
    Stats(s.requests + 1, s.malformed, s.totalBytes + e.size,
          Bump(s.status, e.status, 1), Bump(s.paths, e.path, 1), Bump(s.ips, e.ip, 1), s.times + [e.time])
  }

  function Take(s: Stats, line: Line): Stats {
    match line.entry
    case Some(e) => Record(s, e)
    case None => s.(malformed := s.malformed + 1)
  }

  function AddCounts<K>(a: Counts<K>, b: Counts<K>): Counts<K> {
    map k | k in a.Keys + b.Keys :: CountOf(a, k) + CountOf(b, k)
  }

  function Merge(a: Stats, b: Stats): Stats {
    Stats(a.requests + b.requests, a.malformed + b.malformed, a.totalBytes + b.totalBytes,
          AddCounts(a.status, b.status), AddCounts(a.paths, b.paths), AddCounts(a.ips, b.ips), a.times + b.times)
  }

  function TakeAll(s: Stats, lines: seq<Line>): Stats
    decreases |lines|
  {
    if lines == [] then s else TakeAll(Take(s, lines[0]), lines[1..])
  }

  /** analyze_sequential on the non-blank lines. */
  function Sequential(lines: seq<Line>): Stats {
    TakeAll(Default(), lines)
  }

  class Accumulator {
    var requests: nat
    var malformed: nat
    var totalBytes: nat
    var status: Counts<nat>
    var paths: Counts<bytes>
    var ips: Counts<bytes>
    var times: seq<Time>

    constructor ()
      ensures State() == Default()
    {
      requests, malformed, totalBytes, times := 0, 0, 0, [];
      status, paths, ips := map[], map[], map[];
    }

    function State(): Stats
      reads this
    {
      Stats(requests, malformed, totalBytes, status, paths, ips, times)
    }

    method RecordEntry(e: LogEntry)
      modifies this
      ensures State() == Record(old(State()), e)
      ensures Counted(old(State()), [e], 0, State())
    {
      ghost var before := State();
      CountedNothing(Record(before, e));
      CountedStep(before, e, [], 0, Record(before, e));
      assert [e] + [] == [e];
      hide Counted, Entries;
      requests := requests + 1;
      totalBytes := totalBytes + e.size;
      status := Bump(status, e.status, 1);
      paths := Bump(paths, e.path, 1);
      ips := Bump(ips, e.ip, 1);
      times := times + [e.time];
    }

    method RecordMalformed()
      modifies this
      ensures State() == old(State()).(malformed := old(State()).malformed + 1)
    {
      malformed := malformed + 1;
    }

    method MergeWith(other: Accumulator)
      requires other != this
      modifies this
      ensures State() == Merge(old(State()), other.State())
    {
      requests := requests + other.requests;
      malformed := malformed + other.malformed;
      totalBytes := totalBytes + other.totalBytes;
      status := MergeCounts(status, other.status);
      paths := MergeCounts(paths, other.paths);
      ips := MergeCounts(ips, other.ips);
      times := times + other.times;
    }

    /** One worker's share: every line of a batch. */
    method TakeLines(lines: seq<Line>)
      modifies this
      ensures State() == TakeAll(old(State()), lines)
    {
      assert lines[0..] == lines;
      for i := 0 to |lines|
        invariant TakeAll(State(), lines[i..]) == TakeAll(old(State()), lines)
      {
        hide Record;
        assert lines[i..][1..] == lines[i + 1..];
        match lines[i].entry {
          case Some(e) => RecordEntry(e);
          case None => RecordMalformed();
        }
      }
    }
  }

  method MergeCounts<K(==)>(a: Counts<K>, b: Counts<K>) returns (sum: Counts<K>)
    ensures sum == AddCounts(a, b)
  {
    sum := a;
    var todo := b;
    while todo != map[]
      invariant todo.Keys <= b.Keys && forall k :: k in todo ==> todo[k] == b[k]
      invariant AddCounts(sum, todo) == AddCounts(a, b)
      decreases |todo|
    {
      var k :| k in todo;
      ghost var before := AddCounts(sum, todo);
      ghost var sum0, todo0 := sum, todo;
      sum := Bump(sum, k, todo[k]);
      todo := todo - {k};
      assert todo.Keys == todo0.Keys - {k};
      MoveCount(sum0, todo0, k);
    }
    assert AddCounts(sum, map[]) == sum by { AddNothing(sum); }
  }

  lemma MoveCount<K>(a: Counts<K>, b: Counts<K>, k: K)
    requires k in b
    ensures AddCounts(Bump(a, k, b[k]), b - {k}) == AddCounts(a, b)
  {
  }

  lemma AddNothing<K>(a: Counts<K>)
    ensures AddCounts(a, map[]) == a && AddCounts(map[], a) == a
  {
  }

  // ---- order does not matter -----------------------------------------------------------------

  /** Equal up to the order in which request times were collected. */
  predicate Same(a: Stats, b: Stats) {
    a.(times := []) == b.(times := []) && multiset(a.times) == multiset(b.times)
  }

  lemma AddCountsCommutes<K>(a: Counts<K>, b: Counts<K>)
    ensures AddCounts(a, b) == AddCounts(b, a)
  {
  }

  lemma AddCountsAt<K>(a: Counts<K>, b: Counts<K>, k: K)
    ensures CountOf(AddCounts(a, b), k) == CountOf(a, k) + CountOf(b, k)
    ensures k in AddCounts(a, b) <==> k in a || k in b
  {
  }

  lemma AddCountsAssociates<K>(a: Counts<K>, b: Counts<K>, c: Counts<K>)
    ensures AddCounts(AddCounts(a, b), c) == AddCounts(a, AddCounts(b, c))
  {
    var l, r := AddCounts(AddCounts(a, b), c), AddCounts(a, AddCounts(b, c));
    assert l.Keys == r.Keys;
    hide AddCounts;
    forall k | k in l ensures l[k] == r[k] {
      AddCountsAt(AddCounts(a, b), c, k);
      AddCountsAt(a, b, k);
      AddCountsAt(a, AddCounts(b, c), k);
      AddCountsAt(b, c, k);
    }
  }

  /** Merge is associative and commutative, and Default is its unit. */
  lemma MergeIsCommutativeMonoid(a: Stats, b: Stats, c: Stats)
    ensures Merge(Merge(a, b), c) == Merge(a, Merge(b, c))
    ensures Same(Merge(a, b), Merge(b, a))
    ensures Merge(a, Default()) == a && Merge(Default(), a) == a
  {
    hide Merge, Same, Default;
    MergeAssociates(a, b, c);
    MergeCommutes(a, b);
    MergeUnit(a);
  }

  lemma MergeAssociates(a: Stats, b: Stats, c: Stats)
    ensures Merge(Merge(a, b), c) == Merge(a, Merge(b, c))
  {
    hide AddCounts;
    AddCountsAssociates(a.status, b.status, c.status);
    AddCountsAssociates(a.paths, b.paths, c.paths);
    AddCountsAssociates(a.ips, b.ips, c.ips);
    assert a.times + b.times + c.times == a.times + (b.times + c.times);
  }

  lemma MergeCommutes(a: Stats, b: Stats)
    ensures Same(Merge(a, b), Merge(b, a))
  {
    hide AddCounts;
    AddCountsCommutes(a.status, b.status);
    AddCountsCommutes(a.paths, b.paths);
    AddCountsCommutes(a.ips, b.ips);
  }

  lemma MergeUnit(a: Stats)
    ensures Merge(a, Default()) == a && Merge(Default(), a) == a
  {
    hide AddCounts;
    AddNothing(a.status);
    AddNothing(a.paths);
    AddNothing(a.ips);
  }

  lemma SameMerged(a: Stats, a': Stats, b: Stats, b': Stats)
    requires Same(a, a') && Same(b, b')
    ensures Same(Merge(a, b), Merge(a', b'))
  {
    hide AddCounts;
  }

  lemma SameTransitive(a: Stats, b: Stats, c: Stats)
    requires Same(a, b) && Same(b, c)
    ensures Same(a, c)
  {
  }

  lemma BumpIsMerge<K>(a: Counts<K>, k: K)
    ensures Bump(a, k, 1) == AddCounts(a, map[k := 1])
  {
  }

  /** Recording a line is merging the aggregate of that line alone. */
  lemma TakeIsMerge(s: Stats, line: Line)
    ensures Take(s, line) == Merge(s, Take(Default(), line))
  {
    match line.entry
    case Some(e) =>
      BumpIsMerge(s.status, e.status);
      BumpIsMerge(s.paths, e.path);
      BumpIsMerge(s.ips, e.ip);
      assert [] + [e.time] == [e.time];
    case None =>
      AddNothing(s.status);
      AddNothing(s.paths);
      AddNothing(s.ips);
      assert s.times + [] == s.times;
  }

  lemma {:induction false} TakeAllIsMerge(s: Stats, lines: seq<Line>)
    ensures TakeAll(s, lines) == Merge(s, Sequential(lines))
    decreases |lines|
  {
    hide Take, Merge, Default;
    if lines == [] {
      MergeIsCommutativeMonoid(s, s, s);
    } else {
      var one := Take(Default(), lines[0]);
      TakeIsMerge(s, lines[0]);
      TakeAllIsMerge(Take(s, lines[0]), lines[1..]);
      TakeAllIsMerge(one, lines[1..]);
      MergeIsCommutativeMonoid(s, one, Sequential(lines[1..]));
    }
  }

  lemma {:induction false} TakeAllConcat(s: Stats, a: seq<Line>, b: seq<Line>)
    ensures TakeAll(s, a + b) == TakeAll(TakeAll(s, a), b)
    decreases |a|
  {
    if a == [] {
      assert a + b == b;
    } else {
      assert (a + b)[1..] == a[1..] + b;
      TakeAllConcat(Take(s, a[0]), a[1..], b);
    }
  }

  // ---- what the aggregate counts ---------------------------------------------------------------

  /** The well-formed lines, in order. */
  function Entries(lines: seq<Line>): (es: seq<LogEntry>)
    ensures |es| <= |lines|
  {
    if lines == [] then []
    else (if lines[0].entry.Some? then [lines[0].entry.value] else []) + Entries(lines[1..])
  }

  function CountBy<K(==)>(es: seq<LogEntry>, field: LogEntry -> K, k: K): nat {
    if es == [] then 0 else (if field(es[0]) == k then 1 else 0) + CountBy(es[1..], field, k)
  }

  function TotalSize(es: seq<LogEntry>): nat {
    if es == [] then 0 else es[0].size + TotalSize(es[1..])
  }

  function Times(es: seq<LogEntry>): seq<Time> {
    seq(|es|, i requires 0 <= i < |es| => es[i].time)
  }

  function StatusOf(e: LogEntry): nat { e.status }
  function PathOf(e: LogEntry): bytes { e.path }
  function IpOf(e: LogEntry): bytes { e.ip }

  /** Every count of r is that of m plus the entries with that key. */
  ghost predicate CountsGrew<K(!new)>(m: Counts<K>, es: seq<LogEntry>, field: LogEntry -> K, r: Counts<K>) {
    forall k :: CountOf(r, k) == CountOf(m, k) + CountBy(es, field, k)
  }

  /** r is s plus these entries and that many malformed lines. */
  ghost predicate Counted(s: Stats, es: seq<LogEntry>, bad: nat, r: Stats) {
    && r.requests == s.requests + |es| && r.malformed == s.malformed + bad
    && r.totalBytes == s.totalBytes + TotalSize(es) && r.times == s.times + Times(es)
    && CountsGrew(s.status, es, StatusOf, r.status)
    && CountsGrew(s.paths, es, PathOf, r.paths)
    && CountsGrew(s.ips, es, IpOf, r.ips)
  }

  lemma CountsStep<K(!new)>(m: Counts<K>, e: LogEntry, rest: seq<LogEntry>, field: LogEntry -> K, r: Counts<K>)
    requires CountsGrew(Bump(m, field(e), 1), rest, field, r)
    ensures CountsGrew(m, [e] + rest, field, r)
  {
    assert ([e] + rest)[1..] == rest;
  }

  lemma CountedStep(s: Stats, e: LogEntry, rest: seq<LogEntry>, bad: nat, r: Stats)
    requires Counted(Record(s, e), rest, bad, r)
    ensures Counted(s, [e] + rest, bad, r)
  {
    hide CountsGrew, Bump;
    CountsStep(s.status, e, rest, StatusOf, r.status);
    CountsStep(s.paths, e, rest, PathOf, r.paths);
    CountsStep(s.ips, e, rest, IpOf, r.ips);
    assert ([e] + rest)[1..] == rest;
    assert s.times + [e.time] + Times(rest) == s.times + Times([e] + rest);
  }

  lemma CountedNothing(s: Stats)
    ensures Counted(s, [], 0, s)
  {
    assert s.times + Times([]) == s.times;
  }

  lemma {:induction false} TakeAllCounts(s: Stats, lines: seq<Line>)
    ensures Counted(s, Entries(lines), |lines| - |Entries(lines)|, TakeAll(s, lines))
    decreases |lines|
  {
    if lines == [] {
      CountedNothing(s);
    } else {
      var rest, r := Entries(lines[1..]), TakeAll(s, lines);
      TakeAllCounts(Take(s, lines[0]), lines[1..]);
      hide CountsGrew, Bump, Times, TotalSize;
      match lines[0].entry
      case None => assert [] + rest == rest;
      case Some(e) =>
        hide Counted, Record;
        CountedStep(s, e, rest, |lines[1..]| - |rest|, r);
    }
  }

  /** The sequential aggregate is exact: totals, and for every status, path and address its number of entries. */
  lemma SequentialCounts(lines: seq<Line>)
    ensures Counted(Default(), Entries(lines), |lines| - |Entries(lines)|, Sequential(lines))
  {
    TakeAllCounts(Default(), lines);
  }

  /** Analyzing two parts and merging is analyzing the whole. */
  lemma SequentialConcat(a: seq<Line>, b: seq<Line>)
    ensures Sequential(a + b) == Merge(Sequential(a), Sequential(b))
  {
    hide Take, Merge;
    TakeAllConcat(Default(), a, b);
    TakeAllIsMerge(Sequential(a), b);
  }

  function MergeAll(parts: seq<Stats>): Stats {
    if parts == [] then Default() else Merge(MergeAll(parts[..|parts| - 1]), parts[|parts| - 1])
  }
}
