/**
 The report of 04-concurrency/src/stats.rs: leaderboards sorted from hash maps, cut to the
 top entries, and the sorted samples percentiles are taken from.
 */
module LogReports {
  import opened Bytes
  import opened KeyOrder
  import opened LogStats

  // ---- leaderboards ------------------------------------------------------------------------------

  /** A strict total order on keys. */
  ghost predicate StrictOrder<K(!new)>(less: (K, K) -> bool) {
    && (forall a :: !less(a, a))
    && (forall a, b, c :: less(a, b) && less(b, c) ==> less(a, c))
    && (forall a, b :: a != b ==> less(a, b) || less(b, a))
  }

  predicate StatusLess(a: nat, b: nat) { a < b }

  lemma OrdersAreStrict()
    ensures StrictOrder(StatusLess) && StrictOrder(Less)
  {
    hide Less;
    forall a: bytes ensures !Less(a, a) { LessIrreflexive(a); }
    forall a: bytes, b: bytes, c: bytes | Less(a, b) && Less(b, c) ensures Less(a, c) { LessTransitive(a, b, c); }
    forall a: bytes, b: bytes | a != b ensures Less(a, b) || Less(b, a) { LessTotal(a, b); }
  }

  /** sort_by: higher count first, then ascending key. */
  predicate RankedBefore<K>(less: (K, K) -> bool, a: (K, nat), b: (K, nat)) {
    a.1 > b.1 || (a.1 == b.1 && less(a.0, b.0))
  }

  predicate Ranked<K>(less: (K, K) -> bool, s: seq<(K, nat)>) {
    forall i, j :: 0 <= i < j < |s| ==> RankedBefore(less, s[i], s[j])
  }

  /** s is the leaderboard of m: every entry once, in rank order. */
  ghost predicate Leaderboard<K(!new)>(less: (K, K) -> bool, m: Counts<K>, s: seq<(K, nat)>) {
    Ranked(less, s) && forall p :: p in s <==> p.0 in m && m[p.0] == p.1
  }

  lemma FirstBefore<K(!new)>(less: (K, K) -> bool, s: seq<(K, nat)>, x: (K, nat))
    requires Ranked(less, s) && x in s
    ensures x == s[0] || RankedBefore(less, s[0], x)
  {
    var j :| 0 <= j < |s| && s[j] == x;
  }

  lemma HeadAbsent<K(!new)>(less: (K, K) -> bool, s: seq<(K, nat)>)
    requires StrictOrder(less) && s != [] && Ranked(less, s)
    ensures s[0] !in s[1..] && Ranked(less, s[1..])
  {
    assert !RankedBefore(less, s[0], s[0]);
    assert forall j :: 0 <= j < |s[1..]| ==> RankedBefore(less, s[0], s[1..][j]);
  }

  lemma TailMembers<K(!new)>(s: seq<(K, nat)>)
    requires s != []
    ensures forall p :: p in s <==> p == s[0] || p in s[1..]
  {
    assert s == [s[0]] + s[1..];
  }

  lemma SameFirstRank<K(!new)>(less: (K, K) -> bool, s: seq<(K, nat)>, s': seq<(K, nat)>)
    requires StrictOrder(less) && Ranked(less, s) && Ranked(less, s')
    requires forall p :: p in s <==> p in s'
    ensures s == [] <==> s' == []
    ensures s != [] && s' != [] ==> s[0] == s'[0]
  {
    if s != [] { assert s[0] in s'; }
    if s' != [] { assert s'[0] in s; }
    if s != [] && s' != [] && s[0] != s'[0] {
      FirstBefore(less, s, s'[0]);
      FirstBefore(less, s', s[0]);
    }
  }

  /** The ranking determines the list. */
  lemma {:induction false} RankedUnique<K(!new)>(less: (K, K) -> bool, s: seq<(K, nat)>, s': seq<(K, nat)>)
    requires StrictOrder(less) && Ranked(less, s) && Ranked(less, s')
    requires forall p :: p in s <==> p in s'
    ensures s == s'
  {
    hide Ranked, StrictOrder;
    SameFirstRank(less, s, s');
    if s != [] {
      HeadAbsent(less, s);
      HeadAbsent(less, s');
      TailMembers(s);
      TailMembers(s');
      RankedUnique(less, s[1..], s'[1..]);
      assert s == [s[0]] + s[1..] && s' == [s'[0]] + s'[1..];
    }
  }

  /** p put at its rank. */
  function Place<K(!new)>(less: (K, K) -> bool, p: (K, nat), s: seq<(K, nat)>): seq<(K, nat)> {
    if s == [] || RankedBefore(less, p, s[0]) then [p] + s else [s[0]] + Place(less, p, s[1..])
  }

  lemma {:induction false} PlaceMembers<K(!new)>(less: (K, K) -> bool, p: (K, nat), s: seq<(K, nat)>)
    ensures forall x :: x in Place(less, p, s) <==> x == p || x in s
  {
    if s != [] && !RankedBefore(less, p, s[0]) {
      PlaceMembers(less, p, s[1..]);
      TailMembers(s);
    }
  }

  lemma RankedCons<K(!new)>(less: (K, K) -> bool, p: (K, nat), s: seq<(K, nat)>)
    requires Ranked(less, s) && forall x :: x in s ==> RankedBefore(less, p, x)
    ensures Ranked(less, [p] + s)
  {
  }

  /** Placing an entry with a new key keeps the ranking. */
  lemma {:induction false} PlaceRanked<K(!new)>(less: (K, K) -> bool, p: (K, nat), s: seq<(K, nat)>)
    requires StrictOrder(less) && Ranked(less, s) && forall x :: x in s ==> x.0 != p.0
    ensures Ranked(less, Place(less, p, s))
  {
    if s == [] {
    } else if RankedBefore(less, p, s[0]) {
      forall x | x in s ensures RankedBefore(less, p, x) {
        var j :| 0 <= j < |s| && s[j] == x;
        if j > 0 { BeforeTransitive(less, p, s[0], x); }
      }
      RankedCons(less, p, s);
    } else {
      assert s[0] in s && forall x :: x in s[1..] ==> x in s;
      PlaceRanked(less, p, s[1..]);
      PlaceMembers(less, p, s[1..]);
      forall x | x in Place(less, p, s[1..]) ensures RankedBefore(less, s[0], x) {
        if x in s[1..] {
          var j :| 0 <= j < |s[1..]| && s[1..][j] == x;
          assert RankedBefore(less, s[0], s[j + 1]);
        }
      }
      RankedCons(less, s[0], Place(less, p, s[1..]));
    }
  }

  lemma BeforeTransitive<K(!new)>(less: (K, K) -> bool, a: (K, nat), b: (K, nat), c: (K, nat))
    requires StrictOrder(less) && RankedBefore(less, a, b) && RankedBefore(less, b, c)
    ensures RankedBefore(less, a, c)
  {
  }

  /** into_iter().collect() in any order, then sort_by. */
  method SortCounts<K(==, !new)>(less: (K, K) -> bool, m: Counts<K>) returns (s: seq<(K, nat)>)
    requires StrictOrder(less)
    ensures Leaderboard(less, m, s)
  {
    hide StrictOrder, Ranked, Place;
    s := [];
    assert Ranked(less, s) by { EmptyRanked(less); }
    var todo := m;
    while todo != map[]
      invariant todo.Keys <= m.Keys && forall k :: k in todo ==> todo[k] == m[k]
      invariant Ranked(less, s) && forall p :: p in s <==> p.0 in m && p.0 !in todo && m[p.0] == p.1
      decreases |todo|
    {
      var k :| k in todo;
      var p := (k, todo[k]);
      PlaceRanked(less, p, s);
      PlaceMembers(less, p, s);
      s := Place(less, p, s);
      todo := todo - {k};
    }
  }

  lemma EmptyRanked<K>(less: (K, K) -> bool)
    ensures Ranked(less, [])
  {
  }

  // ---- samples ---------------------------------------------------------------------------------

  predicate Ascending(s: seq<Time>) {
    forall i, j :: 0 <= i < j < |s| ==> s[i] <= s[j]
  }

  lemma HeadAndTail(s: seq<Time>)
    requires s != []
    ensures multiset(s[1..]) == multiset(s) - multiset{s[0]} && s == [s[0]] + s[1..]
    ensures Ascending(s) ==> Ascending(s[1..])
  {
    assert s == [s[0]] + s[1..];
  }

  lemma LeastInFront(s: seq<Time>, t: Time)
    requires Ascending(s) && t in multiset(s)
    ensures s != [] && s[0] <= t
  {
    assert t in s;
  }

  lemma SameFirst(s: seq<Time>, s': seq<Time>)
    requires Ascending(s) && Ascending(s') && multiset(s) == multiset(s')
    ensures s == [] <==> s' == []
    ensures s != [] && s' != [] ==> s[0] == s'[0]
  {
    assert |multiset(s)| == |s| && |multiset(s')| == |s'|;
    if s != [] && s' != [] {
      assert s[0] in multiset(s) && s'[0] in multiset(s');
      LeastInFront(s, s'[0]);
      LeastInFront(s', s[0]);
    }
  }

  lemma {:induction false} SortedTimesUnique(s: seq<Time>, s': seq<Time>)
    requires Ascending(s) && Ascending(s') && multiset(s) == multiset(s')
    ensures s == s'
  {
    hide Ascending;
    SameFirst(s, s');
    if s != [] {
      HeadAndTail(s);
      HeadAndTail(s');
      var tail, tail' := s[1..], s'[1..];
      assert multiset(tail) == multiset(tail');
      SortedTimesUnique(tail, tail');
    }
  }

  function PlaceTime(t: Time, s: seq<Time>): seq<Time> {
    if s == [] || t <= s[0] then [t] + s else [s[0]] + PlaceTime(t, s[1..])
  }

  lemma {:induction false} PlaceTimeMembers(t: Time, s: seq<Time>)
    ensures multiset(PlaceTime(t, s)) == multiset(s) + multiset{t}
  {
    if s != [] && t > s[0] {
      PlaceTimeMembers(t, s[1..]);
      assert s == [s[0]] + s[1..];
    }
  }

  lemma {:induction false} PlaceTimeSorts(t: Time, s: seq<Time>)
    requires Ascending(s)
    ensures Ascending(PlaceTime(t, s))
    ensures PlaceTime(t, s)[0] == if s == [] || t <= s[0] then t else s[0]
  {
    if s == [] || t <= s[0] {
      LeastStays(t, s);
    } else {
      assert Ascending(s[1..]) && (s[1..] != [] ==> s[0] <= s[1]);
      hide Ascending;
      PlaceTimeSorts(t, s[1..]);
      LeastStays(s[0], PlaceTime(t, s[1..]));
    }
  }

  lemma LeastStays(t: Time, s: seq<Time>)
    requires Ascending(s) && (s != [] ==> t <= s[0])
    ensures Ascending([t] + s)
  {
  }

  /** The clone that percentile sorts. */
  method SortTimes(times: seq<Time>) returns (s: seq<Time>)
    ensures Ascending(s) && multiset(s) == multiset(times)
  {
    hide Ascending;
    s := [];
    assert Ascending([]) by { EmptyAscending(); }
    for i := 0 to |times|
      invariant Ascending(s) && multiset(s) == multiset(times[..i])
    {
      PlaceTimeSorts(times[i], s);
      PlaceTimeMembers(times[i], s);
      assert times[..i + 1] == times[..i] + [times[i]];
      s := PlaceTime(times[i], s);
    }
    assert times[..|times|] == times;
  }

  lemma EmptyAscending()
    ensures Ascending([])
  {
  }

  // ---- the report ---------------------------------------------------------------------------------

  /** The counters, the sorted statuses, the leaderboards cut to topK, and the sorted samples. */
  datatype Report = Report(requests: nat, malformed: nat, totalBytes: nat, status: seq<(nat, nat)>,
                           topPaths: seq<(bytes, nat)>, topIps: seq<(bytes, nat)>, sortedTimes: seq<Time>)

  function Truncate<T>(s: seq<T>, n: nat): seq<T> {
    if |s| <= n then s else s[..n]
  }

  /** top is the leaderboard of m, cut to topK. */
  ghost predicate TopOf(m: Counts<bytes>, topK: nat, top: seq<(bytes, nat)>) {
    exists p :: Leaderboard(Less, m, p) && top == Truncate(p, topK)
  }

  /** r is the report of s, whatever order the hash maps were iterated in. */
  ghost predicate IsReport(s: Stats, topK: nat, r: Report) {
    && r.requests == s.requests && r.malformed == s.malformed && r.totalBytes == s.totalBytes
    && Leaderboard(StatusLess, s.status, r.status)
    && TopOf(s.paths, topK, r.topPaths) && TopOf(s.ips, topK, r.topIps)
    && Ascending(r.sortedTimes) && multiset(r.sortedTimes) == multiset(s.times)
  }

  /** into_report computes a report of every aggregate. */
  method IntoReport(s: Stats, topK: nat) returns (r: Report)
    ensures IsReport(s, topK, r)
  {
    OrdersAreStrict();
    hide StrictOrder, Ranked, Leaderboard, Ascending;
    var status := SortCounts(StatusLess, s.status);
    var paths := SortCounts(Less, s.paths);
    var ips := SortCounts(Less, s.ips);
    var times := SortTimes(s.times);
    r := Report(s.requests, s.malformed, s.totalBytes, status, Truncate(paths, topK), Truncate(ips, topK), times);
  }

  lemma SameTop(m: Counts<bytes>, topK: nat, top: seq<(bytes, nat)>, top': seq<(bytes, nat)>)
    requires TopOf(m, topK, top) && TopOf(m, topK, top')
    ensures top == top'
  {
    OrdersAreStrict();
    hide StrictOrder, Ranked;
    var p :| Leaderboard(Less, m, p) && top == Truncate(p, topK);
    var p' :| Leaderboard(Less, m, p') && top' == Truncate(p', topK);
    RankedUnique(Less, p, p');
  }

  /** Aggregates that agree up to sample order have one and the same report. */
  lemma SameReport(a: Stats, b: Stats, topK: nat, ra: Report, rb: Report)
    requires Same(a, b) && IsReport(a, topK, ra) && IsReport(b, topK, rb)
    ensures ra == rb
  {
    OrdersAreStrict();
    SameTop(a.paths, topK, ra.topPaths, rb.topPaths);
    SameTop(a.ips, topK, ra.topIps, rb.topIps);
    RankedUnique(StatusLess, ra.status, rb.status);
    SortedTimesUnique(ra.sortedTimes, rb.sortedTimes);
  }

  /** A report of one is a report of the other. */
  lemma ReportTransfers(a: Stats, b: Stats, topK: nat, r: Report)
    requires Same(a, b) && IsReport(a, topK, r)
    ensures IsReport(b, topK, r)
  {
    hide Leaderboard, TopOf, Ascending;
  }
}
