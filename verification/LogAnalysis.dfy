/**
 What the three analyzers of 04-concurrency report about a text, line by line: how many
 lines count towards each number, without reference to how any of them works.
 */
module LogAnalyses {
  import opened Bytes
  import opened KeyOrder
  import opened Splitting
  import opened LogStats
  import opened LogChunks
  import opened LogReports
  import opened Pipeline

  // ---- counting lines ------------------------------------------------------------------------

  /** The positions of the lines with this property. */
  function Where(lines: seq<bytes>, p: bytes -> bool): (found: set<nat>)
  {
    set i: nat | i < |lines| && p(lines[i])
  }

  lemma WhereSnoc(lines: seq<bytes>, l: bytes, p: bytes -> bool)
    ensures |Where(lines + [l], p)| == |Where(lines, p)| + if p(l) then 1 else 0
  {
    var all, front := Where(lines + [l], p), Where(lines, p);
    assert forall i: nat :: i < |lines| ==> (lines + [l])[i] == lines[i];
    if p(l) {
      assert all == front + {|lines|};
    } else {
      assert all == front;
    }
  }

  /** A line that is neither blank nor malformed. */
  function Good(parse: LineParser): bytes -> bool {
    l => l != [] && parse(l).Some?
  }

  function Malformed(parse: LineParser): bytes -> bool {
    l => l != [] && parse(l).None?
  }

  /** A good line with this value in the field. */
  function Having<K(==)>(parse: LineParser, field: LogEntry -> K, k: K): bytes -> bool {
    l => l != [] && parse(l).Some? && field(parse(l).value) == k
  }

  lemma EntriesSnoc(lines: seq<Line>, line: Line)
    ensures Entries(lines + [line]) == if line.entry.Some? then Entries(lines) + [line.entry.value] else Entries(lines)
    decreases |lines|
  {
    if lines == [] {
      assert [line][1..] == [];
    } else {
      assert (lines + [line])[1..] == lines[1..] + [line];
      EntriesSnoc(lines[1..], line);
    }
  }

  lemma {:induction false} CountBySnoc<K>(es: seq<LogEntry>, e: LogEntry, field: LogEntry -> K, k: K)
    ensures CountBy(es + [e], field, k) == CountBy(es, field, k) + if field(e) == k then 1 else 0
    decreases |es|
  {
    if es == [] {
      assert [e][1..] == [];
    } else {
      assert (es + [e])[1..] == es[1..] + [e];
      CountBySnoc(es[1..], e, field, k);
    }
  }

  /** The entries of the lines, counted at the lines themselves. */
  lemma {:induction false} EntriesCounted(parse: LineParser, lines: seq<bytes>)
    ensures var es := Entries(ParsedLines(parse, lines));
      && |es| == |Where(lines, Good(parse))|
      && |ParsedLines(parse, lines)| - |es| == |Where(lines, Malformed(parse))|
    decreases |lines|
  {
    var good, bad := Good(parse), Malformed(parse);
    if lines == [] {
      assert Where([], good) == {} && Where([], bad) == {};
    } else {
      var front, l := lines[..|lines| - 1], lines[|lines| - 1];
      assert lines == front + [l];
      EntriesCounted(parse, front);
      ParsedSnoc(parse, front, l);
      WhereSnoc(front, l, good);
      WhereSnoc(front, l, bad);
      if l != [] { EntriesSnoc(ParsedLines(parse, front), Line(parse(l))); }
    }
  }

  lemma ParsedSnoc(parse: LineParser, front: seq<bytes>, l: bytes)
    ensures ParsedLines(parse, front + [l]) == if l == [] then ParsedLines(parse, front) else ParsedLines(parse, front) + [Line(parse(l))]
  {
    LineIsKept(parse, front, l, []);
    assert front + [l] + [] == front + [l] && front + [] == front;
    assert ParsedLines(parse, []) == [] && ParsedLines(parse, front) + [Line(parse(l))] + [] == ParsedLines(parse, front) + [Line(parse(l))];
  }

  lemma {:induction false} FieldCounted<K>(parse: LineParser, lines: seq<bytes>, field: LogEntry -> K, k: K)
    ensures CountBy(Entries(ParsedLines(parse, lines)), field, k) == |Where(lines, Having(parse, field, k))|
    decreases |lines|
  {
    var has := Having(parse, field, k);
    if lines == [] {
      assert Where([], has) == {};
    } else {
      var front, l := lines[..|lines| - 1], lines[|lines| - 1];
      assert lines == front + [l];
      FieldCounted(parse, front, field, k);
      ParsedSnoc(parse, front, l);
      WhereSnoc(front, l, has);
      if l != [] {
        EntriesSnoc(ParsedLines(parse, front), Line(parse(l)));
        if parse(l).Some? { CountBySnoc(Entries(ParsedLines(parse, front)), parse(l).value, field, k); }
      }
    }
  }

  // ---- the analyzers ----------------------------------------------------------------------------

  function WithStatus(parse: LineParser, status: nat): bytes -> bool {
    l => l != [] && parse(l).Some? && parse(l).value.status == status
  }

  function WithPath(parse: LineParser, path: bytes): bytes -> bool {
    l => l != [] && parse(l).Some? && parse(l).value.path == path
  }

  function WithIp(parse: LineParser, ip: bytes): bytes -> bool {
    l => l != [] && parse(l).Some? && parse(l).value.ip == ip
  }

  /** Every number of the aggregate is the number of lines it stands for. */
  ghost predicate CountsLines(s: Stats, parse: LineParser, lines: seq<bytes>) {
    && s.requests == |Where(lines, Good(parse))|
    && s.malformed == |Where(lines, Malformed(parse))|
    && (forall k :: CountOf(s.status, k) == |Where(lines, WithStatus(parse, k))|)
    && (forall k :: CountOf(s.paths, k) == |Where(lines, WithPath(parse, k))|)
    && (forall k :: CountOf(s.ips, k) == |Where(lines, WithIp(parse, k))|)
  }

  lemma FieldsNamed(parse: LineParser, lines: seq<bytes>)
    ensures forall k :: Where(lines, Having(parse, StatusOf, k)) == Where(lines, WithStatus(parse, k))
    ensures forall k :: Where(lines, Having(parse, PathOf, k)) == Where(lines, WithPath(parse, k))
    ensures forall k :: Where(lines, Having(parse, IpOf, k)) == Where(lines, WithIp(parse, k))
  {
  }

  lemma FieldsCounted(parse: LineParser, lines: seq<bytes>)
    ensures var es := Entries(ParsedLines(parse, lines));
      && (forall k :: CountBy(es, StatusOf, k) == |Where(lines, WithStatus(parse, k))|)
      && (forall k :: CountBy(es, PathOf, k) == |Where(lines, WithPath(parse, k))|)
      && (forall k :: CountBy(es, IpOf, k) == |Where(lines, WithIp(parse, k))|)
  {
    FieldsNamed(parse, lines);
    hide Where, Having, WithStatus, WithPath, WithIp, ParsedLines, CountBy, Entries;
    var es := Entries(ParsedLines(parse, lines));
    forall k ensures CountBy(es, StatusOf, k) == |Where(lines, WithStatus(parse, k))| {
      FieldCounted(parse, lines, StatusOf, k);
    }
    forall k ensures CountBy(es, PathOf, k) == |Where(lines, WithPath(parse, k))| {
      FieldCounted(parse, lines, PathOf, k);
    }
    forall k ensures CountBy(es, IpOf, k) == |Where(lines, WithIp(parse, k))| {
      FieldCounted(parse, lines, IpOf, k);
    }
  }

  /** The counts of the sequential oracle, and so of the parallel one, are numbers of lines of the text. */
  lemma AnalysisCounts(parse: LineParser, data: bytes)
    ensures CountsLines(Analyze(parse, data), parse, Lines(data))
  {
    var parsed := ParsedLines(parse, Lines(data));
    SequentialCounts(parsed);
    EntriesCounted(parse, Lines(data));
    FieldsCounted(parse, Lines(data));
    hide Where, Good, Malformed, WithStatus, WithPath, WithIp, ParsedLines, CountBy, Entries, Sequential, Lines, Times, TotalSize;
  }

  /** Every line is blank, good or malformed: no line is counted twice or forgotten. */
  lemma NoLineForgotten(parse: LineParser, data: bytes)
    ensures var s := Analyze(parse, data); s.requests + s.malformed == |Where(Lines(data), l => l != [])|
  {
    AnalysisCounts(parse, data);
    hide Analyze, Lines, CountOf;
    var ls := Lines(data);
    var good, bad, all := Where(ls, Good(parse)), Where(ls, Malformed(parse)), Where(ls, l => l != []);
    assert all == good + bad && good !! bad;
  }

  /** One more line at the end of a text: its size and its time are added, or it counts as malformed, or nothing changes. */
  lemma OneMoreLine(parse: LineParser, text: bytes, line: bytes)
    requires Whole(text) && 10 !in line && (line != [] ==> line[|line| - 1] != 13)
    ensures var s, t := Analyze(parse, text), Analyze(parse, text + (line + [10]));
      if line == [] then t == s
      else match parse(line)
        case None => t == s.(malformed := s.malformed + 1)
        case Some(e) => t.totalBytes == s.totalBytes + e.size && t.times == s.times + [e.time] && t.requests == s.requests + 1
  {
    AnalyzeConcat(parse, text, line + [10]);
    OneLineAnalysis(parse, line);
    var s := Analyze(parse, text);
    hide Analyze, Merge, Sequential;
    MergeUnit(s);
    if line != [] { MergeOne(s, Line(parse(line))); }
  }

  lemma OneLineAnalysis(parse: LineParser, line: bytes)
    requires 10 !in line && (line != [] ==> line[|line| - 1] != 13)
    ensures Analyze(parse, line + [10]) == if line == [] then Default() else Sequential([Line(parse(line))])
  {
    OneLine(line);
    ParsedSnoc(parse, [], line);
    hide Lines, Sequential;
    assert [] + [line] == [line] && ParsedLines(parse, []) == [] && [] + [Line(parse(line))] == [Line(parse(line))];
    assert Sequential([]) == Default() by { NothingTaken(Default()); }
  }

  lemma MergeOne(s: Stats, line: Line)
    ensures Merge(s, Sequential([line])) == Take(s, line)
  {
    TakeIsMerge(s, line);
    hide Merge, Take;
    assert [line][1..] == [];
    NothingTaken(Take(Default(), line));
  }

  lemma OneLine(line: bytes)
    requires 10 !in line && (line != [] ==> line[|line| - 1] != 13)
    ensures Lines(line + [10]) == [line]
  {
    assert [line][1..] == [];
    assert Joined([line]) + [] == line + [10];
    LinesOfText([line], []);
    assert Joined([line]) + [] == line + [10] + [] + [];
  }

  // ---- the pipeline ---------------------------------------------------------------------------------

  /** What the producer makes of the lines. */
  function RawOf(parse: LineParser, lines: seq<bytes>): (raw: seq<RawLine>)
    ensures |raw| == |lines|
  {
    seq(|lines|, i requires 0 <= i < |lines| => if lines[i] == [] then None else Some(Line(parse(lines[i]))))
  }

  lemma {:induction false} NonBlankIsParsed(parse: LineParser, lines: seq<bytes>)
    ensures NonBlank(RawOf(parse, lines)) == ParsedLines(parse, lines)
  {
    if lines != [] {
      assert RawOf(parse, lines)[1..] == RawOf(parse, lines[1..]);
      NonBlankIsParsed(parse, lines[1..]);
    }
  }

  /** A finished pipeline has counted exactly the lines of the text, whatever its schedule was. */
  lemma PipelineCounts(parse: LineParser, data: bytes, nWorkers: nat, steps: seq<Step>)
    requires nWorkers > 0 && Possible(Start(RawOf(parse, Lines(data)), nWorkers), steps)
    requires Finished(After(Start(RawOf(parse, Lines(data)), nWorkers), steps))
    ensures var s := Result(After(Start(RawOf(parse, Lines(data)), nWorkers), steps));
      CountsLines(s, parse, Lines(data)) && Same(s, Analyze(parse, data))
  {
    hide Possible, Finished, RawOf, ParsedLines, Sequential, Lines, Where, CountOf, Measure, Result, Start;
    PipelineMatchesSequential(RawOf(parse, Lines(data)), nWorkers, steps);
    NonBlankIsParsed(parse, Lines(data));
    AnalysisCounts(parse, data);
  }

  // ---- the report -----------------------------------------------------------------------------------

  ghost predicate AllPositive<K(!new)>(m: Counts<K>) {
    forall k :: k in m ==> m[k] > 0
  }

  lemma {:induction false} NoZeroCounts(s: Stats, lines: seq<Line>)
    requires AllPositive(s.status) && AllPositive(s.paths) && AllPositive(s.ips)
    ensures var t := TakeAll(s, lines); AllPositive(t.status) && AllPositive(t.paths) && AllPositive(t.ips)
    decreases |lines|
  {
    if lines != [] { NoZeroCounts(Take(s, lines[0]), lines[1..]); }
  }

  /** r lists exactly the values that occur in some good line, each with the number of those lines. */
  lemma ReportCounts(parse: LineParser, data: bytes, topK: nat, r: Report)
    requires IsReport(Analyze(parse, data), topK, r)
    ensures r.requests == |Where(Lines(data), Good(parse))| && r.malformed == |Where(Lines(data), Malformed(parse))|
    ensures r.totalBytes == Analyze(parse, data).totalBytes
    ensures forall p :: p in r.status <==> p.1 > 0 && p.1 == |Where(Lines(data), WithStatus(parse, p.0))|
    ensures forall p :: p in r.topPaths ==> p.1 > 0 && p.1 == |Where(Lines(data), WithPath(parse, p.0))|
    ensures forall p :: p in r.topIps ==> p.1 > 0 && p.1 == |Where(Lines(data), WithIp(parse, p.0))|
  {
    AnalysisCounts(parse, data);
    NoZeroCounts(Default(), ParsedLines(parse, Lines(data)));
    var s := Analyze(parse, data);
    assert AllPositive(s.status) && AllPositive(s.paths) && AllPositive(s.ips);
    TopIsListed(s.paths, topK, r.topPaths);
    TopIsListed(s.ips, topK, r.topIps);
    hide Where, Lines, Analyze, TopOf, Ascending, Good, Malformed, WithStatus, WithPath, WithIp, Ranked;
  }

  lemma TopIsListed(m: Counts<bytes>, topK: nat, top: seq<(bytes, nat)>)
    requires TopOf(m, topK, top)
    ensures forall p :: p in top ==> p.0 in m && m[p.0] == p.1
    ensures |top| <= topK
    ensures |top| == topK || forall k :: k in m ==> (k, m[k]) in top
  {
    hide Ranked, Less;
  }

  /** Leaderboards are sorted by falling count, equal counts by rising key, and what is cut off has no higher rank. */
  lemma ReportOrder(s: Stats, topK: nat, r: Report)
    requires IsReport(s, topK, r)
    ensures forall i, j :: 0 <= i < j < |r.status| ==>
              r.status[i].1 > r.status[j].1 || (r.status[i].1 == r.status[j].1 && r.status[i].0 < r.status[j].0)
    ensures forall i, j :: 0 <= i < j < |r.topPaths| ==>
              r.topPaths[i].1 > r.topPaths[j].1 || (r.topPaths[i].1 == r.topPaths[j].1 && Less(r.topPaths[i].0, r.topPaths[j].0))
    ensures forall p, k :: p in r.topPaths && k in s.paths && (k, s.paths[k]) !in r.topPaths ==> p.1 >= s.paths[k]
    ensures forall p, k :: p in r.topIps && k in s.ips && (k, s.ips[k]) !in r.topIps ==> p.1 >= s.ips[k]
  {
    TopOrder(s.paths, topK, r.topPaths);
    TopOrder(s.ips, topK, r.topIps);
    hide Less, TopOf, Ascending;
  }

  lemma TopOrder(m: Counts<bytes>, topK: nat, top: seq<(bytes, nat)>)
    requires TopOf(m, topK, top)
    ensures forall i, j :: 0 <= i < j < |top| ==> top[i].1 > top[j].1 || (top[i].1 == top[j].1 && Less(top[i].0, top[j].0))
    ensures forall p, k :: p in top && k in m && (k, m[k]) !in top ==> p.1 >= m[k]
  {
    hide Less;
    var all :| Leaderboard(Less, m, all) && top == Truncate(all, topK);
    forall p, k | p in top && k in m && (k, m[k]) !in top
      ensures p.1 >= m[k]
    {
      assert (k, m[k]) in all;
      var i :| 0 <= i < |top| && top[i] == p;
      var j :| 0 <= j < |all| && all[j] == (k, m[k]);
      assert forall x :: 0 <= x < |top| ==> all[x] == top[x] && top[x] in top;
      assert RankedBefore(Less, all[i], all[j]);
    }
  }
}
