/** The hand-rolled map-reduce of 04-concurrency/src/parallel.rs against the sequential oracle. */
module LogChunks {
  import opened Bytes
  import opened Division
  import opened Splitting
  import opened LogStats

  const CR: byte := 13

  /** parse_line on one line of text. */
  type LineParser = bytes -> Option<LogEntry>

  function StripCr(line: bytes): bytes {
    if line != [] && line[|line| - 1] == CR then line[..|line| - 1] else line
  }

  /** str::lines: newline-ended lines without "\n" or "\r\n", then an unfinished last line as it is. */
  function Lines(text: bytes): seq<bytes> {
    StripAll(Terminated(text)) + (if Rest(text) == [] then [] else [Rest(text)])
  }

  function StripAll(lines: seq<bytes>): (stripped: seq<bytes>)
    ensures |stripped| == |lines|
  {
    seq(|lines|, i requires 0 <= i < |lines| => StripCr(lines[i]))
  }

  /** The non-blank lines with their parse results. */
  function ParsedLines(parse: LineParser, lines: seq<bytes>): seq<Line> {
    if lines == [] then []
    else (if lines[0] == [] then [] else [Line(parse(lines[0]))]) + ParsedLines(parse, lines[1..])
  }

  /** analyze_sequential. */
  function Analyze(parse: LineParser, data: bytes): Stats {
    Sequential(ParsedLines(parse, Lines(data)))
  }

  /** One merged aggregate per chunk, in chunk order. */
  function AnalyzeChunks(parse: LineParser, chunks: seq<bytes>): Stats {
    if chunks == [] then Default()
    else Merge(AnalyzeChunks(parse, chunks[..|chunks| - 1]), Analyze(parse, chunks[|chunks| - 1]))
  }

  lemma LinesConcat(a: bytes, b: bytes)
    requires Whole(a)
    ensures Lines(a + b) == Lines(a) + Lines(b)
  {
    TerminatedConcat(a, b);
    StripConcat(Terminated(a), Terminated(b));
    hide Terminated, Rest, StripAll;
    var la, lb := StripAll(Terminated(a)), StripAll(Terminated(b));
    assert la + [] == la;
    if Rest(b) == [] {
      assert lb + [] == lb && la + lb + [] == la + lb;
    } else {
      assert la + lb + [Rest(b)] == la + (lb + [Rest(b)]);
    }
  }

  lemma StripConcat(a: seq<bytes>, b: seq<bytes>)
    ensures StripAll(a + b) == StripAll(a) + StripAll(b)
  {
    hide StripCr;
  }

  lemma {:induction false} ParsedLinesConcat(parse: LineParser, a: seq<bytes>, b: seq<bytes>)
    ensures ParsedLines(parse, a + b) == ParsedLines(parse, a) + ParsedLines(parse, b)
    decreases |a|
  {
    if a == [] {
      assert a + b == b;
    } else {
      assert (a + b)[1..] == a[1..] + b;
      ParsedLinesConcat(parse, a[1..], b);
    }
  }

  /** Taking a line away that is blank changes nothing; any other line is kept with its parse result, in its place. */
  lemma LineIsKept(parse: LineParser, a: seq<bytes>, l: bytes, b: seq<bytes>)
    ensures l == [] ==> ParsedLines(parse, a + [l] + b) == ParsedLines(parse, a + b)
    ensures l != [] ==> ParsedLines(parse, a + [l] + b) == ParsedLines(parse, a) + [Line(parse(l))] + ParsedLines(parse, b)
  {
    ParsedLinesConcat(parse, a + [l], b);
    ParsedLinesConcat(parse, a, [l]);
    ParsedLinesConcat(parse, a, b);
    assert [l][1..] == [];
    assert ParsedLines(parse, [l]) == (if l == [] then [] else [Line(parse(l))]) + [];
    if l == [] { assert ParsedLines(parse, a) + [] == ParsedLines(parse, a); }
  }

  /** str::lines on lines that end in "\n": a carriage return before it goes too, a last line without one stays as it is. */
  lemma LinesOfText(lines: seq<bytes>, rest: bytes)
    requires SplitsInto(Joined(lines) + rest, lines, rest)
    ensures var found := Lines(Joined(lines) + rest);
      && |found| == |lines| + (if rest == [] then 0 else 1)
      && (forall i :: 0 <= i < |lines| ==>
            found[i] == if lines[i] != [] && lines[i][|lines[i]| - 1] == 13 then lines[i][..|lines[i]| - 1] else lines[i])
      && (rest != [] ==> found[|lines|] == rest)
  {
    LinesOfJoined(lines, rest);
    hide Terminated, Rest, SplitsInto, Joined;
  }

  lemma AnalyzeConcat(parse: LineParser, a: bytes, b: bytes)
    requires Whole(a)
    ensures Analyze(parse, a + b) == Merge(Analyze(parse, a), Analyze(parse, b))
  {
    hide Merge, Sequential;
    LinesConcat(a, b);
    ParsedLinesConcat(parse, Lines(a), Lines(b));
    SequentialConcat(ParsedLines(parse, Lines(a)), ParsedLines(parse, Lines(b)));
  }

  lemma EmptyAnalysis(parse: LineParser)
    ensures Analyze(parse, []) == Default()
  {
    assert Terminated([]) == [] && Rest([]) == [];
    assert Lines([]) == [];
  }

  /** Any tiling of the buffer analyzes and merges to the aggregate of the whole buffer. */
  lemma {:induction false} ChunksMatchSequential(parse: LineParser, data: bytes, chunks: seq<bytes>)
    requires Tiles(data, chunks)
    ensures AnalyzeChunks(parse, chunks) == Analyze(parse, data)
    decreases |chunks|
  {
    hide Analyze, Merge, Tiles, Concat, Default;
    if chunks == [] {
      NoTiles(data);
      EmptyAnalysis(parse);
    } else {
      var front, last := chunks[..|chunks| - 1], chunks[|chunks| - 1];
      TilesFront(data, chunks);
      ChunksMatchSequential(parse, Concat(front), front);
      AnalyzeConcat(parse, Concat(front), last);
    }
  }

  // ---- the code ------------------------------------------------------------------------------

  /** The rough i-th cut point, somewhere in the buffer. */
  function Cut(len: nat, i: nat, n: nat): (c: nat)
    requires 0 < n && i <= n
    ensures c <= len
  {
    DivMonotone(i * len, n * len, n);
    DivExact(n, len);
    i * len / n
  }

  lemma CutsAscend(len: nat, i: nat, n: nat)
    requires 0 < i <= n
    ensures Cut(len, i - 1, n) <= Cut(len, i, n)
  {
    MulMonotone(i - 1, i, len);
    DivMonotone((i - 1) * len, i * len, n);
  }

  predicate Ascend(bounds: seq<nat>, len: nat) {
    && (forall i :: 0 <= i < |bounds| ==> bounds[i] <= len)
    && (forall i, j :: 0 <= i < j < |bounds| ==> bounds[i] <= bounds[j])
  }

  lemma AscendSnoc(bounds: seq<nat>, end: nat, len: nat)
    requires Ascend(bounds, len) && end <= len
    requires bounds != [] ==> bounds[|bounds| - 1] <= end
    ensures Ascend(bounds + [end], len)
  {
  }

  /** The k-th of n equal shares ends a chunk, moved on to just behind the next newline. */
  predicate CutAt(data: bytes, k: nat, n: nat, chunks: seq<bytes>)
    requires 0 < k < n
  {
    CutIs(|data|, k, n);
    Boundary(chunks, Snap(data, k * |data| / n))
  }

  lemma CutIs(len: nat, k: nat, n: nat)
    requires 0 < n && k <= n
    ensures Cut(len, k, n) == k * len / n && k * len / n <= len
  {
  }

  /** The cut points: 0, the ends of the shares snapped forward to line boundaries, and the end of the buffer. */
  method CutPoints(data: bytes, n: nat) returns (bounds: seq<nat>)
    requires n > 0
    ensures |bounds| == n + 1 && bounds[0] == 0 && bounds[n] == |data| && Ascend(bounds, |data|)
    ensures forall k :: 0 < k < n ==> bounds[k] == Snap(data, Cut(|data|, k, n))
  {
    hide Cut;
    bounds := [0];
    for i := 1 to n
      invariant |bounds| == i && bounds[0] == 0 && Ascend(bounds, |data|)
      invariant forall k :: 0 < k < i ==> bounds[k] == Snap(data, Cut(|data|, k, n))
    {
      var raw := Cut(|data|, i, n);
      var end := WalkToNewline(data, raw);
      if i > 1 {
        CutsAscend(|data|, i, n);
        SnapMonotone(data, Cut(|data|, i - 1, n), raw);
      }
      assert Ascend(bounds + [end], |data|) by { AscendSnoc(bounds, end, |data|); }
      bounds := bounds + [end];
    }
    AscendSnoc(bounds, |data|, |data|);
    bounds := bounds + [|data|];
  }

  /** split_into_chunks: the pieces between the cut points, empty ones dropped. */
  method SplitIntoChunks(data: bytes, threads: nat) returns (chunks: seq<bytes>)
    ensures Tiles(data, chunks)
    ensures |chunks| <= if threads > 1 then threads else 1
    ensures forall k :: 0 < k < threads && data != [] ==> CutAt(data, k, threads, chunks)
  {
    hide Cut, Boundary, Tiles, Ascend;
    var n := if threads > 1 then threads else 1;
    if data == [] {
      assert Tiles([], []) by { EmptyTiles(); }
      return [];
    }
    var bounds := CutPoints(data, n);
    SnapsAreWhole(data, bounds, n);
    chunks := Pieces(data, bounds, n);
    forall k | 0 < k < threads ensures CutAt(data, k, threads, chunks) { CutIs(|data|, k, n); }
  }

  lemma EmptyTiles()
    ensures Tiles([], [])
  {
  }

  lemma SnapsAreWhole(data: bytes, bounds: seq<nat>, n: nat)
    requires n > 0 && |bounds| == n + 1 && forall k :: 0 < k < n ==> bounds[k] == Snap(data, Cut(|data|, k, n))
    ensures forall k :: 0 < k < n ==> bounds[k] <= |data| && (Whole(data[..bounds[k]]) || bounds[k] == |data|)
  {
    hide Cut, Snap;
    forall k | 0 < k < n
      ensures bounds[k] <= |data| && (Whole(data[..bounds[k]]) || bounds[k] == |data|)
    {
      var p := Snap(data, Cut(|data|, k, n));
      assert bounds[k] == p;
      if p != |data| { assert data[..p][p - 1] == data[p - 1]; }
    }
  }

  /** Some number of chunks in front take exactly p bytes. */
  predicate Boundary(chunks: seq<bytes>, p: nat) {
    exists j :: 0 <= j <= |chunks| && |Concat(chunks[..j])| == p
  }

  lemma BoundaryKept(chunks: seq<bytes>, last: bytes, p: nat)
    ensures Boundary(chunks, p) ==> Boundary(chunks + [last], p)
    ensures Boundary(chunks + [last], |Concat(chunks)| + |last|)
    ensures Boundary(chunks, |Concat(chunks)|)
  {
    var all := chunks + [last];
    if Boundary(chunks, p) {
      var j :| 0 <= j <= |chunks| && |Concat(chunks[..j])| == p;
      assert all[..j] == chunks[..j];
    }
    ConcatSnoc(chunks, last);
    assert all[..|all|] == all && chunks[..|chunks|] == chunks;
  }

  method Pieces(data: bytes, bounds: seq<nat>, n: nat) returns (chunks: seq<bytes>)
    requires data != [] && |bounds| == n + 1 && n > 0 && bounds[0] == 0 && bounds[n] == |data| && Ascend(bounds, |data|)
    requires forall k :: 0 < k < n ==> Whole(data[..bounds[k]]) || bounds[k] == |data|
    ensures Tiles(data, chunks) && |chunks| <= n
    ensures forall k :: 0 <= k <= n ==> Boundary(chunks, bounds[k])
  {
    hide Boundary;
    chunks := [];
    BoundaryKept([], [], 0);
    for i := 0 to n
      invariant |chunks| <= i && Concat(chunks) == data[..bounds[i]]
      invariant forall k :: 0 <= k <= i ==> Boundary(chunks, bounds[k])
      invariant forall k :: 0 <= k < |chunks| ==> chunks[k] != []
      invariant forall k :: 0 <= k < |chunks| ==> Whole(chunks[k]) || bounds[i] == |data|
      invariant forall k :: 0 <= k < |chunks| - 1 ==> Whole(chunks[k])
    {
      var chunk := data[bounds[i]..bounds[i + 1]];
      if chunk != [] {
        ConcatSnoc(chunks, chunk);
        forall k | 0 <= k <= i ensures Boundary(chunks + [chunk], bounds[k]) { BoundaryKept(chunks, chunk, bounds[k]); }
        BoundaryKept(chunks, chunk, 0);
        assert data[..bounds[i]] + chunk == data[..bounds[i + 1]];
        assert chunk[|chunk| - 1] == data[bounds[i + 1] - 1];
        chunks := chunks + [chunk];
      } else {
        assert bounds[i] == bounds[i + 1];
      }
    }
    assert data[..|data|] == data;
  }

  /** analyze_sequential: one aggregate updated line by line. */
  method AnalyzeSequential(parse: LineParser, data: bytes) returns (stats: Stats)
    ensures stats == Analyze(parse, data)
  {
    hide TakeAll;
    var acc := new Accumulator();
    acc.TakeLines(ParsedLines(parse, Lines(data)));
    stats := acc.State();
  }

  /** analyze_parallel: one thread per chunk, merged in spawn order. */
  method AnalyzeParallel(parse: LineParser, data: bytes, threads: nat) returns (stats: Stats)
    ensures stats == Analyze(parse, data)
  {
    var chunks := SplitIntoChunks(data, threads);
    ChunksMatchSequential(parse, data, chunks);
    hide Analyze, Tiles, Merge;
    stats := Default();
    for i := 0 to |chunks|
      invariant stats == AnalyzeChunks(parse, chunks[..i])
    {
      assert chunks[..i + 1][..i] == chunks[..i];
      var part := AnalyzeSequential(parse, chunks[i]);
      stats := Merge(stats, part);
    }
    assert chunks[..|chunks|] == chunks;
  }
}
