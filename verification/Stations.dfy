/**
 The row challenge: per-station aggregates (08-performance/src/aggregate.rs), the newline-aligned
 splitter (io.rs) and the sequential and parallel drivers (runner.rs).
 */
module Stations {
  import opened Bytes
  import opened Numerals
  import opened Splitting
  import opened Temperatures

  const I32_MIN: int := -0x8000_0000
  const I32_MAX: int := 0x7FFF_FFFF

  type i32 = x: int | I32_MIN <= x <= I32_MAX

  datatype Row = Row(name: bytes, temp: i32)

  datatype Stats = Stats(min: i32, max: i32, sum: int, count: nat)

  type Table = map<bytes, Stats>

  function Least(a: i32, b: i32): i32 { if a <= b then a else b }
  function Greatest(a: i32, b: i32): i32 { if a >= b then a else b }

  function Default(): Stats {
    Stats(I32_MAX, I32_MIN, 0, 0)
  }

  function Record(s: Stats, temp: i32): Stats {
    Stats(Least(s.min, temp), Greatest(s.max, temp), s.sum + temp, s.count + 1)
  }

  function Merge(a: Stats, b: Stats): Stats {
    Stats(Least(a.min, b.min), Greatest(a.max, b.max), a.sum + b.sum, a.count + b.count)
  }

  // ---- what one station's aggregate says about its temperatures ------------------------------

  function Summarize(temps: seq<i32>): Stats {
    if temps == [] then Default() else Record(Summarize(temps[..|temps| - 1]), temps[|temps| - 1])
  }

  function Sum(temps: seq<i32>): int {
    if temps == [] then 0 else temps[0] + Sum(temps[1..])
  }

  lemma {:induction false} SumSnoc(temps: seq<i32>, t: i32)
    ensures Sum(temps + [t]) == Sum(temps) + t
  {
    if temps == [] {
      assert [t][1..] == [];
    } else {
      assert (temps + [t])[1..] == temps[1..] + [t];
      SumSnoc(temps[1..], t);
    }
  }

  /** count and sum are exact, min and max are attained and bound every temperature. */
  ghost predicate Describes(s: Stats, temps: seq<i32>) {
    && s.count == |temps|
    && s.sum == Sum(temps)
    && (temps != [] ==> s.min in temps && s.max in temps)
    && (temps == [] ==> s.min == I32_MAX && s.max == I32_MIN)
    && forall t :: t in temps ==> s.min <= t <= s.max
  }

  lemma {:induction false} SummarizeDescribes(temps: seq<i32>)
    ensures Describes(Summarize(temps), temps)
  {
    if temps != [] {
      var front, last := temps[..|temps| - 1], temps[|temps| - 1];
      SummarizeDescribes(front);
      SumSnoc(front, last);
      assert temps == front + [last];
      assert forall t :: t in temps <==> t in front || t == last;
    }
  }

  lemma OneMore(x: int, n: nat)
    ensures x * (n + 1) == x + x * n
  {
  }

  /** min * count <= sum <= max * count. */
  lemma {:induction false} SumBetween(temps: seq<i32>, low: int, high: int)
    requires forall t :: t in temps ==> low <= t <= high
    ensures low * |temps| <= Sum(temps) <= high * |temps|
  {
    if temps != [] {
      assert temps[0] in temps && forall t :: t in temps[1..] ==> t in temps;
      SumBetween(temps[1..], low, high);
      OneMore(low, |temps[1..]|);
      OneMore(high, |temps[1..]|);
    }
  }

  lemma MeanIsBetweenMinAndMax(temps: seq<i32>)
    ensures var s := Summarize(temps); s.min * s.count <= s.sum <= s.max * s.count
  {
    SummarizeDescribes(temps);
    var s := Summarize(temps);
    SumBetween(temps, s.min, s.max);
  }

  lemma MergeRecord(a: Stats, b: Stats, t: i32)
    ensures Merge(a, Record(b, t)) == Record(Merge(a, b), t)
    ensures Merge(a, Default()) == a
  {
  }

  lemma {:induction false} SummarizeConcat(a: seq<i32>, b: seq<i32>)
    ensures Summarize(a + b) == Merge(Summarize(a), Summarize(b))
    decreases |b|
  {
    hide Merge, Record;
    if b == [] {
      assert a + b == a;
      MergeRecord(Summarize(a), Default(), 0);
    } else {
      var front, last := b[..|b| - 1], b[|b| - 1];
      var all := a + b;
      assert all[..|all| - 1] == a + front && all[|all| - 1] == last;
      SummarizeConcat(a, front);
      MergeRecord(Summarize(a), Summarize(front), last);
    }
  }

  // ---- group-by ------------------------------------------------------------------------------

  function Named(rows: seq<Row>): (names: set<bytes>)
    ensures forall name :: name in names <==> exists i :: 0 <= i < |rows| && rows[i].name == name
  {
    set i | 0 <= i < |rows| :: rows[i].name
  }

  /** The temperatures of one station, in row order. */
  function TempsOf(rows: seq<Row>, name: bytes): seq<i32> {
    if rows == [] then []
    else (if rows[0].name == name then [rows[0].temp] else []) + TempsOf(rows[1..], name)
  }

  /** The exact group-by: one aggregate for every station that occurs. */
  function GroupBy(rows: seq<Row>): Table {
    map name | name in Named(rows) :: Summarize(TempsOf(rows, name))
  }

  /** entry(name).or_default() */
  function Entry(m: Table, name: bytes): Stats {
    if name in m then m[name] else Default()
  }

  lemma {:induction false} TempsOfConcat(a: seq<Row>, b: seq<Row>, name: bytes)
    ensures TempsOf(a + b, name) == TempsOf(a, name) + TempsOf(b, name)
    decreases |a|
  {
    if a == [] {
      assert a + b == b;
    } else {
      var head := if a[0].name == name then [a[0].temp] else [];
      assert (a + b)[1..] == a[1..] + b && (a + b)[0] == a[0];
      TempsOfConcat(a[1..], b, name);
      assert head + (TempsOf(a[1..], name) + TempsOf(b, name)) == head + TempsOf(a[1..], name) + TempsOf(b, name);
    }
  }

  lemma {:induction false} TempsOfStranger(rows: seq<Row>, name: bytes)
    requires name !in Named(rows)
    ensures TempsOf(rows, name) == []
  {
    if rows != [] {
      assert rows[0].name in Named(rows);
      assert forall i :: 0 <= i < |rows[1..]| ==> rows[1..][i].name == rows[i + 1].name;
      TempsOfStranger(rows[1..], name);
    }
  }

  lemma EntryIsSummary(rows: seq<Row>, name: bytes)
    ensures Entry(GroupBy(rows), name) == Summarize(TempsOf(rows, name))
  {
    if name !in Named(rows) { TempsOfStranger(rows, name); }
  }

  /** Merging two tables, key by key. */
  function MergeTables(a: Table, b: Table): Table {
    map name | name in a.Keys + b.Keys :: Merge(Entry(a, name), Entry(b, name))
  }

  lemma NamedConcat(a: seq<Row>, b: seq<Row>)
    ensures Named(a + b) == Named(a) + Named(b)
  {
    var all := a + b;
    forall name | name in Named(a) + Named(b) ensures name in Named(all) {
      if name in Named(a) {
        var i :| 0 <= i < |a| && a[i].name == name;
        assert all[i].name == name;
      } else {
        var i :| 0 <= i < |b| && b[i].name == name;
        assert all[|a| + i].name == name;
      }
    }
    forall name | name in Named(all) ensures name in Named(a) + Named(b) {
      var i :| 0 <= i < |all| && all[i].name == name;
      if i >= |a| { assert b[i - |a|].name == name; } else { assert a[i].name == name; }
    }
  }

  lemma SummaryConcat(a: seq<Row>, b: seq<Row>, name: bytes)
    ensures Summarize(TempsOf(a + b, name)) == Merge(Entry(GroupBy(a), name), Entry(GroupBy(b), name))
  {
    hide Summarize, Merge, Entry, GroupBy;
    TempsOfConcat(a, b, name);
    SummarizeConcat(TempsOf(a, name), TempsOf(b, name));
    EntryIsSummary(a, name);
    EntryIsSummary(b, name);
  }

  /** Grouping two row lists apart and merging the tables is grouping them together. */
  lemma GroupByConcat(a: seq<Row>, b: seq<Row>)
    ensures GroupBy(a + b) == MergeTables(GroupBy(a), GroupBy(b))
  {
    hide Summarize, TempsOf, Merge, Entry;
    NamedConcat(a, b);
    forall name | name in Named(a + b)
      ensures GroupBy(a + b)[name] == MergeTables(GroupBy(a), GroupBy(b))[name]
    {
      SummaryConcat(a, b, name);
    }
  }

  lemma SummarySnoc(rows: seq<Row>, row: Row, name: bytes)
    ensures Summarize(TempsOf(rows + [row], name))
         == if name == row.name then Record(Entry(GroupBy(rows), name), row.temp) else Entry(GroupBy(rows), name)
  {
    hide Record, Entry, GroupBy;
    TempsOfConcat(rows, [row], name);
    EntryIsSummary(rows, name);
    var temps := TempsOf(rows, name);
    assert [row][1..] == [];
    if name == row.name {
      assert TempsOf([row], name) == [row.temp];
      assert (temps + [row.temp])[..|temps|] == temps;
    } else {
      assert TempsOf([row], name) == [];
      assert temps + [] == temps;
    }
  }

  /** One more row changes one entry. */
  lemma GroupBySnoc(rows: seq<Row>, row: Row)
    ensures GroupBy(rows + [row]) == GroupBy(rows)[row.name := Record(Entry(GroupBy(rows), row.name), row.temp)]
  {
    hide Summarize, Record, TempsOf;
    NamedConcat(rows, [row]);
    assert Named([row]) == {row.name} by { assert [row][0].name == row.name; }
    forall name | name in Named(rows + [row])
      ensures Summarize(TempsOf(rows + [row], name))
           == if name == row.name then Record(Entry(GroupBy(rows), name), row.temp) else GroupBy(rows)[name]
    {
      SummarySnoc(rows, row, name);
    }
  }

  // ---- from bytes to rows --------------------------------------------------------------------

  /** split_line and parse_temp on one line. None is a panic. */
  function ParseRow(line: bytes): Option<Row> {
    match SplitLine(line)
    case None => None
    case Some(p) =>
      match ParseTemp(p.1)
      case None => None
      case Some(t) => Some(Row(p.0, t))
  }

  function ParseRows(lines: seq<bytes>): (r: Option<seq<Row>>) {
    if lines == [] then Some([])
    else Prepend(ParseRow(lines[0]), ParseRows(lines[1..]))
  }

  function Prepend(row: Option<Row>, rows: Option<seq<Row>>): Option<seq<Row>> {
    if row.None? || rows.None? then None else Some([row.value] + rows.value)
  }

  function Append(a: Option<seq<Row>>, b: Option<seq<Row>>): Option<seq<Row>> {
    if a.None? || b.None? then None else Some(a.value + b.value)
  }

  /** One bad line anywhere is a panic; otherwise there is one row per line. */
  lemma {:induction false} ParseRowsPanics(lines: seq<bytes>)
    ensures ParseRows(lines).None? <==> exists i :: 0 <= i < |lines| && ParseRow(lines[i]).None?
    ensures ParseRows(lines).Some? ==> |ParseRows(lines).value| == |lines|
  {
    hide ParseRow;
    if lines != [] {
      ParseRowsPanics(lines[1..]);
      assert forall i :: 0 <= i < |lines[1..]| ==> lines[1..][i] == lines[i + 1];
      if ParseRows(lines[1..]).None? {
        var i :| 0 <= i < |lines[1..]| && ParseRow(lines[1..][i]).None?;
        assert ParseRow(lines[i + 1]).None?;
      }
    }
  }

  lemma AppendPrepend(row: Option<Row>, a: Option<seq<Row>>, b: Option<seq<Row>>)
    ensures Prepend(row, Append(a, b)) == Append(Prepend(row, a), b)
  {
    if row.Some? && a.Some? && b.Some? {
      assert [row.value] + (a.value + b.value) == [row.value] + a.value + b.value;
    }
  }

  lemma {:induction false} ParseRowsConcat(a: seq<bytes>, b: seq<bytes>)
    ensures ParseRows(a + b) == Append(ParseRows(a), ParseRows(b))
    decreases |a|
  {
    hide ParseRow, Prepend;
    if a == [] {
      assert a + b == b;
      if ParseRows(b).Some? { assert [] + ParseRows(b).value == ParseRows(b).value; }
    } else {
      hide Append;
      assert (a + b)[1..] == a[1..] + b && (a + b)[0] == a[0];
      ParseRowsConcat(a[1..], b);
      AppendPrepend(ParseRow(a[0]), ParseRows(a[1..]), ParseRows(b));
    }
  }

  /** The group-by of every newline-ended line; None when some line makes the program panic. */
  function Result(data: bytes): Option<Table> {
    match ParseRows(Terminated(data))
    case None => None
    case Some(rows) => Some(GroupBy(rows))
  }

  function Combine(a: Option<Table>, b: Option<Table>): Option<Table> {
    if a.None? || b.None? then None else Some(MergeTables(a.value, b.value))
  }

  lemma ResultConcat(a: bytes, b: bytes)
    requires Whole(a)
    ensures Result(a + b) == Combine(Result(a), Result(b))
  {
    hide MergeTables, GroupBy, ParseRows;
    TerminatedConcat(a, b);
    ParseRowsConcat(Terminated(a), Terminated(b));
    var ra, rb := ParseRows(Terminated(a)), ParseRows(Terminated(b));
    if ra.Some? && rb.Some? { GroupByConcat(ra.value, rb.value); }
  }

  // ---- the code ------------------------------------------------------------------------------

  /** The next line boundary seen from inside the buffer. */
  lemma {:induction false} NextNewlineShift(b: bytes, start: nat, i: nat)
    requires start + i <= |b|
    ensures NextNewline(b, start + i)
         == (match NextNewline(b[start..], i) case None => None case Some(j) => Some(start + j))
    decreases |b| - i
  {
    if start + i < |b| && b[start + i] != NEWLINE { NextNewlineShift(b, start, i + 1); }
  }

  lemma SliceTail(data: bytes, start: nat, i: nat)
    requires start + i < |data|
    ensures data[start..][..i] == data[start..start + i] && data[start..][i + 1..] == data[start + i + 1..]
  {
  }

  lemma LastLine(data: bytes, start: nat)
    requires start <= |data| && NextNewline(data, start).None?
    ensures Terminated(data[start..]) == []
  {
    hide NextNewline;
    NextNewlineShift(data, start, 0);
    UnfoldLines(data[start..]);
  }

  lemma NextLine(data: bytes, start: nat, nl: nat)
    requires start <= |data| && NextNewline(data, start) == Some(nl)
    ensures start <= nl < |data| && Terminated(data[start..]) == [data[start..nl]] + Terminated(data[nl + 1..])
  {
    hide Terminated, Rest, NextNewline;
    NextNewlineShift(data, start, 0);
    var rest, i := data[start..], nl - start;
    UnfoldLines(rest);
    SliceTail(data, start, i);
    assert start + i + 1 == nl + 1;
  }

  lemma ParseRowsSnoc(done: seq<bytes>, line: bytes)
    requires ParseRows(done).Some?
    ensures ParseRows(done + [line])
         == (match ParseRow(line) case None => None case Some(row) => Some(ParseRows(done).value + [row]))
  {
    ParseRowsConcat(done, [line]);
    assert [line][1..] == [] && ParseRows([]) == Some([]);
    assert ParseRows([line]) == Prepend(ParseRow(line), Some([]));
    if ParseRow(line).Some? { assert [ParseRow(line).value] + [] == [ParseRow(line).value]; }
  }

  /** aggregate: one pass over the newlines, one map update per line. None is a panic. */
  method Aggregate(data: bytes) returns (result: Option<Table>)
    ensures result == Result(data)
  {
    hide NextNewline, Terminated, ParseRows, GroupBy, ParseRow;
    var table: Table := map[];
    var start := 0;
    ghost var done: seq<bytes> := [];
    ghost var rows: seq<Row> := [];
    assert ParseRows([]) == Some([]) && GroupBy([]) == map[] by { EmptyResult(); }
    assert data[0..] == data;
    var next := NextNewline(data, 0);
    while next.Some?
      invariant start <= |data| && next == NextNewline(data, start)
      invariant Terminated(data) == done + Terminated(data[start..])
      invariant ParseRows(done) == Some(rows) && table == GroupBy(rows)
      decreases |data| - start
    {
      NextLine(data, start, next.value);
      var line := data[start..next.value];
      ghost var rest := Terminated(data[next.value + 1..]);
      start := next.value + 1;
      var row := ParseRow(line);
      ParseRowsSnoc(done, line);
      assert done + ([line] + rest) == (done + [line]) + rest;
      done := done + [line];
      if row.None? {
        ParseRowsConcat(done, rest);
        return None;
      }
      GroupBySnoc(rows, row.value);
      rows := rows + [row.value];
      table := table[row.value.name := Record(Entry(table, row.value.name), row.value.temp)];
      next := NextNewline(data, start);
    }
    LastLine(data, start);
    assert Terminated(data) == done;
    return Some(table);
  }

  lemma EmptyResult()
    ensures ParseRows([]) == Some([]) && GroupBy([]) == map[]
  {
  }

  /** Extending a tiled prefix by the piece up to the next cut. */
  lemma NextPiece(data: bytes, chunks: seq<bytes>, start: nat, end: nat)
    requires start < end <= |data| && Concat(chunks) == data[..start]
    ensures Concat(chunks + [data[start..end]]) == data[..end]
    ensures data[start..end] != [] && (data[end - 1] == NEWLINE ==> Whole(data[start..end]))
  {
    var chunk := data[start..end];
    ConcatSnoc(chunks, chunk);
    assert data[..start] + chunk == data[..end];
    assert chunk[|chunk| - 1] == data[end - 1];
  }

  /** The piece goes on past its share to the next newline and no further. */
  predicate Shortest(chunk: bytes, share: nat) {
    forall i :: share <= i < |chunk| - 1 ==> chunk[i] != 10
  }

  /** split_chunks: pieces of about len / n bytes, each cut walked forward past the next newline. */
  method SplitChunks(data: bytes, n: nat) returns (chunks: seq<bytes>)
    requires data == [] || n > 0
    ensures Tiles(data, chunks) && |chunks| <= n
    ensures forall i :: 0 <= i < |chunks| - 1 ==> |chunks[i]| > |data| / n && Shortest(chunks[i], |data| / n)
    ensures data != [] && |chunks| < n ==> chunks != [] && Shortest(chunks[|chunks| - 1], |data| / n)
  {
    hide Concat, Snap;
    chunks := [];
    assert Concat([]) == [] by { EmptyConcat(); }
    if data == [] { return; }
    var approx: nat := |data| / n;
    var start := 0;
    for k := 0 to n - 1
      invariant start < |data| && |chunks| == k && Concat(chunks) == data[..start]
      invariant forall i :: 0 <= i < |chunks| ==> chunks[i] != [] && Whole(chunks[i])
      invariant forall i :: 0 <= i < |chunks| ==> |chunks[i]| > approx && Shortest(chunks[i], approx)
    {
      var from := if start + approx <= |data| then start + approx else |data|;
      var end := WalkToNewline(data, from);
      NextPiece(data, chunks, start, end);
      assert Shortest(data[start..end], approx);
      chunks := chunks + [data[start..end]];
      start := end;
      if start >= |data| {
        assert forall i :: 0 <= i < |chunks| - 1 ==> |chunks[i]| > approx;
        assert data[..start] == data;
        return;
      }
    }
    NextPiece(data, chunks, start, |data|);
    assert data[..|data|] == data && data[start..] == data[start..|data|];
    chunks := chunks + [data[start..]];
  }

  lemma EmptyConcat()
    ensures Concat([]) == []
  {
  }

  /** The merge loop half-way: the entries in todo are still to come. */
  ghost predicate Merging(global: Table, partial: Table, todo: set<bytes>, merged: Table) {
    && todo <= partial.Keys
    && merged.Keys == global.Keys + (partial.Keys - todo)
    && forall name :: name in merged ==>
         merged[name] == if name in partial && name !in todo then Merge(Entry(global, name), partial[name]) else Entry(global, name)
  }

  lemma MergingStarts(global: Table, partial: Table)
    ensures Merging(global, partial, partial.Keys, global)
  {
    hide Merge;
  }

  lemma MergingStep(global: Table, partial: Table, todo: set<bytes>, merged: Table, name: bytes)
    requires Merging(global, partial, todo, merged) && name in todo
    ensures name in partial
    ensures Merging(global, partial, todo - {name}, merged[name := Merge(Entry(merged, name), partial[name])])
  {
    hide Merge;
    assert Entry(merged, name) == Entry(global, name);
  }

  lemma MergingDone(global: Table, partial: Table, merged: Table)
    requires Merging(global, partial, {}, merged)
    ensures merged == MergeTables(global, partial)
  {
    assert forall name :: name in global && name !in partial ==> Merge(Entry(global, name), Entry(partial, name)) == global[name];
  }

  /** The inner merge loop, over the entries of a hash map in any order. */
  method MergeInto(global: Table, partial: Table) returns (merged: Table)
    ensures merged == MergeTables(global, partial)
  {
    hide Merge, MergeTables, Merging, Entry;
    merged := global;
    var todo := partial.Keys;
    MergingStarts(global, partial);
    while todo != {}
      invariant Merging(global, partial, todo, merged)
      decreases |todo|
    {
      var name :| name in todo;
      MergingStep(global, partial, todo, merged, name);
      merged := merged[name := Merge(Entry(merged, name), partial[name])];
      todo := todo - {name};
    }
    MergingDone(global, partial, merged);
  }

  /** The tables of the chunks, merged in order. */
  function MergeChunks(chunks: seq<bytes>): Option<Table> {
    if chunks == [] then Some(map[])
    else Combine(MergeChunks(chunks[..|chunks| - 1]), Result(chunks[|chunks| - 1]))
  }

  /** Any newline-aligned tiling gives the table of the whole buffer, or panics exactly when it would. */
  lemma {:induction false} ChunksMatchWhole(data: bytes, chunks: seq<bytes>)
    requires Tiles(data, chunks)
    ensures MergeChunks(chunks) == Result(data)
    decreases |chunks|
  {
    hide Combine, Tiles, Concat;
    if chunks == [] {
      NoTiles(data);
      EmptyResult();
    } else {
      hide Result;
      var front, last := chunks[..|chunks| - 1], chunks[|chunks| - 1];
      TilesFront(data, chunks);
      ChunksMatchWhole(Concat(front), front);
      ResultConcat(Concat(front), last);
    }
  }

  method RunSequential(data: bytes) returns (result: Option<Table>)
    ensures result == Result(data)
  {
    result := Aggregate(data);
  }

  /** run_parallel: every chunk aggregated apart (None if its thread panicked), then one merge loop. */
  method RunParallel(data: bytes, threads: nat) returns (result: Option<Table>)
    ensures result == Result(data)
  {
    if threads <= 1 {
      result := RunSequential(data);
      return;
    }
    hide Result, Tiles, MergeTables;
    var chunks := SplitChunks(data, threads);
    ChunksMatchWhole(data, chunks);
    var partials := AggregateAll(chunks);
    result := MergeAll(chunks, partials);
  }

  /** One scoped thread per chunk, joined in order. */
  method AggregateAll(chunks: seq<bytes>) returns (partials: seq<Option<Table>>)
    ensures |partials| == |chunks|
    ensures forall k :: 0 <= k < |chunks| ==> partials[k] == Result(chunks[k])
  {
    hide Result;
    partials := [];
    for i := 0 to |chunks|
      invariant |partials| == i
      invariant forall k :: 0 <= k < i ==> partials[k] == Result(chunks[k])
    {
      var partial := Aggregate(chunks[i]);
      partials := partials + [partial];
    }
  }

  method MergeAll(ghost chunks: seq<bytes>, partials: seq<Option<Table>>) returns (result: Option<Table>)
    requires |partials| == |chunks|
    requires forall k :: 0 <= k < |chunks| ==> partials[k] == Result(chunks[k])
    ensures result == MergeChunks(chunks)
  {
    hide Result, MergeTables;
    var global: Table := map[];
    for i := 0 to |partials|
      invariant MergeChunks(chunks[..i]) == Some(global)
    {
      assert chunks[..i + 1][..i] == chunks[..i];
      if partials[i].None? {
        PanicSpreads(chunks, i);
        return None;
      }
      global := MergeInto(global, partials[i].value);
    }
    assert chunks[..|chunks|] == chunks;
    return Some(global);
  }

  lemma {:induction false} PanicSpreads(chunks: seq<bytes>, i: nat)
    requires i < |chunks| && Result(chunks[i]).None?
    ensures MergeChunks(chunks).None?
    decreases |chunks|
  {
    hide Result;
    if i < |chunks| - 1 { PanicSpreads(chunks[..|chunks| - 1], i); }
  }

  // ---- no overflow ---------------------------------------------------------------------------

  /** Every row takes at least five bytes: ';', a three-byte temperature and the newline. */
  lemma {:induction false} RowsAreLong(data: bytes)
    requires ParseRows(Terminated(data)).Some?
    ensures 5 * |Terminated(data)| <= |data|
    decreases |data|
  {
    hide ParseTemp;
    match NextNewline(data, 0)
    case None =>
    case Some(i) =>
      assert Terminated(data)[0] == data[..i] && Terminated(data)[1..] == Terminated(data[i + 1..]);
      assert ParseRow(data[..i]).Some?;
      LongLine(data[..i]);
      RowsAreLong(data[i + 1..]);
  }

  lemma LongLine(line: bytes)
    requires ParseRow(line).Some?
    ensures |line| >= 4
  {
  }

  lemma {:induction false} TempsOfFew(rows: seq<Row>, name: bytes)
    ensures |TempsOf(rows, name)| <= |rows|
  {
    if rows != [] { TempsOfFew(rows[1..], name); }
  }

  /** The sum of a station stays within bound per row. */
  lemma StationSum(data: bytes, name: bytes, bound: int)
    requires Result(data).Some? && name in Result(data).value
    requires bound == 28305 || (bound == 999 && WellFormedLines(Terminated(data)))
    ensures var s := Result(data).value[name];
      s.count <= |Terminated(data)| && -bound * s.count <= s.sum <= bound * s.count
  {
    var lines := Terminated(data);
    ParsedTempsBounded(lines, name, bound);
    ParseRowsPanics(lines);
    var rows := ParseRows(lines).value;
    hide Terminated, ParseRows;
    TempsOfFew(rows, name);
    SummarizeDescribes(TempsOf(rows, name));
    SumBetween(TempsOf(rows, name), -bound, bound);
  }

  lemma SumFits(len: nat, lines: nat, count: nat, sum: int)
    requires 5 * lines <= len <= 0x4_0000_0000_0000 && count <= lines
    requires -28305 * count <= sum <= 28305 * count
    ensures I64_MIN <= sum <= I64_MAX
  {
  }

  /** In a buffer of at most 2^50 bytes no station's i64 sum can leave its range, whatever its lines hold. */
  lemma SumsFitI64(data: bytes, name: bytes)
    requires |data| <= 0x4_0000_0000_0000
    requires Result(data).Some? && name in Result(data).value
    ensures I64_MIN <= Result(data).value[name].sum <= I64_MAX
  {
    var s := Result(data).value[name];
    RowsAreLong(data);
    StationSum(data, name, 28305);
    SumFits(|data|, |Terminated(data)|, s.count, s.sum);
  }

  /** Well-formed lines keep |sum| within 999 per row. */
  lemma WellFormedSums(data: bytes, name: bytes)
    requires Result(data).Some? && name in Result(data).value
    requires WellFormedLines(Terminated(data))
    ensures var s := Result(data).value[name]; -999 * s.count <= s.sum <= 999 * s.count
  {
    StationSum(data, name, 999);
  }

  predicate WellFormedLines(lines: seq<bytes>) {
    forall line :: line in lines ==> WellFormedLine(line)
  }

  predicate WellFormedLine(line: bytes) {
    SplitLine(line).Some? && WellFormedTemp(SplitLine(line).value.1)
  }

  lemma {:induction false} ParsedTempsBounded(lines: seq<bytes>, name: bytes, bound: int)
    requires ParseRows(lines).Some?
    requires bound == 28305 || (bound == 999 && WellFormedLines(lines))
    ensures forall t :: t in TempsOf(ParseRows(lines).value, name) ==> -bound <= t <= bound
    decreases |lines|
  {
    if lines != [] {
      assert lines[0] in lines && forall line :: line in lines[1..] ==> line in lines;
      if bound == 999 { ParseTempIsDecimal(SplitLine(lines[0]).value.1); }
      ParsedTempsBounded(lines[1..], name, bound);
      assert ParseRows(lines).value[1..] == ParseRows(lines[1..]).value;
    }
  }

  /** Well-formed lines never panic. */
  lemma WellFormedNeverPanics(data: bytes)
    requires WellFormedLines(Terminated(data))
    ensures Result(data).Some?
  {
    var lines := Terminated(data);
    ParseRowsPanics(lines);
    forall i | 0 <= i < |lines| ensures ParseRow(lines[i]).Some? {
      assert lines[i] in lines;
      ParseTempIsDecimal(SplitLine(lines[i]).value.1);
    }
  }
}
