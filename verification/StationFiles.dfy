/** The row challenge from end to end: what the program answers for a file of well-formed rows. */
module StationFiles {
  import opened Bytes
  import opened Numerals
  import opened Splitting
  import opened Temperatures
  import opened Stations

  /** A name that fits a line, and a temperature of at most two digits before the point. */
  predicate Writable(row: Row) {
    59 !in row.name && 10 !in row.name && -999 <= row.temp <= 999
  }

  predicate AllWritable(rows: seq<Row>) {
    forall i :: 0 <= i < |rows| ==> Writable(rows[i])
  }

  function LineOf(row: Row): bytes
    requires Writable(row)
  {
    row.name + [59] + ShowTemp(row.temp)
  }

  function LinesOf(rows: seq<Row>): (lines: seq<bytes>)
    requires AllWritable(rows)
    ensures |lines| == |rows|
  {
    seq(|rows|, i requires 0 <= i < |rows| => LineOf(rows[i]))
  }

  // ---- one line ------------------------------------------------------------------------------

  lemma FirstSemicolon(name: bytes, rest: bytes)
    requires 59 !in name
    ensures SplitLine(name + [59] + rest) == Some((name, rest))
    decreases |name|
  {
    var line := name + [59] + rest;
    if name != [] {
      assert line[1..] == name[1..] + [59] + rest;
      FirstSemicolon(name[1..], rest);
      assert [name[0]] + name[1..] == name;
    } else {
      assert line[1..] == rest;
    }
  }

  lemma RenderedHasNoNewline(negative: bool, tens: nat, units: nat)
    requires units < 10
    ensures 10 !in Rendered(negative, tens, units)
  {
    var d := Digits(tens);
    assert forall i :: 0 <= i < |d| ==> IsDigit(d[i]);
    hide Digits;
  }

  lemma ParsedLine(row: Row)
    requires Writable(row)
    ensures ParseRow(LineOf(row)) == Some(row) && 10 !in LineOf(row)
  {
    FirstSemicolon(row.name, ShowTemp(row.temp));
    TempRoundTrip(row.temp);
    var m: nat := if row.temp < 0 then -row.temp else row.temp;
    RenderedHasNoNewline(row.temp < 0, m / 10, m % 10);
    assert ShowTemp(row.temp) == Rendered(row.temp < 0, m / 10, m % 10);
    hide ShowTemp, Rendered, ParseTemp, SplitLine, WellFormedTemp;
  }

  lemma {:induction false} ParsedLines(rows: seq<Row>)
    requires AllWritable(rows)
    ensures ParseRows(LinesOf(rows)) == Some(rows)
    ensures forall i :: 0 <= i < |rows| ==> 10 !in LinesOf(rows)[i]
  {
    if rows != [] {
      ParsedLine(rows[0]);
      ParsedLines(rows[1..]);
      hide ParseRow, LineOf, Writable;
      assert LinesOf(rows)[1..] == LinesOf(rows[1..]);
      assert rows == [rows[0]] + rows[1..];
      assert forall i :: 0 < i < |rows| ==> LinesOf(rows)[i] == LinesOf(rows[1..])[i - 1];
    }
  }

  // ---- the whole file --------------------------------------------------------------------------

  /** The rows of a file are grouped by name; a last line without its newline is left out. */
  lemma FileIsGrouped(rows: seq<Row>, unfinished: bytes)
    requires AllWritable(rows) && 10 !in unfinished
    ensures Result(Joined(LinesOf(rows)) + unfinished) == Some(GroupBy(rows))
  {
    ParsedLines(rows);
    hide ParseRows, LinesOf, GroupBy, AllWritable;
    LinesOfJoined(LinesOf(rows), unfinished);
  }

  /** The positions of a station's rows. */
  function At(rows: seq<Row>, name: bytes): set<nat> {
    set i: nat | i < |rows| && rows[i].name == name
  }

  lemma TempsSnoc(front: seq<Row>, last: Row, name: bytes)
    ensures TempsOf(front + [last], name) == if last.name == name then TempsOf(front, name) + [last.temp] else TempsOf(front, name)
  {
    TempsOfConcat(front, [last], name);
    assert [last][1..] == [];
    assert TempsOf([last], name) == (if last.name == name then [last.temp] else []) + [];
    if last.name != name { assert TempsOf(front, name) + [] == TempsOf(front, name); }
  }

  lemma AtSnoc(front: seq<Row>, last: Row, name: bytes)
    ensures |At(front + [last], name)| == |At(front, name)| + if last.name == name then 1 else 0
  {
    var rows := front + [last];
    assert forall i: nat :: i < |front| ==> rows[i] == front[i];
    assert At(rows, name) == if last.name == name then At(front, name) + {|front|} else At(front, name);
  }

  /** Some row of the station has this temperature. */
  predicate Measured(rows: seq<Row>, name: bytes, t: i32) {
    exists i :: 0 <= i < |rows| && rows[i] == Row(name, t)
  }

  lemma MeasuredSnoc(front: seq<Row>, last: Row, name: bytes, t: i32)
    ensures Measured(front + [last], name, t) <==> Measured(front, name, t) || last == Row(name, t)
  {
    var rows := front + [last];
    if i :| 0 <= i < |front| && front[i] == Row(name, t) { assert rows[i] == Row(name, t); }
    if last == Row(name, t) { assert rows[|front|] == Row(name, t); }
  }

  lemma {:induction false} TempsAt(rows: seq<Row>, name: bytes)
    ensures |TempsOf(rows, name)| == |At(rows, name)|
    ensures forall t :: t in TempsOf(rows, name) <==> Measured(rows, name, t)
    decreases |rows|
  {
    if rows == [] {
      assert At(rows, name) == {};
    } else {
      hide TempsOf, At, Measured;
      var front, last := rows[..|rows| - 1], rows[|rows| - 1];
      assert rows == front + [last];
      TempsAt(front, name);
      TempsSnoc(front, last, name);
      AtSnoc(front, last, name);
      forall t
        ensures t in TempsOf(rows, name) <==> Measured(rows, name, t)
      {
        MeasuredSnoc(front, last, name, t);
      }
    }
  }

  /** A station is in the answer when it has a row; its count is their number, and its extremes are the extremes of its rows. */
  lemma StationNumbers(rows: seq<Row>, name: bytes)
    ensures name in GroupBy(rows) <==> exists i :: 0 <= i < |rows| && rows[i].name == name
    ensures name in GroupBy(rows) ==>
      var s := GroupBy(rows)[name];
      && s.count == |At(rows, name)|
      && (forall i :: 0 <= i < |rows| && rows[i].name == name ==> s.min <= rows[i].temp <= s.max)
      && Measured(rows, name, s.min) && Measured(rows, name, s.max)
  {
    TempsAt(rows, name);
    SummarizeDescribes(TempsOf(rows, name));
    hide TempsOf, Summarize;
    if name in GroupBy(rows) {
      var i :| 0 <= i < |rows| && rows[i].name == name;
      assert Measured(rows, name, rows[i].temp);
      forall j | 0 <= j < |rows| && rows[j].name == name
        ensures rows[j].temp in TempsOf(rows, name)
      {
        assert Measured(rows, name, rows[j].temp);
      }
    }
  }

  /** One more row adds its temperature to the sum of its station and to no other. */
  lemma OneMoreRow(rows: seq<Row>, row: Row, name: bytes)
    ensures var s, t := Entry(GroupBy(rows), name), Entry(GroupBy(rows + [row]), name);
      if name == row.name then t.sum == s.sum + row.temp && t.count == s.count + 1 else t == s
    ensures Entry(GroupBy([]), name).sum == 0
  {
    GroupBySnoc(rows, row);
    hide GroupBy;
    assert GroupBy([]) == map[] by { EmptyResult(); }
  }
}
