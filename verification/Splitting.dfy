/** Cutting a buffer on newlines: what the two parallel splitters have in common. */
module Splitting {
  import opened Bytes

  const NEWLINE: byte := 10

  /** The buffer stops on a line boundary. */
  predicate Whole(b: bytes) {
    b == [] || b[|b| - 1] == NEWLINE
  }

  lemma {:induction false} ConcatWhole(chunks: seq<bytes>)
    requires forall i :: 0 <= i < |chunks| ==> Whole(chunks[i])
    ensures Whole(Concat(chunks))
  {
    if chunks != [] { ConcatWhole(chunks[1..]); }
  }

  /** The chunks are the buffer, in order, none empty, and only the last may end inside a line. */
  predicate Tiles(data: bytes, chunks: seq<bytes>) {
    && Concat(chunks) == data
    && (forall i :: 0 <= i < |chunks| ==> chunks[i] != [])
    && (forall i :: 0 <= i < |chunks| - 1 ==> Whole(chunks[i]))
  }

  /** All but the last chunk tile a buffer that ends on a line boundary; the last one follows it. */
  lemma TilesFront(data: bytes, chunks: seq<bytes>)
    requires Tiles(data, chunks) && chunks != []
    ensures var front := chunks[..|chunks| - 1];
      && Tiles(Concat(front), front) && Whole(Concat(front))
      && data == Concat(front) + chunks[|chunks| - 1]
  {
    var front, last := chunks[..|chunks| - 1], chunks[|chunks| - 1];
    assert chunks == front + [last];
    ConcatSnoc(front, last);
    ConcatWhole(front);
  }

  lemma NoTiles(data: bytes)
    ensures Tiles(data, []) ==> data == []
  {
  }

  /** The first position at or after `from` that is just past a newline, or the end of the buffer. */
  function Snap(data: bytes, from: nat): (end: nat)
    requires from <= |data|
    ensures from <= end <= |data|
    ensures end == |data| || (end > from && data[end - 1] == NEWLINE)
    ensures forall i :: from <= i < end - 1 ==> data[i] != 10
    decreases |data| - from
  {
    if from == |data| then from
    else if data[from] == NEWLINE then from + 1
    else Snap(data, from + 1)
  }

  lemma {:induction false} SnapMonotone(data: bytes, a: nat, b: nat)
    requires a <= b <= |data|
    ensures Snap(data, a) <= Snap(data, b)
    decreases b - a
  {
    if a < b && data[a] != NEWLINE { SnapMonotone(data, a + 1, b); }
  }

  /** The walk to the next newline, as both splitters write it. */
  method WalkToNewline(data: bytes, from: nat) returns (end: nat)
    requires from <= |data|
    ensures end == Snap(data, from)
  {
    end := from;
    while end < |data| && data[end] != NEWLINE
      invariant from <= end <= |data| && Snap(data, end) == Snap(data, from)
    {
      end := end + 1;
    }
    if end < |data| {
      end := end + 1;
    }
  }

  /** Position of the first newline at or after i. */
  function NextNewline(b: bytes, i: nat): (r: Option<nat>)
    requires i <= |b|
    ensures r.Some? ==> i <= r.value < |b| && b[r.value] == NEWLINE
    decreases |b| - i
  {
    if i == |b| then None else if b[i] == NEWLINE then Some(i) else NextNewline(b, i + 1)
  }

  /** The lines of b that are ended by a newline, without it. */
  function Terminated(b: bytes): (lines: seq<bytes>)
    decreases |b|
  {
    match NextNewline(b, 0)
    case None => []
    case Some(i) => [b[..i]] + Terminated(b[i + 1..])
  }

  /** What follows the last newline. */
  function Rest(b: bytes): bytes
    decreases |b|
  {
    match NextNewline(b, 0)
    case None => b
    case Some(i) => Rest(b[i + 1..])
  }

  lemma {:induction false} FirstLineExtended(a: bytes, b: bytes, i: nat)
    requires i <= |a| && NextNewline(a, i).Some?
    ensures NextNewline(a + b, i) == NextNewline(a, i)
    decreases |a| - i
  {
    if a[i] != NEWLINE { FirstLineExtended(a, b, i + 1); }
  }

  lemma {:induction false} LineEndsSomewhere(a: bytes, i: nat)
    requires i < |a| && a[|a| - 1] == NEWLINE
    ensures NextNewline(a, i).Some?
    decreases |a| - i
  {
    if a[i] != NEWLINE { LineEndsSomewhere(a, i + 1); }
  }

  lemma UnfoldLines(b: bytes)
    ensures match NextNewline(b, 0)
            case None => Terminated(b) == [] && Rest(b) == b
            case Some(i) => Terminated(b) == [b[..i]] + Terminated(b[i + 1..]) && Rest(b) == Rest(b[i + 1..])
  {
  }

  lemma Regroup(line: bytes, a: seq<bytes>, b: seq<bytes>)
    ensures [line] + (a + b) == [line] + a + b
  {
  }

  /** Behind a line boundary the lines continue independently. */
  lemma {:induction false} TerminatedConcat(a: bytes, b: bytes)
    requires Whole(a)
    ensures Terminated(a + b) == Terminated(a) + Terminated(b)
    ensures Rest(a) == [] && Rest(a + b) == Rest(b)
    decreases |a|
  {
    hide Terminated, Rest;
    UnfoldLines(a);
    if a == [] {
      assert a + b == b;
    } else {
      LineEndsSomewhere(a, 0);
      FirstLineExtended(a, b, 0);
      UnfoldLines(a + b);
      hide NextNewline;
      var i := NextNewline(a, 0).value;
      assert (a + b)[i + 1..] == a[i + 1..] + b && (a + b)[..i] == a[..i];
      TerminatedConcat(a[i + 1..], b);
      Regroup(a[..i], Terminated(a[i + 1..]), Terminated(b));
    }
  }

  // ---- what the lines are ------------------------------------------------------------------

  /** Each line with a newline behind it. */
  function Joined(lines: seq<bytes>): bytes {
    if lines == [] then [] else lines[0] + [NEWLINE] + Joined(lines[1..])
  }

  /** b is these lines, each ended by a newline, and an unfinished rest. */
  predicate SplitsInto(b: bytes, lines: seq<bytes>, rest: bytes) {
    b == Joined(lines) + rest && (forall i :: 0 <= i < |lines| ==> 10 !in lines[i]) && 10 !in rest
  }

  lemma {:induction false} NoNewline(b: bytes, i: nat)
    requires i <= |b|
    ensures NextNewline(b, i) == None <==> forall j :: i <= j < |b| ==> b[j] != 10
    decreases |b| - i
  {
    if i < |b| && b[i] != NEWLINE { NoNewline(b, i + 1); }
  }

  lemma {:induction false} FirstNewline(line: bytes, more: bytes, i: nat)
    requires 10 !in line && i <= |line|
    ensures NextNewline(line + [NEWLINE] + more, i) == Some(|line|)
    decreases |line| - i
  {
    if i < |line| { FirstNewline(line, more, i + 1); }
  }

  /** The lines and the rest are the only way to split a buffer at its newlines. */
  lemma {:induction false} LinesOfJoined(lines: seq<bytes>, rest: bytes)
    requires SplitsInto(Joined(lines) + rest, lines, rest)
    ensures Terminated(Joined(lines) + rest) == lines && Rest(Joined(lines) + rest) == rest
    decreases |lines|
  {
    var b := Joined(lines) + rest;
    UnfoldLines(b);
    hide Terminated, Rest;
    if lines == [] {
      assert b == rest;
      NoNewline(b, 0);
    } else {
      var line, more := lines[0], Joined(lines[1..]) + rest;
      assert b == line + [NEWLINE] + more;
      FirstNewline(line, more, 0);
      assert b[..|line|] == line && b[|line| + 1..] == more;
      assert forall i :: 0 <= i < |lines[1..]| ==> lines[1..][i] == lines[i + 1];
      LinesOfJoined(lines[1..], rest);
      assert lines == [line] + lines[1..];
    }
  }

  lemma FirstLineHasNone(b: bytes, i: nat)
    requires NextNewline(b, 0) == Some(i)
    ensures 10 !in b[..i] && b == b[..i] + [10] + b[i + 1..]
  {
    BeforeNewline(b, 0, i);
    assert forall j :: 0 <= j < i ==> b[..i][j] == b[j];
  }

  lemma {:induction false} BeforeNewline(b: bytes, from: nat, i: nat)
    requires from <= |b| && NextNewline(b, from) == Some(i)
    ensures forall j :: from <= j < i ==> b[j] != 10
    decreases |b| - from
  {
    if b[from] != NEWLINE { BeforeNewline(b, from + 1, i); }
  }

  lemma {:induction false} LinesRebuild(b: bytes)
    ensures SplitsInto(b, Terminated(b), Rest(b))
    decreases |b|
  {
    UnfoldLines(b);
    hide Terminated, Rest;
    match NextNewline(b, 0)
    case None =>
      NoNewline(b, 0);
      assert Joined([]) + b == b;
    case Some(i) =>
      var line, more := b[..i], b[i + 1..];
      FirstLineHasNone(b, i);
      LinesRebuild(more);
      var lines := Terminated(b);
      assert lines[0] == line && lines[1..] == Terminated(more);
      assert Joined(lines) + Rest(b) == line + [10] + (Joined(Terminated(more)) + Rest(more));
  }

  /** Cutting at newlines gives the lines and rest that put together are the buffer, and nothing else does. */
  lemma LinesIff(b: bytes, lines: seq<bytes>, rest: bytes)
    ensures Terminated(b) == lines && Rest(b) == rest <==> SplitsInto(b, lines, rest)
  {
    LinesRebuild(b);
    if SplitsInto(b, lines, rest) { LinesOfJoined(lines, rest); }
    hide Terminated, Rest, Joined;
  }
}
