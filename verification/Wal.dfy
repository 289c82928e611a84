/**
 The write-ahead log format of 10-database-internals/src/wal.rs: frames of
 [crc u32][len u32][payload], read back up to the first torn or corrupt frame.
 */
module WalFormat {
  import opened Bytes
  import opened Encoding
  import Crc32

  const HEADER: nat := 8

  function Frame(r: Record): (f: bytes)
    ensures |f| == HEADER + |Encode(r)|
  {
    var payload := Encode(r);
    Le32(Crc32.CrcValue(payload)) + Le32(|payload|) + payload
  }

  function Frames(rs: seq<Record>): bytes {
    if rs == [] then [] else Frame(rs[0]) + Frames(rs[1..])
  }

  /** The record's encoding fits the frame's length field. */
  predicate FrameFits(r: Record) {
    Fits(r) && |Encode(r)| < U32_LIMIT
  }

  predicate AllFit(rs: seq<Record>) {
    forall r :: r in rs ==> FrameFits(r)
  }

  /** The frame at the front of buf: its record and its length, or None if torn or corrupt. */
  function FirstFrame(buf: bytes): (r: Option<(Record, nat)>)
    ensures r.Some? ==> HEADER < r.value.1 <= |buf|
  {
    if |buf| < HEADER then None else
    var len := FromLe(buf[4..8]);
    if |buf| < HEADER + len then None else
    var payload := buf[8..8 + len];
    if Crc32.CrcValue(payload) != FromLe(buf[..4]) then None else
    match Decode(payload)
    case None => None
    case Some((record, _)) => Some((record, HEADER + len))
  }

  function Replay(buf: bytes): seq<Record>
    decreases |buf|
  {
    match FirstFrame(buf)
    case None => []
    case Some((record, n)) => [record] + Replay(buf[n..])
  }

  /** How many bytes the frames accepted by Replay take. */
  function ReplayedLen(buf: bytes): (n: nat)
    ensures n <= |buf|
    decreases |buf|
  {
    match FirstFrame(buf)
    case None => 0
    case Some((_, n)) => n + ReplayedLen(buf[n..])
  }

  /** No torn or corrupt tail: every byte of the log belongs to an accepted frame. */
  predicate Clean(buf: bytes) {
    ReplayedLen(buf) == |buf|
  }

  method NextFrame(table: seq<Crc32.Word>, buf: bytes, pos: nat) returns (frame: Option<(Record, nat)>)
    requires Crc32.IsTable(table) && pos <= |buf|
    ensures frame == FirstFrame(buf[pos..])
  {
    hide Crc32.CrcValue, Decode, FromLe, Crc32.IsTable;
    ghost var rest := buf[pos..];
    if |buf| < pos + 8 { return None; }
    var crc := FromLe(buf[pos..pos + 4]);
    var len := FromLe(buf[pos + 4..pos + 8]);
    assert rest[..4] == buf[pos..pos + 4] && rest[4..8] == buf[pos + 4..pos + 8];
    if |buf| < pos + 8 + len { return None; }
    var payload := buf[pos + 8..pos + 8 + len];
    assert rest[8..8 + len] == payload;
    var actual := Crc32.Crc32(table, payload);
    if actual != crc { return None; }
    var decoded := DecodeRecord(payload);
    if decoded.None? { return None; }
    return Some((decoded.value.0, 8 + len));
  }

  method ReplayLog(table: seq<Crc32.Word>, buf: bytes) returns (records: seq<Record>)
    requires Crc32.IsTable(table)
    ensures records == Replay(buf)
  {
    hide FirstFrame, Crc32.IsTable;
    records := [];
    var pos := 0;
    while true
      invariant 0 <= pos <= |buf|
      invariant records + Replay(buf[pos..]) == Replay(buf)
      decreases |buf| - pos
    {
      var frame := NextFrame(table, buf, pos);
      if frame.None? { break; }
      records := records + [frame.value.0];
      assert buf[pos..][frame.value.1..] == buf[pos + frame.value.1..];
      pos := pos + frame.value.1;
    }
  }

  method BuildFrame(table: seq<Crc32.Word>, record: Record) returns (frame: bytes)
    requires Crc32.IsTable(table)
    ensures frame == Frame(record)
  {
    hide Crc32.CrcValue, Crc32.IsTable, Encode;
    var payload := EncodeRecord(record);
    var crc := Crc32.Crc32(table, payload);
    frame := Le32(crc);
    frame := frame + Le32(|payload|);
    frame := frame + payload;
  }

  // ---- replay against arbitrary bytes ---------------------------------------------

  lemma FirstFrameIgnoresTail(buf: bytes, tail: bytes)
    requires FirstFrame(buf).Some?
    ensures FirstFrame(buf + tail) == FirstFrame(buf)
  {
    hide Crc32.CrcValue, Decode, FromLe;
    var len := FromLe(buf[4..8]);
    assert (buf + tail)[4..8] == buf[4..8] && (buf + tail)[..4] == buf[..4];
    assert (buf + tail)[8..8 + len] == buf[8..8 + len];
  }

  /** Replaying a longer file can only add records after those of the shorter one. */
  lemma {:induction false} ReplayMonotone(buf: bytes, tail: bytes)
    ensures Replay(buf) <= Replay(buf + tail)
    ensures ReplayedLen(buf) <= ReplayedLen(buf + tail)
    decreases |buf|
  {
    hide FirstFrame;
    match FirstFrame(buf)
    case None =>
    case Some((_, n)) =>
      FirstFrameIgnoresTail(buf, tail);
      assert (buf + tail)[n..] == buf[n..] + tail;
      ReplayMonotone(buf[n..], tail);
  }

  /** Behind a clean log, replay simply continues. */
  lemma {:induction false} ReplayBehindClean(buf: bytes, tail: bytes)
    requires Clean(buf)
    ensures Replay(buf + tail) == Replay(buf) + Replay(tail)
    ensures ReplayedLen(buf + tail) == |buf| + ReplayedLen(tail)
    decreases |buf|
  {
    hide FirstFrame;
    match FirstFrame(buf)
    case None =>
      assert buf + tail == tail;
    case Some((_, n)) =>
      FirstFrameIgnoresTail(buf, tail);
      assert (buf + tail)[n..] == buf[n..] + tail;
      ReplayBehindClean(buf[n..], tail);
  }

  // ---- replay of what append writes -------------------------------------------------

  lemma FrameParts(r: Record, tail: bytes)
    requires FrameFits(r)
    ensures var buf, p := Frame(r) + tail, Encode(r);
            && FromLe(buf[..4]) == Crc32.CrcValue(p)
            && FromLe(buf[4..8]) == |p|
            && buf[8..8 + |p|] == p
  {
    hide Crc32.CrcValue, FromLe, Encode;
    var buf, p := Frame(r) + tail, Encode(r);
    Crc32.CrcValueInjective(p, p);
    LeFields(Crc32.CrcValue(p));
    LeFields(|p|);
    assert buf[..4] == Le32(Crc32.CrcValue(p));
    assert buf[4..8] == Le32(|p|);
    assert buf[8..8 + |p|] == p;
  }

  lemma FirstFrameOfFrame(r: Record, tail: bytes)
    requires FrameFits(r)
    ensures FirstFrame(Frame(r) + tail) == Some((r, |Frame(r)|))
  {
    hide Crc32.CrcValue, Decode, FromLe, Frame, Encode;
    FrameParts(r, tail);
    RoundTrip(r, []);
    assert Encode(r) + [] == Encode(r);
  }

  lemma ReplayFrame(r: Record, tail: bytes)
    requires FrameFits(r)
    ensures Replay(Frame(r) + tail) == [r] + Replay(tail)
    ensures ReplayedLen(Frame(r) + tail) == |Frame(r)| + ReplayedLen(tail)
  {
    hide FirstFrame, Frame;
    FirstFrameOfFrame(r, tail);
    assert (Frame(r) + tail)[|Frame(r)|..] == tail;
  }

  lemma {:induction false} ReplayFrames(rs: seq<Record>, tail: bytes)
    requires AllFit(rs)
    ensures Replay(Frames(rs) + tail) == rs + Replay(tail)
    ensures ReplayedLen(Frames(rs) + tail) == |Frames(rs)| + ReplayedLen(tail)
  {
    hide FirstFrame, Frame;
    if rs == [] {
      assert Frames(rs) + tail == tail;
    } else {
      assert Frames(rs) + tail == Frame(rs[0]) + (Frames(rs[1..]) + tail);
      ReplayFrame(rs[0], Frames(rs[1..]) + tail);
      ReplayFrames(rs[1..], tail);
    }
  }

  /** The length a frame announces reaches behind the bytes that are there. */
  lemma TornIsTooShort(r: Record, n: nat, later: bytes)
    requires FrameFits(r) && HEADER <= n < |Frame(r)|
    ensures var buf := Frame(r)[..n] + later; |buf| >= HEADER && 8 + FromLe(buf[4..8]) == |Frame(r)|
  {
    hide Crc32.CrcValue, Encode, Frame, FromLe;
    var buf := Frame(r)[..n] + later;
    FrameParts(r, []);
    assert Frame(r) + [] == Frame(r);
    assert buf[4..8] == Frame(r)[4..8];
  }

  /** A frame cut anywhere short of its end, with too few bytes behind it to fill the gap, is never accepted. */
  lemma TornFrameStops(r: Record, n: nat, later: bytes)
    requires FrameFits(r) && n < |Frame(r)|
    requires later == [] || (HEADER <= n && n + |later| < |Frame(r)|)
    ensures Replay(Frame(r)[..n] + later) == [] && ReplayedLen(Frame(r)[..n] + later) == 0
  {
    hide Crc32.CrcValue, Decode, Encode, Frame, FromLe, FrameFits;
    if n >= HEADER { TornIsTooShort(r, n, later); }
    assert FirstFrame(Frame(r)[..n] + later) == None;
  }

  /** Recovery: the intact frames come back, in order, and a torn last frame is dropped. */
  lemma ReplayRecovers(rs: seq<Record>, r: Record, n: nat)
    requires AllFit(rs) && FrameFits(r) && n < |Frame(r)|
    ensures Replay(Frames(rs) + Frame(r)[..n]) == rs
    ensures ReplayedLen(Frames(rs) + Frame(r)[..n]) == |Frames(rs)|
  {
    hide FirstFrame, Frame;
    TornFrameStops(r, n, []);
    assert Frame(r)[..n] + [] == Frame(r)[..n];
    ReplayFrames(rs, Frame(r)[..n]);
  }

  /**
   The code does not cut a torn tail before appending. Frames written and synced behind
   a torn frame are never replayed while the torn payload's missing part is longer than
   everything behind it.
   */
  lemma WritesBehindTornFrameAreLost(rs: seq<Record>, torn: Record, n: nat, later: seq<Record>)
    requires AllFit(rs) && FrameFits(torn) && AllFit(later)
    requires HEADER <= n && n + |Frames(later)| < |Frame(torn)|
    ensures Replay(Frames(rs) + Frame(torn)[..n] + Frames(later)) == rs
  {
    hide FirstFrame, Frame, Frames, Replay, AllFit, FrameFits;
    var tear, behind := Frame(torn)[..n], Frames(later);
    if later == [] { NoFrames(); }
    TornFrameStops(torn, n, behind);
    ReplayFrames(rs, tear + behind);
    Associate(Frames(rs), tear, behind);
    assert rs + [] == rs;
  }

  lemma Associate(a: bytes, b: bytes, c: bytes)
    ensures a + b + c == a + (b + c)
  {
  }

  lemma NoFrames()
    ensures Frames([]) == []
  {
  }

  /** Payload damage confined to four consecutive bytes stops replay exactly before the damaged frame. */
  lemma DamagedFrameStops(rs: seq<Record>, r: Record, p: bytes, w: bytes, w': bytes, q: bytes, rest: bytes)
    requires AllFit(rs) && FrameFits(r)
    requires Encode(r) == p + w + q && |w| == |w'| <= 4 && w != w'
    ensures Replay(Frames(rs) + (Frame(r)[..HEADER] + (p + w' + q) + rest)) == rs
  {
    hide Crc32.CrcValue, Decode, FromLe, Encode, Frame;
    var damaged := Frame(r)[..HEADER] + (p + w' + q) + rest;
    FrameParts(r, []);
    assert Frame(r) + [] == Frame(r);
    Crc32.WindowDetected(p, w, w', q);
    assert damaged[..4] == Frame(r)[..4] && damaged[4..8] == Frame(r)[4..8];
    assert damaged[8..8 + |Encode(r)|] == p + w' + q;
    ReplayFrames(rs, damaged);
  }

  /** A written frame: the checksum of the payload, its length, and the payload. */
  lemma FrameLayout(r: Record)
    requires FrameFits(r)
    ensures var f := Frame(r);
      && FromLe(f[0..4]) == Crc32.CrcValue(Encode(r)) && FromLe(f[4..8]) == |Encode(r)| && f[8..] == Encode(r)
  {
    FrameParts(r, []);
    hide Frame, Encode, FromLe, Crc32.CrcValue;
    var f := Frame(r);
    assert f + [] == f && f[0..4] == f[..4] && f[8..] == f[8..8 + |Encode(r)|];
  }
}
