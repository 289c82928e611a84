/**
 What becomes of a frame appended behind a torn or corrupt tail, which Wal::open in
 10-database-internals/src/wal.rs leaves in the log.
 */
module LogTail {
  import opened Bytes
  import opened Encoding
  import opened WalFormat

  /** What replay did not accept. */
  function Tail(wal: bytes): bytes {
    wal[ReplayedLen(wal)..]
  }

  /** Replay goes on at the tail, whatever is appended. */
  lemma {:induction false} ReplaySplit(wal: bytes, x: bytes)
    ensures Replay(wal + x) == Replay(wal) + Replay(Tail(wal) + x)
    ensures FirstFrame(Tail(wal)) == None
    decreases |wal|
  {
    hide FirstFrame;
    match FirstFrame(wal)
    case None =>
      assert Tail(wal) == wal;
      assert [] + Replay(wal + x) == Replay(wal + x);
    case Some((r, n)) =>
      var rest := wal[n..];
      FirstFrameIgnoresTail(wal, x);
      SliceTail(wal, x, n);
      ReplaySplit(rest, x);
      assert Tail(wal) == Tail(rest);
      Regroup(r, Replay(rest), Replay(Tail(rest) + x));
  }

  lemma SliceTail(a: bytes, x: bytes, n: nat)
    requires n <= |a|
    ensures (a + x)[n..] == a[n..] + x
  {
  }

  lemma Regroup(r: Record, a: seq<Record>, b: seq<Record>)
    ensures [r] + (a + b) == [r] + a + b
  {
  }

  /** A first frame that ends inside the front part of a buffer is a frame of that part. */
  lemma FrameWithin(tail: bytes, x: bytes)
    requires FirstFrame(tail + x).Some? && FirstFrame(tail + x).value.1 <= |tail|
    ensures FirstFrame(tail) == FirstFrame(tail + x)
  {
    hide Decode, FromLe;
    var buf := tail + x;
    var n := FirstFrame(buf).value.1;
    assert tail[4..8] == buf[4..8] && tail[..4] == buf[..4] && tail[8..n] == buf[8..n];
  }

  lemma DecodedSize(buf: bytes, r: Record, n: nat)
    requires Decode(buf) == Some((r, n))
    ensures |Encode(r)| == 17 + |r.key| + |Payload(r.value)| <= n <= |buf|
  {
    hide FromLe;
  }

  lemma FrameSize(buf: bytes, r: Record, n: nat)
    requires FirstFrame(buf) == Some((r, n))
    ensures |Frame(r)| <= n <= |buf|
    ensures n == HEADER + FromLe(buf[4..8]) && Decode(buf[8..n]).Some? && Decode(buf[8..n]).value.0 == r
  {
    hide Decode, FromLe, Encode;
    var m := Decode(buf[8..n]).value.1;
    DecodedSize(buf[8..n], r, m);
  }

  /** Every replayed record is no longer than the log it came from. */
  lemma {:induction false} ReplayedFits(buf: bytes, r: Record)
    requires r in Replay(buf)
    ensures |Frame(r)| <= |buf|
    decreases |buf|
  {
    hide FirstFrame, Frame;
    var (first, n) := FirstFrame(buf).value;
    FrameSize(buf, first, n);
    if r != first { ReplayedFits(buf[n..], r); }
  }

  // ---- a put that does not survive ------------------------------------------------------------

  predicate Same(x: Record, r: Record) {
    x.key == r.key && x.value == r.value
  }

  function Zeros(n: nat): (z: bytes)
    ensures |z| == n && forall i :: 0 <= i < n ==> z[i] == 0
  {
    if n == 0 then [] else Zeros(n - 1) + [0]
  }

  /** The key length a record read from behind the tail would have, if the tail reaches that far. */
  function LossKey(tail: bytes): bytes {
    if |tail| >= 21 && FromLe(tail[17..21]) == 0 then [0] else []
  }

  /** A put on that key with one of two values. */
  function LossPut(tail: bytes, q: nat, b: byte): Record {
    Record(q, LossKey(tail), Put([b] + Zeros(20) + [1]))
  }

  lemma LossPutFits(tail: bytes, q: nat, b: byte)
    requires q < U64_LIMIT
    ensures FrameFits(LossPut(tail, q, b))
  {
    hide FromLe, Le32, Le64;
    assert |LossKey(tail)| <= 1 && |[b] + Zeros(20) + [1]| == 22;
  }

  /** A long tail already holds the key length of its first record, and it is not that of the put. */
  lemma LongTailDiffers(tail: bytes, r: Record, x: Record, n: nat)
    requires |tail| >= 21 && |r.key| != FromLe(tail[17..21])
    requires FirstFrame(tail + Frame(r)) == Some((x, n)) && n > |tail|
    ensures !Same(x, r)
  {
    hide Frame, Decode, FirstFrame, FromLe;
    var buf := tail + Frame(r);
    FrameSize(buf, x, n);
    DecodedKey(buf[8..n]);
    KeyLengthInTail(tail, Frame(r), n);
  }

  lemma KeyLengthInTail(tail: bytes, x: bytes, n: nat)
    requires 21 <= |tail| <= n <= |tail + x|
    ensures (tail + x)[8..n][9..13] == tail[17..21]
  {
    var buf := tail + x;
    forall i | 0 <= i < 4 ensures buf[8..n][9..13][i] == tail[17..21][i] {
      assert buf[8..n][9 + i] == buf[17 + i] == tail[17 + i];
    }
  }

  lemma DecodedKey(payload: bytes)
    requires Decode(payload).Some?
    ensures |payload| >= 17 && |Decode(payload).value.0.key| == FromLe(payload[9..13])
  {
    hide FromLe;
  }

  /** Where the bytes of a put with an empty key stand in its frame. */
  lemma ValueInFrame(r: Record, j: nat)
    requires r.key == [] && r.value.Put? && j < |r.value.bytes|
    ensures |Frame(r)| == 25 + |r.value.bytes| && Frame(r)[25 + j] == r.value.bytes[j]
  {
    hide Le32, Le64;
  }

  /** A short tail shifts the put against itself: the last byte read is an earlier byte of what was written. */
  lemma ReadShifted(tail: bytes, r: Record, x: Record, n: nat)
    requires 0 < |tail| < 21 && r.key == [] && r.value.Put? && |r.value.bytes| == 22
    requires FirstFrame(tail + Frame(r)) == Some((x, n)) && x.key == [] && x.value.Put? && |x.value.bytes| == 22
    ensures x.value.bytes[21] == r.value.bytes[21 - |tail|]
  {
    hide Frame, Decode, FirstFrame, FromLe;
    var buf, k := tail + Frame(r), |tail|;
    FrameSize(buf, x, n);
    ValueInFrame(r, 21 - k);
    var payload := buf[8..n];
    PutFields(payload, x, Decode(payload).value.1);
    assert payload[38] == x.value.bytes[21];
    assert payload[38] == buf[46] == Frame(r)[46 - k];
  }

  lemma ShortTailDiffers(tail: bytes, r: Record, x: Record, n: nat, b: byte)
    requires 0 < |tail| < 21 && r.key == [] && r.value == Put([b] + Zeros(20) + [1])
    requires FirstFrame(tail + Frame(r)) == Some((x, n))
    ensures !Same(x, r)
  {
    hide Frame, FirstFrame;
    if Same(x, r) { ReadShifted(tail, r, x, n); }
  }

  /** Nothing read from behind the tail is the put. */
  lemma LossPutIsLost(tail: bytes, q: nat, b: byte, y: Record)
    requires tail != [] && FirstFrame(tail) == None
    requires y in Replay(tail + Frame(LossPut(tail, q, b)))
    ensures !Same(y, LossPut(tail, q, b))
  {
    hide FirstFrame, Frame;
    var r := LossPut(tail, q, b);
    var buf := tail + Frame(r);
    var (x, n) := FirstFrame(buf).value;
    if n <= |tail| { FrameWithin(tail, Frame(r)); }
    if y == x {
      if |tail| >= 21 { LongTailDiffers(tail, r, x, n); } else { ShortTailDiffers(tail, r, x, n, b); }
    } else {
      ReplayedFits(buf[n..], y);
      SameSize(y, r);
    }
  }

  lemma SameSize(x: Record, r: Record)
    ensures Same(x, r) ==> |Frame(x)| == |Frame(r)|
  {
    hide Le32, Le64;
  }

  // ---- when a logged record survives --------------------------------------------------------------

  /** Every record with the next sequence number is replayed if its frame is appended to this log. */
  ghost predicate KeepsNext(wal: bytes, q: nat) {
    forall r :: FrameFits(r) && r.seqno == q ==> r in Replay(wal + Frame(r))
  }

  /** Appended frames survive exactly when the log has no torn or corrupt tail. */
  lemma AppendSurvivesIff(wal: bytes, q: nat)
    requires q < U64_LIMIT && forall x :: x in Replay(wal) ==> x.seqno < q
    ensures KeepsNext(wal, q) <==> Clean(wal)
  {
    hide Replay, Frame, FirstFrame, FrameFits;
    if Clean(wal) {
      forall r | FrameFits(r) && r.seqno == q ensures r in Replay(wal + Frame(r)) {
        AppendedToClean(wal, r);
      }
    } else {
      var tail := Tail(wal);
      var r := LossPut(tail, q, 0);
      LossPutFits(tail, q, 0);
      ReplaySplit(wal, Frame(r));
      if r in Replay(wal + Frame(r)) {
        assert r in Replay(tail + Frame(r));
        LossPutIsLost(tail, q, 0, r);
      }
    }
  }

  lemma AppendedToClean(wal: bytes, r: Record)
    requires Clean(wal) && FrameFits(r)
    ensures Replay(wal + Frame(r)) == Replay(wal) + [r]
  {
    hide Frame, FrameFits, Replay, Clean;
    ReplayBehindClean(wal, Frame(r));
    FrameAlone(r);
  }

  lemma FrameAlone(r: Record)
    requires FrameFits(r)
    ensures Replay(Frame(r)) == [r]
  {
    assert Replay([]) == [];
    hide Frame, FrameFits, Replay;
    ReplayFrame(r, []);
    assert Frame(r) + [] == Frame(r) && [r] + [] == [r];
  }
}
