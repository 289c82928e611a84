/**
 Whole runs of the store: operations, crashes at any system call, restarts, in any number.
 The store is compared with a plain map from keys to values.
 */
module LsmRuns {
  import opened Bytes
  import opened Encoding
  import opened WalFormat
  import opened SsTables
  import opened Compaction
  import opened Disks
  import opened Lsm
  import opened LsmInvariant
  import opened LsmRecovery
  import opened LsmCrash

  type Dict = map<bytes, bytes>

  /** What the operation means to the caller. */
  function Apply(m: Dict, op: Op): Dict {
    match op
    case PutOp(k, v) => m[k := v]
    case DeleteOp(k) => m - {k}
    case _ => m
  }

  /** The store reads exactly like the map. */
  ghost predicate Represents(s: Store, m: Dict) {
    forall k :: GetValue(s, k) == if k in m then Some(m[k]) else None
  }

  lemma SameReadsRepresent(a: Store, b: Store, m: Dict)
    requires SameReads(a, b) && Represents(b, m)
    ensures Represents(a, m)
  {
    hide GetValue;
  }

  // ---- one completed operation -----------------------------------------------------------

  /** Does the operation flush the memtable? */
  predicate Flushes(s: Store, op: Op, limit: nat) {
    match op
    case FlushOp => s.mem != []
    case CompactOp => false
    case _ => Full(Logged(s, NewRecord(s, op)), limit)
  }

  lemma LoggedMem(s: Store, r: Record)
    ensures Logged(s, r).mem != []
  {
  }

  /** A write's log steps keep the directory in order even when the log has a torn tail. */
  lemma LoggedDisk(s: Store, d: DiskState, r: Record)
    requires DiskOk(s, d)
    ensures DiskOk(Logged(s, r), LogTrace(d, r)[1])
  {
    hide DirOf, Frame;
  }

  /** Every operation keeps the invariants of the open store, torn log tail or not. */
  lemma OperationKeepsOrder(s: Store, d: DiskState, op: Op, limit: nat)
    requires RamOk(s) && DiskOk(s, d) && Room(s, op)
    ensures RamOk(After(s, op, limit)) && DiskOk(After(s, op, limit), Last(d, Trace(s, d, op, limit)))
    ensures After(s, op, limit).nextSeq <= s.nextSeq + 1
  {
    hide RamOk, DiskOk, GetValue, FlushTrace, CompactTrace, Merge, FileImage, Frame, FrameFits;
    match op
    case FlushOp =>
      FlushedRam(s);
      if s.mem != [] { FlushedDurable(s, d); } else { NoFlush(s, d); }
    case CompactOp =>
      CompactedOk(s, d);
    case _ =>
      var r := NewRecord(s, op);
      var s1, d1 := Logged(s, r), LogTrace(d, r)[1];
      LoggedRam(s, r);
      LoggedDisk(s, d, r);
      LoggedMem(s, r);
      if Full(s1, limit) {
        FlushedRam(s1);
        FlushedDurable(s1, d1);
        TraceWithFlush(s, d, op, limit);
      }
  }

  /** Every completed operation does to the store's reads what it does to the map. */
  lemma OperationRefinesMap(s: Store, d: DiskState, op: Op, limit: nat, m: Dict)
    requires RamOk(s) && DiskOk(s, d) && Room(s, op) && Represents(s, m)
    ensures Represents(After(s, op, limit), Apply(m, op))
  {
    hide RamOk, DiskOk, GetValue, Merge, FileImage, FrameFits, CompactTrace;
    match op
    case FlushOp => FlushedRam(s);
    case CompactOp => CompactedOk(s, d);
    case _ =>
      var r := NewRecord(s, op);
      LoggedRam(s, r);
      LoggedRepresents(s, op, m);
      if Full(Logged(s, r), limit) { FlushedRam(Logged(s, r)); }
  }

  lemma TraceWithFlush(s: Store, d: DiskState, op: Op, limit: nat)
    requires Writes(op) && Full(Logged(s, NewRecord(s, op)), limit)
    ensures var s1, d1 := Logged(s, NewRecord(s, op)), LogTrace(d, NewRecord(s, op))[1];
            && Trace(s, d, op, limit) == LogTrace(d, NewRecord(s, op)) + FlushTrace(s1, d1)
            && Last(d, Trace(s, d, op, limit)) == Last(d1, FlushTrace(s1, d1))
  {
    hide FlushTrace, Frame, Full;
  }

  /** A flush makes the store durable; a write keeps it durable as long as the log has no torn tail. */
  lemma OperationKeepsDurable(s: Store, d: DiskState, op: Op, limit: nat)
    requires RamOk(s) && DiskOk(s, d) && Room(s, op)
    requires Flushes(s, op, limit) || (LogOk(s, d.wal.current) && (Writes(op) ==> Clean(d.wal.current)))
    ensures Durable(After(s, op, limit), Last(d, Trace(s, d, op, limit)))
  {
    hide RamOk, DiskOk, LogOk, FlushTrace, CompactTrace, Merge, FileImage, Frame, FrameFits, Clean;
    match op
    case FlushOp =>
      if s.mem != [] { FlushedDurable(s, d); } else { NoFlush(s, d); }
    case CompactOp =>
      CompactedOk(s, d);
    case _ =>
      var r := NewRecord(s, op);
      var s1, d1 := Logged(s, r), LogTrace(d, r)[1];
      LoggedRam(s, r);
      LoggedDisk(s, d, r);
      LoggedMem(s, r);
      if Full(s1, limit) {
        FlushedDurable(s1, d1);
        TraceWithFlush(s, d, op, limit);
      } else {
        LoggedDurable(s, d, r);
      }
  }

  lemma NoFlush(s: Store, d: DiskState)
    requires s.mem == []
    ensures FlushTrace(s, d) == []
  {
  }

  // ---- one crash -----------------------------------------------------------------------------

  /** The crash points the log and the unlink loop make safe. */
  predicate LogReady(d: DiskState, op: Op) {
    Writes(op) ==> Clean(d.wal.current)
  }

  /**
   A crash before any system call of any operation: open succeeds, the recovered store
   satisfies every invariant, and it reads like the map before or after the operation.
   */
  lemma CrashRefinesMap(s: Store, d: DiskState, op: Op, limit: nat, at: nat, c: Image, m: Dict)
    requires Durable(s, d) && Room(s, op) && LogReady(d, op) && Represents(s, m)
    requires at <= |Trace(s, d, op, limit)| && CrashImage(StateAt(d, Trace(s, d, op, limit), at), c)
    requires InUnlinkLoop(s, op, at) ==> !ShadowedPut(s.mem, TableLevels(s.tables))
    ensures Recover(c).Ok? && Durable(Recover(c).value, Reboot(c))
    ensures Represents(Recover(c).value, m) || Represents(Recover(c).value, Apply(m, op))
    ensures Recover(c).value.nextSeq <= s.nextSeq + 1
    ensures Writes(op) && at >= 2 ==> Represents(Recover(c).value, Apply(m, op))
  {
    hide RamOk, DiskOk, LogOk, GetValue, FlushTrace, CompactTrace, Merge, FileImage, Frame, FrameFits, Clean, Recover, CrashImage,
         ShadowedPut, TableLevels, Full;
    match op
    case FlushOp =>
      CrashWhileFlushing(s, d, at, c);
    case CompactOp =>
      CrashWhileCompacting(s, d, at, c);
    case _ =>
      var r := NewRecord(s, op);
      var s1, d1 := Logged(s, r), LogTrace(d, r)[1];
      LoggedRepresents(s, op, m);
      if at <= 2 {
        StateInLog(s, d, op, limit, at);
        CrashWhileLogging(s, d, r, at, c);
      } else {
        LoggedDurable(s, d, r);
        StateInFlush(s, d, op, limit, at);
        CrashWhileFlushing(s1, d1, at - 2, c);
      }
  }

  lemma LoggedRepresents(s: Store, op: Op, m: Dict)
    requires Writes(op) && Represents(s, m)
    ensures Represents(Logged(s, NewRecord(s, op)), Apply(m, op))
  {
    hide GetValue;
    var r := NewRecord(s, op);
    forall k
      ensures GetValue(Logged(s, r), k) == if k in Apply(m, op) then Some(Apply(m, op)[k]) else None
    {
      LoggedReads(s, r, k);
    }
  }

  lemma StateInLog(s: Store, d: DiskState, op: Op, limit: nat, at: nat)
    requires Writes(op) && at <= 2 && at <= |Trace(s, d, op, limit)|
    ensures StateAt(d, Trace(s, d, op, limit), at) == StateAt(d, LogTrace(d, NewRecord(s, op)), at)
  {
    hide FlushTrace, Frame, Full;
  }

  lemma StateInFlush(s: Store, d: DiskState, op: Op, limit: nat, at: nat)
    requires Writes(op) && 2 < at <= |Trace(s, d, op, limit)|
    ensures var s1, d1 := Logged(s, NewRecord(s, op)), LogTrace(d, NewRecord(s, op))[1];
            && at - 2 <= |FlushTrace(s1, d1)|
            && StateAt(d, Trace(s, d, op, limit), at) == StateAt(d1, FlushTrace(s1, d1), at - 2)
  {
    hide FlushTrace, Frame, Full;
  }

  // ---- runs -------------------------------------------------------------------------------------

  /** Done: the call returned. Crash: power failed before system call number `at` of the call, leaving `image`. */
  datatype Event = Done(op: Op) | Crash(op: Op, at: nat, image: Image)

  /** `exposed`: some write since the last flush went into the log behind a torn tail. */
  datatype Node = Node(s: Store, d: DiskState, exposed: bool)

  function Next(n: Node, e: Event, limit: nat): Node {
    match e
    case Done(op) =>
      Node(After(n.s, op, limit), Last(n.d, Trace(n.s, n.d, op, limit)),
           !Flushes(n.s, op, limit) && (n.exposed || !LogReady(n.d, op)))
    case Crash(_, _, image) =>
      match Recover(image)
      case Ok(s) => Node(s, Reboot(image), false)
      case _ => n
  }

  /** The event can happen in this state. */
  ghost predicate Possible(n: Node, e: Event, limit: nat) {
    && Room(n.s, e.op)
    && (e.Crash? ==>
          && e.at <= |Trace(n.s, n.d, e.op, limit)|
          && CrashImage(StateAt(n.d, Trace(n.s, n.d, e.op, limit), e.at), e.image))
  }

  /** The crashes the code survives: no write behind a torn tail at stake, none inside an unsafe unlink loop. */
  ghost predicate Tolerated(n: Node, e: Event) {
    e.Crash? ==>
      && !n.exposed
      && LogReady(n.d, e.op)
      && (InUnlinkLoop(n.s, e.op, e.at) ==> !ShadowedPut(n.s.mem, TableLevels(n.s.tables)))
  }

  ghost predicate Admissible(n: Node, events: seq<Event>, limit: nat)
    decreases |events|
  {
    events != [] ==>
      Possible(n, events[0], limit) && Tolerated(n, events[0]) && Admissible(Next(n, events[0], limit), events[1..], limit)
  }

  function Run(n: Node, events: seq<Event>, limit: nat): Node
    decreases |events|
  {
    if events == [] then n else Run(Next(n, events[0], limit), events[1..], limit)
  }

  /** Acknowledged operations took effect; one cut by a crash may have, and must have once its log frame was synced. */
  predicate MayBecome(m: Dict, events: seq<Event>, m': Dict)
    decreases |events|
  {
    if events == [] then m' == m
    else match events[0]
      case Done(op) => MayBecome(Apply(m, op), events[1..], m')
      case Crash(op, at, _) =>
        || MayBecome(Apply(m, op), events[1..], m')
        || (!(Writes(op) && at >= 2) && MayBecome(m, events[1..], m'))
  }

  ghost predicate NodeOk(n: Node) {
    RamOk(n.s) && DiskOk(n.s, n.d) && (!n.exposed ==> LogOk(n.s, n.d.wal.current))
  }

  /** A store opened on an empty directory. */
  function Fresh(): Node {
    Node(Store([], [], 1, 0), Reboot(Image([], map[], map[])), false)
  }

  lemma FreshOk()
    ensures Recover(Image([], map[], map[])) == Ok(Fresh().s)
    ensures NodeOk(Fresh()) && Represents(Fresh().s, map[])
  {
    var c := Image([], map[], map[]);
    EmptyFrame();
    hide FirstFrame;
    assert Replay([]) == [];
    EmptyBytes();
    RecoverOpens(c, []);
    RecoveredOk([], []);
    RebootOk(c, []);
    assert RecoveredStore([], []) == Fresh().s;
  }

  lemma {:induction false} RunConcat(n: Node, a: seq<Event>, b: seq<Event>, limit: nat)
    ensures Run(n, a + b, limit) == Run(Run(n, a, limit), b, limit)
    ensures Admissible(n, a + b, limit) <==> Admissible(n, a, limit) && Admissible(Run(n, a, limit), b, limit)
    decreases |a|
  {
    hide Next, Possible, Tolerated;
    if a == [] {
      assert a + b == b;
    } else {
      assert (a + b)[1..] == a[1..] + b;
      RunConcat(Next(n, a[0], limit), a[1..], b, limit);
    }
  }

  lemma NextRefinesMap(n: Node, e: Event, limit: nat, m: Dict)
    requires NodeOk(n) && Represents(n.s, m) && Possible(n, e, limit) && Tolerated(n, e)
    ensures NodeOk(Next(n, e, limit))
    ensures var m' := Apply(m, e.op);
            || Represents(Next(n, e, limit).s, m')
            || (e.Crash? && !(Writes(e.op) && e.at >= 2) && Represents(Next(n, e, limit).s, m))
  {
    hide RamOk, DiskOk, LogOk, After, Trace, Recover, Represents, Room, CrashImage, ShadowedPut, TableLevels, Apply, LogReady;
    match e
    case Done(op) =>
      OperationKeepsOrder(n.s, n.d, op, limit);
      OperationRefinesMap(n.s, n.d, op, limit, m);
      if Flushes(n.s, op, limit) || !Next(n, e, limit).exposed {
        LogReadyClean(n.d, op);
        OperationKeepsDurable(n.s, n.d, op, limit);
      }
    case Crash(op, at, c) =>
      CrashRefinesMap(n.s, n.d, op, limit, at, c, m);
  }

  lemma LogReadyClean(d: DiskState, op: Op)
    ensures LogReady(d, op) ==> Writes(op) ==> Clean(d.wal.current)
  {
  }

  /**
   Durability over any number of crashes: after every admissible run the store satisfies
   every invariant and reads like a map holding all acknowledged writes, plus at most the
   one write each crash cut short.
   */
  lemma {:induction false} RunRefinesMap(n: Node, events: seq<Event>, limit: nat, m: Dict)
    requires NodeOk(n) && Represents(n.s, m) && Admissible(n, events, limit)
    ensures NodeOk(Run(n, events, limit))
    ensures exists m' :: MayBecome(m, events, m') && Represents(Run(n, events, limit).s, m')
    decreases |events|
  {
    if events == [] {
      assert MayBecome(m, events, m);
    } else {
      hide NodeOk, Represents, Next, Possible, Tolerated, Apply;
      var e := events[0];
      NextRefinesMap(n, e, limit, m);
      var n1 := Next(n, e, limit);
      if Represents(n1.s, Apply(m, e.op)) {
        RunRefinesMap(n1, events[1..], limit, Apply(m, e.op));
        var m' :| MayBecome(Apply(m, e.op), events[1..], m') && Represents(Run(n1, events[1..], limit).s, m');
        assert MayBecome(m, events, m');
      } else {
        RunRefinesMap(n1, events[1..], limit, m);
        var m' :| MayBecome(m, events[1..], m') && Represents(Run(n1, events[1..], limit).s, m');
        assert MayBecome(m, events, m');
      }
    }
  }

  /** Without crashes the store is the map. */
  lemma {:induction false} CrashFreeRunIsMap(m: Dict, ops: seq<Op>, m': Dict)
    requires MayBecome(m, Completed(ops), m')
    ensures m' == ApplyAll(m, ops)
    decreases |ops|
  {
    if ops != [] {
      assert Completed(ops)[1..] == Completed(ops[1..]);
      CrashFreeRunIsMap(Apply(m, ops[0]), ops[1..], m');
    }
  }

  function Completed(ops: seq<Op>): (events: seq<Event>)
    ensures |events| == |ops|
  {
    seq(|ops|, i requires 0 <= i < |ops| => Done(ops[i]))
  }

  function ApplyAll(m: Dict, ops: seq<Op>): Dict
    decreases |ops|
  {
    if ops == [] then m else ApplyAll(Apply(m, ops[0]), ops[1..])
  }
}
