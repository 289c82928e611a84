/**
 The reader, bounded channel and worker pool of 04-concurrency/src/pipeline.rs as
 interleaved steps: any thread that can move may move next.
 */
module Pipeline {
  import opened Bytes
  import opened LogStats
  import opened LogReports

  const BATCH: nat := 1024
  const CHANNEL: nat := 64

  /** A line of input; None is a blank line, which the producer skips. */
  type RawLine = Option<Line>

  /** A worker's own aggregate, the rest of the batch it is working on, and whether it has returned. */
  datatype Worker = Worker(local: Stats, todo: seq<Line>, exited: bool)

  datatype State = State(remaining: seq<RawLine>, batch: seq<Line>, closed: bool, queue: seq<seq<Line>>, workers: seq<Worker>)

  datatype Step = Read | Send | Close | Receive(w: nat) | Work(w: nat) | Exit(w: nat)

  function NonBlank(raw: seq<RawLine>): seq<Line> {
    if raw == [] then []
    else match raw[0]
      case Some(line) => [line] + NonBlank(raw[1..])
      case None => NonBlank(raw[1..])
  }

  function Start(raw: seq<RawLine>, nWorkers: nat): State {
    State(raw, [], false, [], seq(nWorkers, _ => Worker(Default(), [], false)))
  }

  predicate Idle(s: State, w: nat) {
    w < |s.workers| && !s.workers[w].exited && s.workers[w].todo == []
  }

  /** The step's thread is not blocked. */
  predicate Enabled(s: State, step: Step) {
    match step
    case Read => !s.closed && s.remaining != [] && |s.batch| < BATCH
    case Send => !s.closed && (|s.batch| == BATCH || (s.remaining == [] && s.batch != [])) && |s.queue| < CHANNEL
    case Close => !s.closed && s.remaining == [] && s.batch == []
    case Receive(w) => Idle(s, w) && s.queue != []
    case Work(w) => w < |s.workers| && !s.workers[w].exited && s.workers[w].todo != []
    case Exit(w) => Idle(s, w) && s.queue == [] && s.closed
  }

  function Apply(s: State, step: Step): State
    requires Enabled(s, step)
  {
    match step
    case Read =>
      (match s.remaining[0]
       case Some(line) => s.(remaining := s.remaining[1..], batch := s.batch + [line])
       case None => s.(remaining := s.remaining[1..]))
    case Send => s.(queue := s.queue + [s.batch], batch := [])
    case Close => s.(closed := true)
    case Receive(w) => s.(queue := s.queue[1..], workers := s.workers[w := s.workers[w].(todo := s.queue[0])])
    case Work(w) =>
      var worker := s.workers[w];
      s.(workers := s.workers[w := worker.(local := Take(worker.local, worker.todo[0]), todo := worker.todo[1..])])
    case Exit(w) => s.(workers := s.workers[w := s.workers[w].(exited := true)])
  }

  /** Every thread has returned, so the scope can join them. */
  predicate Finished(s: State) {
    s.closed && forall w :: 0 <= w < |s.workers| ==> s.workers[w].exited
  }

  function Locals(workers: seq<Worker>): (parts: seq<Stats>)
    ensures |parts| == |workers|
  {
    seq(|workers|, w requires 0 <= w < |workers| => workers[w].local)
  }

  /** The reduction: merge the workers' aggregates in spawn order. */
  function Result(s: State): Stats {
    MergeAll(Locals(s.workers))
  }

  // ---- shape ---------------------------------------------------------------------------------

  /** The channel never holds more than its bound, batches are never empty or oversized, and a worker leaves only when all input is taken. */
  predicate Shape(s: State) {
    && |s.queue| <= CHANNEL && |s.batch| <= BATCH
    && (forall i :: 0 <= i < |s.queue| ==> 0 < |s.queue[i]| <= BATCH)
    && (s.closed ==> s.remaining == [] && s.batch == [])
    && (forall w :: 0 <= w < |s.workers| && s.workers[w].exited ==> s.closed && s.queue == [] && s.workers[w].todo == [])
  }

  lemma StepKeepsShape(s: State, step: Step)
    requires Shape(s) && Enabled(s, step)
    ensures Shape(Apply(s, step)) && |Apply(s, step).workers| == |s.workers|
  {
  }

  // ---- no deadlock -----------------------------------------------------------------------------

  /** Somebody takes the lines, or there are none to take. */
  predicate Manned(s: State) {
    |s.workers| > 0 || Pending(s) == []
  }

  /** Then some thread can always move until all have returned. */
  lemma NoDeadlock(s: State)
    requires Shape(s) && Manned(s) && !Finished(s)
    ensures exists step :: Enabled(s, step)
  {
    if s.closed {
      var w :| 0 <= w < |s.workers| && !s.workers[w].exited;
      assert Enabled(s, Work(w)) || Enabled(s, Receive(w)) || Enabled(s, Exit(w));
    } else if |s.workers| == 0 {
      assert s.batch == [];
      assert Enabled(s, Read) || Enabled(s, Close);
    } else if |s.queue| < CHANNEL {
      assert Enabled(s, Read) || Enabled(s, Send) || Enabled(s, Close);
    } else {
      assert !s.workers[0].exited;
      assert Enabled(s, Work(0)) || Enabled(s, Receive(0));
    }
  }

  // ---- termination -------------------------------------------------------------------------------

  function QueuedLines(queue: seq<seq<Line>>): nat {
    if queue == [] then 0 else |queue[0]| + QueuedLines(queue[1..])
  }

  function WorkLeft(workers: seq<Worker>): nat {
    if workers == [] then 0
    else |workers[0].todo| + (if workers[0].exited then 0 else 1) + WorkLeft(workers[1..])
  }

  /** How many steps are left at most: a line is read, sent, received and worked on. */
  function Measure(s: State): nat {
    4 * |s.remaining| + 3 * |s.batch| + 2 * QueuedLines(s.queue) + WorkLeft(s.workers) + (if s.closed then 0 else 1)
  }

  lemma {:induction false} QueuedSnoc(queue: seq<seq<Line>>, last: seq<Line>)
    ensures QueuedLines(queue + [last]) == QueuedLines(queue) + |last|
  {
    if queue == [] {
      assert ([] + [last])[1..] == [];
    } else {
      assert (queue + [last])[1..] == queue[1..] + [last];
      QueuedSnoc(queue[1..], last);
    }
  }

  lemma {:induction false} WorkLeftUpdated(workers: seq<Worker>, w: nat, worker: Worker)
    requires w < |workers|
    ensures WorkLeft(workers[w := worker]) + |workers[w].todo| + (if workers[w].exited then 0 else 1) ==
            WorkLeft(workers) + |worker.todo| + (if worker.exited then 0 else 1)
  {
    if w == 0 {
      assert workers[0 := worker][1..] == workers[1..];
    } else {
      assert workers[w := worker][1..] == workers[1..][w - 1 := worker];
      WorkLeftUpdated(workers[1..], w - 1, worker);
    }
  }

  /** Every step of every thread brings the end nearer. */
  lemma StepDecreases(s: State, step: Step)
    requires Shape(s) && Enabled(s, step)
    ensures Measure(Apply(s, step)) < Measure(s)
  {
    hide Take;
    match step
    case Send => QueuedSnoc(s.queue, s.batch);
    case Receive(w) => WorkLeftUpdated(s.workers, w, Apply(s, step).workers[w]);
    case Work(w) => WorkLeftUpdated(s.workers, w, Apply(s, step).workers[w]);
    case Exit(w) => WorkLeftUpdated(s.workers, w, Apply(s, step).workers[w]);
    case _ =>
  }

  // ---- conservation ----------------------------------------------------------------------------------

  function Flatten(queue: seq<seq<Line>>): seq<Line> {
    if queue == [] then [] else queue[0] + Flatten(queue[1..])
  }

  /** Lines no worker has taken yet, in order. */
  function Pending(s: State): seq<Line> {
    Flatten(s.queue) + s.batch + NonBlank(s.remaining)
  }

  /** What the workers will have counted once they finish the batches they hold. */
  function Promised(workers: seq<Worker>): Stats {
    if workers == [] then Default()
    else
      var last := workers[|workers| - 1];
      Merge(Promised(workers[..|workers| - 1]), TakeAll(last.local, last.todo))
  }

  /** Everything counted, being counted and yet to be counted. */
  function Total(s: State): Stats {
    Merge(Promised(s.workers), Sequential(Pending(s)))
  }

  lemma {:induction false} FlattenSnoc(queue: seq<seq<Line>>, last: seq<Line>)
    ensures Flatten(queue + [last]) == Flatten(queue) + last
  {
    if queue == [] {
      assert ([] + [last])[1..] == [];
    } else {
      assert (queue + [last])[1..] == queue[1..] + [last];
      FlattenSnoc(queue[1..], last);
    }
  }

  /** Replacing one worker changes the promise exactly as its own share changes. */
  lemma {:induction false} PromisedUpdated(workers: seq<Worker>, w: nat, worker: Worker, extra: Stats)
    requires w < |workers|
    requires Same(TakeAll(worker.local, worker.todo), Merge(TakeAll(workers[w].local, workers[w].todo), extra))
    ensures Same(Promised(workers[w := worker]), Merge(Promised(workers), extra))
  {
    hide TakeAll, Merge, Default, Same;
    var n := |workers|;
    var front, last := workers[..n - 1], workers[n - 1];
    var share := TakeAll(last.local, last.todo);
    if w == n - 1 {
      assert workers[w := worker][..n - 1] == front;
      SameRefl(Promised(front));
      SameMerged(Promised(front), Promised(front), TakeAll(worker.local, worker.todo), Merge(share, extra));
      MergeIsCommutativeMonoid(Promised(front), share, extra);
    } else {
      assert workers[w := worker][..n - 1] == front[w := worker];
      PromisedUpdated(front, w, worker, extra);
      SameRefl(share);
      SameMerged(Promised(front[w := worker]), Merge(Promised(front), extra), share, share);
      MoveToEnd(Promised(front), extra, share);
      SameTransitive(Promised(workers[w := worker]), Merge(Merge(Promised(front), extra), share),
                     Merge(Merge(Promised(front), share), extra));
    }
  }

  lemma SameRefl(a: Stats)
    ensures Same(a, a)
  {
  }

  lemma MoveToEnd(a: Stats, b: Stats, c: Stats)
    ensures Same(Merge(Merge(a, b), c), Merge(Merge(a, c), b))
  {
    hide Merge, Same;
    MergeIsCommutativeMonoid(a, b, c);
    MergeIsCommutativeMonoid(a, c, b);
    MergeIsCommutativeMonoid(b, c, a);
    SameRefl(a);
    SameMerged(a, a, Merge(b, c), Merge(c, b));
  }

  lemma PendingKept(s: State, step: Step)
    requires Enabled(s, step) && (step.Read? || step.Send?)
    ensures Pending(Apply(s, step)) == Pending(s)
  {
    match step
    case Read =>
      var line := s.remaining[0];
      if line.Some? {
        assert s.batch + [line.value] + NonBlank(s.remaining[1..]) == s.batch + ([line.value] + NonBlank(s.remaining[1..]));
        Regroup(Flatten(s.queue), s.batch, [line.value], NonBlank(s.remaining[1..]));
      }
    case Send =>
      FlattenSnoc(s.queue, s.batch);
      assert Flatten(s.queue) + s.batch + [] == Flatten(s.queue) + s.batch;
  }

  lemma Regroup<T>(a: seq<T>, b: seq<T>, c: seq<T>, d: seq<T>)
    ensures a + (b + c) + d == a + b + (c + d)
    ensures a + b + c + d == a + (b + c + d)
  {
  }

  /** A received batch moves from the pending lines to the worker's share. */
  lemma ReceiveKeepsTotal(s: State, w: nat)
    requires Enabled(s, Receive(w))
    ensures Same(Total(Apply(s, Receive(w))), Total(s))
  {
    hide TakeAll, Merge, Default, Same, Take;
    var b, s' := s.queue[0], Apply(s, Receive(w));
    var worker := s'.workers[w];
    Regroup(b, Flatten(s.queue[1..]), s.batch, NonBlank(s.remaining));
    assert Pending(s) == b + Pending(s');
    NothingTaken(s.workers[w].local);
    TakeAllIsMerge(worker.local, b);
    SameRefl(TakeAll(worker.local, b));
    PromisedUpdated(s.workers, w, worker, Sequential(b));
    SequentialConcat(b, Pending(s'));
    MergeIsCommutativeMonoid(Promised(s.workers), Sequential(b), Sequential(Pending(s')));
    SameRefl(Sequential(Pending(s')));
    SameMerged(Promised(s'.workers), Merge(Promised(s.workers), Sequential(b)), Sequential(Pending(s')), Sequential(Pending(s')));
  }

  lemma NothingTaken(s: Stats)
    ensures TakeAll(s, []) == s
  {
  }

  lemma {:induction false} PromisedSameShare(workers: seq<Worker>, w: nat, worker: Worker)
    requires w < |workers|
    requires TakeAll(worker.local, worker.todo) == TakeAll(workers[w].local, workers[w].todo)
    ensures Promised(workers[w := worker]) == Promised(workers)
  {
    hide TakeAll, Merge;
    var n := |workers|;
    if w == n - 1 {
      assert workers[w := worker][..n - 1] == workers[..n - 1];
    } else {
      assert workers[w := worker][..n - 1] == workers[..n - 1][w := worker];
      PromisedSameShare(workers[..n - 1], w, worker);
    }
  }

  /** No step loses or duplicates a line. */
  lemma StepKeepsTotal(s: State, step: Step)
    requires Enabled(s, step)
    ensures Same(Total(Apply(s, step)), Total(s))
  {
    hide Same, Merge, Take, Default;
    SameRefl(Total(s));
    match step
    case Read => PendingKept(s, step);
    case Send => PendingKept(s, step);
    case Close =>
    case Receive(w) => ReceiveKeepsTotal(s, w);
    case Work(w) => PromisedSameShare(s.workers, w, Apply(s, step).workers[w]);
    case Exit(w) => PromisedSameShare(s.workers, w, Apply(s, step).workers[w]);
  }

  lemma {:induction false} StartPromisesNothing(workers: seq<Worker>)
    requires forall w :: 0 <= w < |workers| ==> workers[w] == Worker(Default(), [], false)
    ensures Promised(workers) == Default()
  {
    hide Merge, Default;
    if workers != [] {
      StartPromisesNothing(workers[..|workers| - 1]);
      NothingTaken(Default());
      MergeIsCommutativeMonoid(Default(), Default(), Default());
    }
  }

  lemma StartTotal(raw: seq<RawLine>, n: nat)
    ensures Shape(Start(raw, n)) && Total(Start(raw, n)) == Sequential(NonBlank(raw))
  {
    hide Merge, Default, Sequential;
    StartPromisesNothing(Start(raw, n).workers);
    assert [] + [] + NonBlank(raw) == NonBlank(raw);
    MergeIsCommutativeMonoid(Sequential(NonBlank(raw)), Default(), Default());
  }

  lemma {:induction false} IdlePromise(workers: seq<Worker>)
    requires forall w :: 0 <= w < |workers| ==> workers[w].todo == []
    ensures Promised(workers) == MergeAll(Locals(workers))
  {
    hide Merge, Default;
    if workers != [] {
      var front := workers[..|workers| - 1];
      IdlePromise(front);
      NothingTaken(workers[|workers| - 1].local);
      assert Locals(workers)[..|workers| - 1] == Locals(front);
    }
  }

  lemma FinishedResult(s: State)
    requires Shape(s) && Finished(s) && Manned(s)
    ensures Result(s) == Total(s)
  {
    if |s.workers| > 0 { assert s.workers[0].exited; }
    assert Pending(s) == [];
    IdlePromise(s.workers);
    NothingTaken(Default());
    MergeIsCommutativeMonoid(Result(s), Default(), Default());
    hide Merge;
  }

  // ---- every interleaving ------------------------------------------------------------------------------

  predicate Possible(s: State, steps: seq<Step>)
    decreases |steps|
  {
    steps != [] ==> Enabled(s, steps[0]) && Possible(Apply(s, steps[0]), steps[1..])
  }

  function After(s: State, steps: seq<Step>): State
    requires Possible(s, steps)
    decreases |steps|
  {
    if steps == [] then s else After(Apply(s, steps[0]), steps[1..])
  }

  /** Without workers every line stays pending. */
  lemma UnmannedStep(s: State, step: Step)
    requires s.workers == [] && Enabled(s, step)
    ensures Pending(Apply(s, step)) == Pending(s) && Apply(s, step).workers == []
  {
    if step.Read? || step.Send? { PendingKept(s, step); }
  }

  lemma {:induction false} RunKeeps(s: State, steps: seq<Step>)
    requires Shape(s) && Possible(s, steps)
    ensures Shape(After(s, steps)) && Same(Total(After(s, steps)), Total(s))
    ensures Measure(After(s, steps)) + |steps| <= Measure(s)
    ensures |After(s, steps).workers| == |s.workers|
    ensures s.workers == [] ==> Pending(After(s, steps)) == Pending(s)
    decreases |steps|
  {
    hide Shape, Enabled, Apply, Same, Total, Measure, Pending;
    if steps == [] {
      SameRefl(Total(s));
    } else {
      var s1 := Apply(s, steps[0]);
      StepKeepsShape(s, steps[0]);
      StepKeepsTotal(s, steps[0]);
      StepDecreases(s, steps[0]);
      if s.workers == [] { UnmannedStep(s, steps[0]); }
      RunKeeps(s1, steps[1..]);
      SameTransitive(Total(After(s, steps)), Total(s1), Total(s));
    }
  }

  /**
   Every interleaving keeps the channel within its bound and ends within a bound fixed by
   the input. With a worker, or with nothing to work on, it can always go on until all
   threads have returned, and then merges to the aggregate of the sequential oracle.
   */
  lemma PipelineMatchesSequential(raw: seq<RawLine>, nWorkers: nat, steps: seq<Step>)
    requires Possible(Start(raw, nWorkers), steps)
    ensures var s := After(Start(raw, nWorkers), steps);
            && |s.queue| <= 64
            && |steps| <= Measure(Start(raw, nWorkers))
            && (nWorkers > 0 || NonBlank(raw) == [] ==> GoesWell(s, raw))
  {
    var s0 := Start(raw, nWorkers);
    StartTotal(raw, nWorkers);
    StartPending(raw, nWorkers);
    hide Same, Total, Measure, Possible, Enabled, Result, Finished, Pending;
    RunKeeps(s0, steps);
    var s := After(s0, steps);
    if nWorkers > 0 || NonBlank(raw) == [] {
      if Finished(s) { FinishedResult(s); } else { NoDeadlock(s); }
    }
  }

  lemma StartPending(raw: seq<RawLine>, n: nat)
    ensures Pending(Start(raw, n)) == NonBlank(raw)
  {
    assert [] + [] + NonBlank(raw) == NonBlank(raw);
  }

  /** Some thread can move, or all have returned with the aggregate of the oracle. */
  ghost predicate GoesWell(s: State, raw: seq<RawLine>) {
    if Finished(s) then Same(Result(s), Sequential(NonBlank(raw))) else exists step :: Enabled(s, step)
  }

  ghost predicate PoolWorks(raw: seq<RawLine>, nWorkers: nat) {
    forall steps :: Possible(Start(raw, nWorkers), steps) ==> GoesWell(After(Start(raw, nWorkers), steps), raw)
  }

  /** A run that cannot be continued. */
  lemma MaximalRun(s: State) returns (steps: seq<Step>)
    requires Shape(s)
    ensures Possible(s, steps) && forall step :: !Enabled(After(s, steps), step)
    decreases Measure(s)
  {
    hide Shape, Apply, Measure, Enabled;
    steps := [];
    if step :| Enabled(s, step) {
      StepKeepsShape(s, step);
      StepDecreases(s, step);
      var more := MaximalRun(Apply(s, step));
      steps := [step] + more;
      assert steps[1..] == more;
    }
  }

  /** Without workers nothing is counted. */
  lemma UnmannedResult(raw: seq<RawLine>, s: State)
    requires s.workers == [] && NonBlank(raw) != []
    ensures !Same(Result(s), Sequential(NonBlank(raw)))
  {
    SequentialCounts(NonBlank(raw));
    assert Locals(s.workers) == [];
  }

  /** No schedule blocks or miscounts exactly when there is a worker, or no line to count. */
  lemma PoolWorksIff(raw: seq<RawLine>, nWorkers: nat)
    ensures PoolWorks(raw, nWorkers) <==> nWorkers > 0 || NonBlank(raw) == []
  {
    var s0 := Start(raw, nWorkers);
    StartTotal(raw, nWorkers);
    hide Same, Total, Measure, Possible, Enabled, Result, Finished, Sequential, Shape;
    if nWorkers > 0 || NonBlank(raw) == [] {
      forall steps | Possible(s0, steps) ensures GoesWell(After(s0, steps), raw) {
        PipelineMatchesSequential(raw, nWorkers, steps);
      }
    } else {
      var steps := MaximalRun(s0);
      RunKeeps(s0, steps);
      UnmannedResult(raw, After(s0, steps));
      assert !GoesWell(After(s0, steps), raw);
    }
  }

  /** Hence the same report, leaderboards and sorted samples included. */
  lemma PipelineReport(raw: seq<RawLine>, nWorkers: nat, steps: seq<Step>, topK: nat, r: Report)
    requires (nWorkers > 0 || NonBlank(raw) == []) && Possible(Start(raw, nWorkers), steps)
    requires Finished(After(Start(raw, nWorkers), steps))
    ensures IsReport(Result(After(Start(raw, nWorkers), steps)), topK, r) <==> IsReport(Sequential(NonBlank(raw)), topK, r)
  {
    hide IsReport, Same, Finished, Possible, Measure, Result, Sequential;
    PipelineMatchesSequential(raw, nWorkers, steps);
    var a, b := Result(After(Start(raw, nWorkers), steps)), Sequential(NonBlank(raw));
    SameSymmetric(a, b);
    if IsReport(a, topK, r) { ReportTransfers(a, b, topK, r); }
    if IsReport(b, topK, r) { ReportTransfers(b, a, topK, r); }
  }

  lemma SameSymmetric(a: Stats, b: Stats)
    ensures Same(a, b) <==> Same(b, a)
  {
  }

  // ---- a run under any scheduler --------------------------------------------------------------------------

  function Choices(n: nat): (steps: seq<Step>)
    ensures forall w: nat :: w < n ==> Receive(w) in steps && Work(w) in steps && Exit(w) in steps
  {
    if n == 0 then [Read, Send, Close] else Choices(n - 1) + [Receive(n - 1), Work(n - 1), Exit(n - 1)]
  }

  lemma {:induction false} ProducerChoices(n: nat)
    ensures Read in Choices(n) && Send in Choices(n) && Close in Choices(n)
  {
    if n == 0 {
      assert Choices(0) == [Read, Send, Close];
      assert Choices(0)[0] == Read && Choices(0)[1] == Send && Choices(0)[2] == Close;
    } else {
      ProducerChoices(n - 1);
      var front := Choices(n - 1);
      assert Choices(n) == front + [Receive(n - 1), Work(n - 1), Exit(n - 1)];
      hide Choices;
    }
  }

  method EnabledSteps(s: State) returns (enabled: seq<Step>)
    ensures forall step :: step in enabled <==> step in Choices(|s.workers|) && Enabled(s, step)
  {
    var all := Choices(|s.workers|);
    enabled := [];
    for i := 0 to |all|
      invariant forall step :: step in enabled <==> step in all[..i] && Enabled(s, step)
    {
      assert all[..i + 1] == all[..i] + [all[i]];
      if Enabled(s, all[i]) { enabled := enabled + [all[i]]; }
    }
    assert all[..|all|] == all;
  }

  lemma EnabledIsChoice(s: State, step: Step)
    requires Enabled(s, step)
    ensures step in Choices(|s.workers|)
  {
    ProducerChoices(|s.workers|);
    hide Choices;
  }

  /** The scheduler picks among the threads that can move, if any. */
  method PickStep(s: State, choice: nat) returns (step: Option<Step>)
    ensures step.None? <==> forall any :: !Enabled(s, any)
    ensures step.Some? ==> Enabled(s, step.value)
  {
    hide Enabled, Choices;
    var enabled := EnabledSteps(s);
    forall any | Enabled(s, any) ensures any in enabled { EnabledIsChoice(s, any); }
    if enabled == [] { return None; }
    assert enabled[choice % |enabled|] in enabled;
    return Some(enabled[choice % |enabled|]);
  }

  /** What holds along a run: the shape, the number of workers, and the pending lines as long as nobody takes them. */
  ghost predicate Underway(s: State, raw: seq<RawLine>, nWorkers: nat) {
    && Shape(s) && |s.workers| == nWorkers && Same(Total(s), Sequential(NonBlank(raw)))
    && (nWorkers == 0 ==> Pending(s) == NonBlank(raw))
  }

  lemma StepKeepsUnderway(s: State, step: Step, raw: seq<RawLine>, nWorkers: nat)
    requires Underway(s, raw, nWorkers) && Enabled(s, step)
    ensures Underway(Apply(s, step), raw, nWorkers) && Measure(Apply(s, step)) < Measure(s)
  {
    hide Total, Measure, Same, Apply, Pending, Shape, Enabled, Sequential;
    StepKeepsShape(s, step);
    StepKeepsTotal(s, step);
    StepDecreases(s, step);
    if nWorkers == 0 { UnmannedStep(s, step); }
    SameTransitive(Total(Apply(s, step)), Total(s), Sequential(NonBlank(raw)));
  }

  /**
   The pipeline under an arbitrary scheduler. None is a deadlock, which needs lines and no
   worker; otherwise it always ends, with the aggregate of the oracle.
   */
  method AnalyzePipeline(raw: seq<RawLine>, nWorkers: nat, schedule: nat -> nat) returns (stats: Option<Stats>)
    ensures nWorkers > 0 || NonBlank(raw) == [] ==> stats.Some? && Same(stats.value, Sequential(NonBlank(raw)))
    ensures nWorkers == 0 && NonBlank(raw) != [] ==> stats == None || stats == Some(Default())
  {
    var s := Start(raw, nWorkers);
    StartTotal(raw, nWorkers);
    StartPending(raw, nWorkers);
    SameRefl(Total(s));
    hide Shape, Total, Measure, Same, Apply, Finished, Enabled, Result, Sequential, Pending, Default;
    var turn := 0;
    while !Finished(s)
      invariant Underway(s, raw, nWorkers)
      decreases Measure(s)
    {
      var step := PickStep(s, schedule(turn));
      if step.None? {
        if nWorkers > 0 || NonBlank(raw) == [] { NoDeadlock(s); }
        return None;
      }
      StepKeepsUnderway(s, step.value, raw, nWorkers);
      s := Apply(s, step.value);
      turn := turn + 1;
    }
    if nWorkers > 0 || NonBlank(raw) == [] { FinishedResult(s); } else { NoParts(s); }
    return Some(Result(s));
  }

  lemma NoParts(s: State)
    requires s.workers == []
    ensures Result(s) == Default()
  {
    assert Locals(s.workers) == [];
  }

  // ---- batches ----------------------------------------------------------------------------------------

  /** Every batch in the channel holds 1024 lines, but for the last one of the input. */
  predicate FullBatches(s: State) {
    && |s.batch| <= 1024
    && forall i :: 0 <= i < |s.queue| ==>
         |s.queue[i]| == 1024 || (i == |s.queue| - 1 && 0 < |s.queue[i]| < 1024 && s.remaining == [] && s.batch == [])
  }

  lemma StepKeepsFull(s: State, step: Step)
    requires FullBatches(s) && Enabled(s, step)
    ensures FullBatches(Apply(s, step))
  {
    hide Take;
  }

  lemma {:induction false} BatchesAreFull(raw: seq<RawLine>, nWorkers: nat, steps: seq<Step>)
    requires Possible(Start(raw, nWorkers), steps)
    ensures FullBatches(After(Start(raw, nWorkers), steps))
  {
    RunKeepsFull(Start(raw, nWorkers), steps);
  }

  lemma {:induction false} RunKeepsFull(s: State, steps: seq<Step>)
    requires FullBatches(s) && Possible(s, steps)
    ensures FullBatches(After(s, steps))
    decreases |steps|
  {
    if steps != [] {
      hide FullBatches, Apply, Enabled;
      StepKeepsFull(s, steps[0]);
      RunKeepsFull(Apply(s, steps[0]), steps[1..]);
    }
  }

  /** Blank lines are skipped, all others kept in order. */
  lemma {:induction false} NonBlankParts(a: seq<RawLine>, l: RawLine, b: seq<RawLine>)
    ensures NonBlank(a + [l] + b) == match l case Some(line) => NonBlank(a) + [line] + NonBlank(b) case None => NonBlank(a + b)
    decreases |a|
  {
    if a == [] {
      assert [] + [l] + b == [l] + b && [] + b == b && ([l] + b)[1..] == b;
      if l.Some? { assert [] + [l.value] == [l.value]; }
    } else {
      assert (a + [l] + b)[1..] == a[1..] + [l] + b && (a + b)[1..] == a[1..] + b;
      assert (a + [l] + b)[0] == a[0] && (a + b)[0] == a[0];
      NonBlankParts(a[1..], l, b);
      if l.Some? && a[0].Some? { InFront([a[0].value], NonBlank(a[1..]), [l.value], NonBlank(b)); }
    }
  }

  lemma InFront<T>(a: seq<T>, b: seq<T>, c: seq<T>, d: seq<T>)
    ensures a + (b + c + d) == a + b + c + d
  {
  }
}
