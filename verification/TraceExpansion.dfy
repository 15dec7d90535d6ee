// Expanding a trace: running all assignments, be it one after the other or in waves.
module TraceExpansion {
  import opened Options
  import opened ColumnRefs
  import opened TraceModules
  import opened Assignments
  import opened Scheduling

  /** What an assignment gets to see of a trace. */
  function Reads(a: Assignment, tr: Trace): (r: seq<Option<Column>>)
    ensures |r| == |a.read| && forall i :: 0 <= i < |r| ==> r[i] == ColumnAt(tr, a.read[i])
  {
    seq(|a.read|, i requires 0 <= i < |a.read| => ColumnAt(tr, a.read[i]))
  }

  /** The same, as it was before the assignment itself was run. */
  ghost function View(a: Assignment, initial: Trace, tr: Trace): (r: seq<Option<Column>>)
    ensures |r| == |a.read|
    ensures forall i :: 0 <= i < |r| ==> r[i] == ColumnAt(if a.read[i] in a.written then initial else tr, a.read[i])
  {
    seq(|a.read|, i requires 0 <= i < |a.read| => ColumnAt(if a.read[i] in a.written then initial else tr, a.read[i]))
  }

  /** The columns written by an assignment are those it computes from the columns it reads. */
  ghost predicate Computes(a: Assignment, initial: Trace, tr: Trace) {
    var cols := a.compute(View(a, initial, tr));
    && cols.Some? && |cols.value| >= |a.written|
    && forall i :: 0 <= i < |a.written| ==> ColumnAt(tr, a.written[i]) == Some(cols.value[i])
  }

  /** All assignments have been computed from each other's results, and nothing else has changed. */
  ghost predicate IsExpansion(pool: multiset<Assignment>, initial: Trace, final: Trace) {
    && Acyclic(pool) && SameShape(final, initial)
    && (forall a :: a in pool ==> Computes(a, initial, final))
    && (forall r :: WrittenBy(pool, r) ==> ColumnAt(initial, r) == None)
    && (forall r :: !WrittenBy(pool, r) ==> ColumnAt(final, r) == ColumnAt(initial, r))
  }

  // ---------------------------------------------------------------------------
  // Results do not depend on the order
  // ---------------------------------------------------------------------------

  ghost predicate WrittenBefore(order: seq<Assignment>, k: nat, r: ColumnRef)
    requires k <= |order|
  {
    exists j :: 0 <= j < k && r in order[j].written
  }

  lemma SameView(a: Assignment, initial: Trace, f: Trace, g: Trace, width: nat)
    requires WellFormed(a, width) && forall r :: DependsOn(a, r) && r !in a.written ==> ColumnAt(f, r) == ColumnAt(g, r)
    ensures View(a, initial, f) == View(a, initial, g)
  {
  }

  /** Two traces in which assignments compute the same from what came before agree on what is written. */
  lemma {:induction false} Agree(order: seq<Assignment>, k: nat, initial: Trace, f: Trace, g: Trace, width: nat)
    requires k <= |order|
    requires forall a :: a in order ==> WellFormed(a, width) && Computes(a, initial, f) && Computes(a, initial, g)
    requires forall i, r :: 0 <= i < |order| && DependsOn(order[i], r) ==>
               WrittenBefore(order, i, r) || ColumnAt(f, r) == ColumnAt(g, r)
    ensures forall r :: WrittenBefore(order, k, r) ==> ColumnAt(f, r) == ColumnAt(g, r)
    decreases k
  {
    if k > 0 {
      Agree(order, k - 1, initial, f, g, width);
      var a := order[k - 1];
      assert a in order;
      SameView(a, initial, f, g, width);
      forall r | WrittenBefore(order, k, r) ensures ColumnAt(f, r) == ColumnAt(g, r) {
        if r in a.written {
          var i :| 0 <= i < |a.written| && a.written[i] == r;
        } else {
          assert WrittenBefore(order, k - 1, r);
        }
      }
    }
  }

  /** There is at most one expansion, so any two runs which get through end in the same trace. */
  lemma ExpansionUnique(pool: multiset<Assignment>, width: nat, initial: Trace, f: Trace, g: Trace)
    requires Schedulable(pool, width) && IsExpansion(pool, initial, f) && IsExpansion(pool, initial, g)
    ensures f == g
  {
    var order: seq<Assignment> :| multiset(order) == pool && InOrder(order);
    assert forall a :: a in order <==> a in multiset(order);
    forall i, r | 0 <= i < |order| && DependsOn(order[i], r)
      ensures WrittenBefore(order, i, r) || ColumnAt(f, r) == ColumnAt(g, r)
    {
      if WrittenBy(pool, r) {
        var a :| a in pool && r in a.written;
        var j :| 0 <= j < |order| && order[j] == a;
        assert j < i;
      }
    }
    Agree(order, |order|, initial, f, g, width);
    forall r ensures ColumnAt(f, r) == ColumnAt(g, r) {
      if WrittenBy(pool, r) {
        var a :| a in pool && r in a.written;
        var j :| 0 <= j < |order| && order[j] == a;
        assert WrittenBefore(order, |order|, r);
      }
    }
    SameColumns(f, g, initial);
  }

  // ---------------------------------------------------------------------------
  // What holds throughout a run
  // ---------------------------------------------------------------------------

  /** A column which nothing done since, nor anything pending, writes. */
  ghost predicate Settled(done: seq<Assignment>, i: nat, pending: multiset<Assignment>, r: ColumnRef) {
    !WrittenBy(pending, r) && forall j :: i <= j < |done| ==> r !in done[j].written
  }

  ghost predicate AllSettled(done: seq<Assignment>, pending: multiset<Assignment>) {
    forall i, r :: 0 <= i < |done| && DependsOn(done[i], r) ==> Settled(done, i, pending, r)
  }

  /**
   * Some assignments are done, others pending. What the former read is final, what they computed is
   * in place, and all other columns are as they were.
   */
  ghost predicate Progress(pool: multiset<Assignment>, initial: Trace, tr: Trace, done: seq<Assignment>,
    pending: multiset<Assignment>) {
    && multiset(done) + pending == pool && SameShape(tr, initial)
    && AllSettled(done, pending)
    && (forall a :: a in done ==> Computes(a, initial, tr))
    && (forall r :: WrittenBefore(done, |done|, r) ==> ColumnAt(initial, r) == None)
    && (forall r :: !WrittenBefore(done, |done|, r) ==> ColumnAt(tr, r) == ColumnAt(initial, r))
  }

  lemma ProgressStarts(pool: multiset<Assignment>, initial: Trace)
    requires SameShape(initial, initial)
    ensures Progress(pool, initial, initial, [], pool)
  {
  }

  /** A run in which nothing is pending any more has expanded the trace. */
  lemma ProgressEnds(pool: multiset<Assignment>, initial: Trace, tr: Trace, done: seq<Assignment>)
    requires Progress(pool, initial, tr, done, multiset{})
    ensures IsExpansion(pool, initial, tr)
  {
    forall i, j, r | 0 <= i < |done| && 0 <= j < |done| && DependsOn(done[i], r) && r in done[j].written ensures j < i {
      assert Settled(done, i, multiset{}, r);
    }
    assert InOrder(done);
    assert multiset(done) == pool;
    assert Acyclic(pool);
    forall a ensures a in pool <==> a in done {
      assert a in multiset(done) <==> a in done;
    }
    forall r ensures WrittenBy(pool, r) <==> WrittenBefore(done, |done|, r) {
      if WrittenBy(pool, r) {
        var a :| a in pool && r in a.written;
        var i :| 0 <= i < |done| && done[i] == a;
      }
    }
  }

  /** What is written by a pending assignment has not been written yet. */
  lemma WrittenLater(pool: multiset<Assignment>, done: seq<Assignment>, pending: multiset<Assignment>,
    a: Assignment, r: ColumnRef)
    requires SingleWriter(pool) && multiset(done) + pending == pool && a in pending && r in a.written
    ensures !WrittenBefore(done, |done|, r)
  {
    assert a in pool && pool[a] == multiset(done)[a] + pending[a];
    forall j | 0 <= j < |done| ensures r !in done[j].written {
      assert done[j] in multiset(done) && done[j] in pool;
    }
  }

  /** Just before an assignment is run, what it sees is its view. */
  lemma ReadsIsView(pool: multiset<Assignment>, initial: Trace, tr: Trace, done: seq<Assignment>,
    pending: multiset<Assignment>, a: Assignment)
    requires SingleWriter(pool) && Progress(pool, initial, tr, done, pending) && a in pending
    ensures Reads(a, tr) == View(a, initial, tr)
    ensures forall r :: r in a.written ==> ColumnAt(tr, r) == ColumnAt(initial, r)
  {
    forall r | r in a.written ensures ColumnAt(tr, r) == ColumnAt(initial, r) {
      WrittenLater(pool, done, pending, a, r);
    }
  }

  /** Running an assignment which is ready makes progress. */
  lemma ProgressStep(
    pool: multiset<Assignment>, width: nat, initial: Trace, tr: Trace, done: seq<Assignment>,
    pending: multiset<Assignment>,
    a: Assignment, cols: seq<Column>)
    requires Schedulable(pool, width) && Progress(pool, initial, tr, done, pending)
    requires a in pending && ReadyAmong(a, pending)
    requires a.compute(Reads(a, tr)) == Some(cols) && Fill(tr, a.written, cols).Some?
    ensures Progress(pool, initial, Fill(tr, a.written, cols).value, done + [a], pending - multiset{a})
  {
    var next, after, rest := Fill(tr, a.written, cols).value, done + [a], pending - multiset{a};
    assert a in pool;
    FillSound(tr, a.written, cols, initial);
    ReadsIsView(pool, initial, tr, done, pending, a);
    SameView(a, initial, tr, next, width);
    assert Computes(a, initial, next);
    forall b | b in done ensures Computes(b, initial, next) {
      DoneStays(pool, width, initial, tr, next, done, pending, a, b);
    }
    hide Computes, View, Reads, Fill, SameShape, AllSettled;
    StillInOrder(done, pending, a);
    forall r ensures WrittenBefore(after, |after|, r) <==> WrittenBefore(done, |done|, r) || r in a.written {
      WrittenSnoc(done, a, r);
    }
  }

  lemma WrittenSnoc(done: seq<Assignment>, a: Assignment, r: ColumnRef)
    ensures WrittenBefore(done + [a], |done| + 1, r) <==> WrittenBefore(done, |done|, r) || r in a.written
  {
    var after := done + [a];
    if WrittenBefore(done, |done|, r) {
      var j :| 0 <= j < |done| && r in done[j].written;
      assert after[j] == done[j];
    }
    if r in a.written {
      assert after[|done|] == a;
    }
  }

  lemma StillInOrder(done: seq<Assignment>, pending: multiset<Assignment>, a: Assignment)
    requires a in pending && ReadyAmong(a, pending)
    requires AllSettled(done, pending)
    ensures AllSettled(done + [a], pending - multiset{a})
  {
    var after, rest := done + [a], pending - multiset{a};
    assert forall b :: b in rest ==> b in pending;
    forall i, r | 0 <= i < |after| && DependsOn(after[i], r) ensures Settled(after, i, rest, r) {
      if i < |done| {
        assert DependsOn(done[i], r) && Settled(done, i, pending, r);
      } else {
        assert !WrittenBy(pending, r);
      }
    }
  }

  lemma DoneStays(
    pool: multiset<Assignment>, width: nat, initial: Trace, tr: Trace, next: Trace,
    done: seq<Assignment>, pending: multiset<Assignment>, a: Assignment, b: Assignment)
    requires Schedulable(pool, width) && Progress(pool, initial, tr, done, pending) && a in pending && b in done
    requires forall r :: r !in a.written ==> ColumnAt(next, r) == ColumnAt(tr, r)
    ensures Computes(b, initial, next)
  {
    assert b in multiset(done) && b in pool;
    var i :| 0 <= i < |done| && done[i] == b;
    forall r | DependsOn(b, r) && r !in b.written ensures ColumnAt(next, r) == ColumnAt(tr, r) {
      assert DependsOn(done[i], r) && Settled(done, i, pending, r);
    }
    SameView(b, initial, tr, next, width);
    assert Computes(b, initial, tr) && View(b, initial, next) == View(b, initial, tr);
    hide View;
    forall r | r in b.written ensures ColumnAt(next, r) == ColumnAt(tr, r) {
      assert WrittenBefore(done, |done|, r);
      if r in a.written {
        WrittenLater(pool, done, pending, a, r);
      }
    }
  }

  /** If there is an expansion at all, then no run ever fails. */
  lemma StepSucceeds(
    pool: multiset<Assignment>, width: nat, initial: Trace, tr: Trace, done: seq<Assignment>,
    pending: multiset<Assignment>,
    a: Assignment, final: Trace)
    requires Schedulable(pool, width) && Progress(pool, initial, tr, done, pending)
    requires a in pending && ReadyAmong(a, pending) && IsExpansion(pool, initial, final)
    ensures a.compute(Reads(a, tr)).Some? && Fill(tr, a.written, a.compute(Reads(a, tr)).value).Some?
  {
    assert a in pool;
    ReadsIsView(pool, initial, tr, done, pending, a);
    SettledColumns(pool, width, initial, tr, done, pending, final);
    forall r | DependsOn(a, r) && r !in a.written ensures ColumnAt(tr, r) == ColumnAt(final, r) {
      assert !WrittenBy(pending, r);
    }
    SameView(a, initial, tr, final, width);
    var cols := a.compute(Reads(a, tr)).value;
    forall i | 0 <= i < |a.written| ensures ColumnAt(tr, a.written[i]) == None {
      assert WrittenBy(pool, a.written[i]);
    }
    forall r | ColumnAt(tr, r).Some? ensures ColumnAt(final, r) == ColumnAt(tr, r) {
      if WrittenBy(pending, r) {
        var b :| b in pending && r in b.written;
        WrittenLater(pool, done, pending, b, r);
        assert b in pool && WrittenBy(pool, r);
      }
    }
    FillSucceeds(tr, a.written, cols, initial, final);
  }

  /** Columns which no pending assignment writes are final. */
  lemma SettledColumns(
    pool: multiset<Assignment>, width: nat, initial: Trace, tr: Trace, done: seq<Assignment>,
    pending: multiset<Assignment>,
    final: Trace)
    requires Schedulable(pool, width) && Progress(pool, initial, tr, done, pending) && IsExpansion(pool, initial, final)
    ensures forall r :: !WrittenBy(pending, r) ==> ColumnAt(tr, r) == ColumnAt(final, r)
  {
    forall r ensures WrittenBy(pool, r) <==> WrittenBy(pending, r) || WrittenBefore(done, |done|, r) {
      WrittenSplit(pool, done, pending, r);
    }
    assert forall a :: a in done ==> a in multiset(done) && a in pool;
    forall i, r | 0 <= i < |done| && DependsOn(done[i], r)
      ensures WrittenBefore(done, i, r) || ColumnAt(tr, r) == ColumnAt(final, r)
    {
      assert Settled(done, i, pending, r);
      if WrittenBefore(done, |done|, r) {
        var j :| 0 <= j < |done| && r in done[j].written;
        assert j < i;
      }
    }
    Agree(done, |done|, initial, tr, final, width);
  }

  lemma WrittenSplit(pool: multiset<Assignment>, done: seq<Assignment>, pending: multiset<Assignment>, r: ColumnRef)
    requires multiset(done) + pending == pool
    ensures WrittenBy(pool, r) <==> WrittenBy(pending, r) || WrittenBefore(done, |done|, r)
  {
    if WrittenBy(pool, r) {
      var a :| a in pool && r in a.written;
      if a !in pending {
        assert a in multiset(done);
        var i :| 0 <= i < |done| && done[i] == a;
      }
    }
    if WrittenBefore(done, |done|, r) {
      var i :| 0 <= i < |done| && r in done[i].written;
      assert done[i] in multiset(done) && done[i] in pool;
    }
  }

  // ---------------------------------------------------------------------------
  // Runs
  // ---------------------------------------------------------------------------

  /** A run either expands the trace, fails on some assignment, or finds that no assignment is ready. */
  datatype Outcome = Expanded(tr: Trace) | Failed | Stuck

  /**
   * What every run promises. An expansion is found whenever there is one. Without cyclic dependencies
   * no run gets stuck, and with them none gets through.
   */
  ghost predicate Correct(pool: multiset<Assignment>, initial: Trace, outcome: Outcome) {
    && (outcome.Expanded? ==> IsExpansion(pool, initial, outcome.tr))
    && (outcome.Failed? ==> !HasExpansion(pool, initial))
    && (outcome.Stuck? ==> !Acyclic(pool))
  }

  ghost predicate HasExpansion(pool: multiset<Assignment>, initial: Trace) {
    exists final :: IsExpansion(pool, initial, final)
  }

  /** All correct runs agree: one expands the trace if and only if the other does, and to the same result. */
  lemma RunsAgree(pool: multiset<Assignment>, width: nat, initial: Trace, x: Outcome, y: Outcome)
    requires Schedulable(pool, width) && Correct(pool, initial, x) && Correct(pool, initial, y)
    ensures x.Expanded? <==> y.Expanded?
    ensures x.Expanded? ==> x == y
    ensures x.Expanded? <==> HasExpansion(pool, initial)
  {
    if x.Expanded? && y.Expanded? {
      ExpansionUnique(pool, width, initial, x.tr, y.tr);
    }
    assert HasExpansion(pool, initial) ==> Acyclic(pool);
  }

  lemma FailureMeans(
    pool: multiset<Assignment>, width: nat, initial: Trace, tr: Trace, done: seq<Assignment>,
    pending: multiset<Assignment>, a: Assignment)
    requires Schedulable(pool, width) && Progress(pool, initial, tr, done, pending)
    requires a in pending && ReadyAmong(a, pending)
    requires a.compute(Reads(a, tr)).None? || Fill(tr, a.written, a.compute(Reads(a, tr)).value).None?
    ensures !HasExpansion(pool, initial)
  {
    if final :| IsExpansion(pool, initial, final) {
      StepSucceeds(pool, width, initial, tr, done, pending, a, final);
    }
  }

  /** An empty batch, although at least one assignment was asked for, means that dependencies are cyclic. */
  lemma EmptyBatchMeans(
    pool: multiset<Assignment>, initial: Trace, tr: Trace, done: seq<Assignment>, was: seq<Assignment>,
    batch: seq<Assignment>, rest: seq<Assignment>, n: nat)
    requires Progress(pool, initial, tr, done, multiset(was)) && was != []
    requires TakesReady(batch, rest, was, n) && batch == [] && n > 0
    ensures !Acyclic(pool)
  {
    if Acyclic(pool) {
      assert was[0] in multiset(was);
      var a := SomeReady(pool, multiset(was));
      NotTaken(batch, rest, was, n, a);
    }
  }

  lemma NotTaken(batch: seq<Assignment>, rest: seq<Assignment>, was: seq<Assignment>, n: nat, a: Assignment)
    requires TakesReady(batch, rest, was, n) && |batch| < n && a in multiset(was) && a !in batch
    ensures !ReadyAmong(a, multiset(was))
  {
    assert a !in multiset(batch) && a in multiset(rest);
    assert a in rest;
  }

  lemma BatchBounded(batch: seq<Assignment>, rest: seq<Assignment>, was: seq<Assignment>, n: nat)
    requires TakesReady(batch, rest, was, n)
    ensures |batch| <= n
  {
  }

  /** Compute one assignment after the other. */
  method SequentialTraceExpansion(width: nat, assignments: seq<Assignment>, tr: Trace) returns (outcome: Outcome)
    requires Schedulable(multiset(assignments), width) && SameShape(tr, tr)
    ensures Correct(multiset(assignments), tr, outcome)
  {
    hide Progress, Correct, IsExpansion, HasExpansion, InWave, Reads, Fill, SameShape, Schedulable,
      TakesReady, Acyclic, ReadyAmong;
    var expander := new Expander(width, assignments);
    var modules := tr;
    ghost var pool, done := multiset(assignments), [];
    ProgressStarts(pool, tr);
    while !expander.Done()
      invariant expander.Valid() && expander.width == width
      invariant Progress(pool, tr, modules, done, multiset(expander.worklist))
      decreases |expander.worklist|
    {
      ghost var was := expander.worklist;
      var batch := expander.Next(1);
      if |batch| == 0 {
        EmptyBatchMeans(pool, tr, modules, done, was, batch, expander.worklist, 1);
        CorrectStuck(pool, tr);
        return Stuck;
      }
      var ith := batch[0];
      SingleTaken(batch, expander.worklist, was);
      var cols := ith.compute(Reads(ith, modules));
      if cols.None? {
        FailureMeans(pool, width, tr, modules, done, multiset(was), ith);
        CorrectFailed(pool, tr);
        return Failed;
      }
      var filled := FillComputedColumns(modules, ith.written, cols.value);
      if filled.None? {
        FailureMeans(pool, width, tr, modules, done, multiset(was), ith);
        CorrectFailed(pool, tr);
        return Failed;
      }
      ProgressStep(pool, width, tr, modules, done, multiset(was), ith, cols.value);
      modules := filled.value;
      done := done + [ith];
    }
    NothingPending(expander.worklist);
    ProgressEnds(pool, tr, modules, done);
    CorrectExpanded(pool, tr, modules);
    return Expanded(modules);
  }

  lemma SingleTaken(batch: seq<Assignment>, rest: seq<Assignment>, was: seq<Assignment>)
    requires TakesReady(batch, rest, was, 1) && |batch| > 0
    ensures batch[0] in multiset(was) && ReadyAmong(batch[0], multiset(was))
    ensures multiset(rest) == multiset(was) - multiset{batch[0]} && |rest| < |was|
  {
    assert batch == [batch[0]];
    assert |multiset(was)| == |multiset(rest)| + 1;
  }

  lemma NothingPending(worklist: seq<Assignment>)
    requires |worklist| == 0
    ensures multiset(worklist) == multiset{}
  {
  }

  lemma CorrectExpanded(pool: multiset<Assignment>, initial: Trace, tr: Trace)
    requires IsExpansion(pool, initial, tr)
    ensures Correct(pool, initial, Expanded(tr))
  {
  }

  lemma CorrectFailed(pool: multiset<Assignment>, initial: Trace)
    requires !HasExpansion(pool, initial)
    ensures Correct(pool, initial, Failed)
  {
  }

  lemma CorrectStuck(pool: multiset<Assignment>, initial: Trace)
    requires !Acyclic(pool)
    ensures Correct(pool, initial, Stuck)
  {
  }

  // ---------------------------------------------------------------------------
  // Waves
  // ---------------------------------------------------------------------------

  /** The columns computed by each assignment of a batch, all of which see the same trace. */
  method ComputeAll(batch: seq<Assignment>, tr: Trace) returns (results: seq<Option<seq<Column>>>)
    ensures |results| == |batch| && forall i :: 0 <= i < |batch| ==> results[i] == batch[i].compute(Reads(batch[i], tr))
  {
    results := [];
    for i := 0 to |batch|
      invariant |results| == i && forall k :: 0 <= k < i ==> results[k] == batch[k].compute(Reads(batch[k], tr))
    {
      results := results + [batch[i].compute(Reads(batch[i], tr))];
    }
  }

  /** What remains to be filled of a wave: its first k assignments are done, and nothing else has changed since. */
  ghost predicate InWave(
    pool: multiset<Assignment>, initial: Trace, start: Trace, tr: Trace, done: seq<Assignment>,
    batch: seq<Assignment>, k: nat, rest: seq<Assignment>, was: seq<Assignment>)
  {
    && k <= |batch|
    && multiset(rest) + multiset(batch) == multiset(was)
    && (forall a :: a in batch ==> ReadyAmong(a, multiset(was)))
    && Progress(pool, initial, tr, done, multiset(batch[k..]) + multiset(rest))
    && (forall r :: !WrittenBefore(batch, k, r) ==> ColumnAt(tr, r) == ColumnAt(start, r))
  }

  lemma WaveStarts(
    pool: multiset<Assignment>, initial: Trace, tr: Trace, done: seq<Assignment>,
    batch: seq<Assignment>, rest: seq<Assignment>, was: seq<Assignment>, n: nat)
    requires Progress(pool, initial, tr, done, multiset(was)) && TakesReady(batch, rest, was, n)
    ensures InWave(pool, initial, tr, tr, done, batch, 0, rest, was)
  {
    assert batch[0..] == batch;
  }

  lemma WaveEnds(
    pool: multiset<Assignment>, initial: Trace, start: Trace, tr: Trace, done: seq<Assignment>,
    batch: seq<Assignment>, rest: seq<Assignment>, was: seq<Assignment>)
    requires InWave(pool, initial, start, tr, done, batch, |batch|, rest, was)
    ensures Progress(pool, initial, tr, done, multiset(rest))
    ensures |batch| > 0 ==> |rest| < |was|
  {
    assert multiset(batch[|batch|..]) + multiset(rest) == multiset(rest);
    assert |multiset(was)| == |multiset(rest)| + |multiset(batch)|;
  }

  /** Within a wave, what an assignment sees is what it saw when the wave started. */
  lemma WaveReads(
    pool: multiset<Assignment>, width: nat, initial: Trace, start: Trace, tr: Trace, done: seq<Assignment>,
    batch: seq<Assignment>, k: nat, rest: seq<Assignment>, was: seq<Assignment>)
    requires Schedulable(pool, width) && multiset(was) <= pool
    requires InWave(pool, initial, start, tr, done, batch, k, rest, was) && k < |batch|
    ensures Reads(batch[k], tr) == Reads(batch[k], start)
    ensures var pending := multiset(batch[k..]) + multiset(rest);
      && batch[k] in pending && ReadyAmong(batch[k], pending)
      && multiset(batch[k + 1..]) + multiset(rest) == pending - multiset{batch[k]}
  {
    WavePending(batch, k, rest, was);
    hide Progress, ReadyAmong, Schedulable;
    forall r | r in batch[k].read ensures ColumnAt(tr, r) == ColumnAt(start, r) {
      OtherWrites(pool, width, batch, k, rest, was, r);
    }
  }

  lemma WavePending(batch: seq<Assignment>, k: nat, rest: seq<Assignment>, was: seq<Assignment>)
    requires k < |batch| && multiset(rest) + multiset(batch) == multiset(was) && ReadyAmong(batch[k], multiset(was))
    ensures var pending := multiset(batch[k..]) + multiset(rest);
      && batch[k] in pending && ReadyAmong(batch[k], pending)
      && multiset(batch[k + 1..]) + multiset(rest) == pending - multiset{batch[k]}
  {
    var a, pending := batch[k], multiset(batch[k..]) + multiset(rest);
    assert batch == batch[..k] + batch[k..] && batch[k..] == [a] + batch[k + 1..];
    assert multiset(batch) == multiset(batch[..k]) + multiset(batch[k..]);
    assert forall b :: b in pending ==> b in multiset(was);
  }

  // Nothing read by an assignment is written by another one of the same wave.
  lemma OtherWrites(
    pool: multiset<Assignment>, width: nat, batch: seq<Assignment>, k: nat, rest: seq<Assignment>,
    was: seq<Assignment>, r: ColumnRef)
    requires Schedulable(pool, width) && multiset(was) <= pool && k < |batch| && r in batch[k].read
    requires multiset(rest) + multiset(batch) == multiset(was) && ReadyAmong(batch[k], multiset(was))
    ensures !WrittenBefore(batch, k, r)
  {
    var a := batch[k];
    assert a in multiset(batch) && a in pool;
    forall j | 0 <= j < k ensures r !in batch[j].written {
      assert batch[j] in multiset(batch) && batch[j] in multiset(was) && batch[j] in pool;
      if r in a.expanded {
        TwiceInBatch(batch, j, k);
        assert pool[a] >= multiset(batch)[a];
      } else {
        assert DependsOn(a, r) && !WrittenBy(multiset(was), r);
      }
    }
  }

  lemma TwiceInBatch(batch: seq<Assignment>, j: nat, k: nat)
    requires j < k < |batch|
    ensures batch[j] == batch[k] ==> multiset(batch)[batch[k]] > 1
  {
    assert batch == batch[..k] + [batch[k]] + batch[k + 1..];
    assert batch[j] in batch[..k];
  }

  lemma WaveStep(
    pool: multiset<Assignment>, width: nat, initial: Trace, start: Trace, tr: Trace, done: seq<Assignment>,
    batch: seq<Assignment>, k: nat, rest: seq<Assignment>, was: seq<Assignment>, cols: seq<Column>)
    requires Schedulable(pool, width) && multiset(was) <= pool
    requires InWave(pool, initial, start, tr, done, batch, k, rest, was) && k < |batch|
    requires batch[k].compute(Reads(batch[k], tr)) == Some(cols) && Fill(tr, batch[k].written, cols).Some?
    ensures InWave(
              pool, initial, start, Fill(tr, batch[k].written, cols).value, done + [batch[k]], batch, k + 1, rest, was)
  {
    var a, next := batch[k], Fill(tr, batch[k].written, cols).value;
    WaveReads(pool, width, initial, start, tr, done, batch, k, rest, was);
    ProgressStep(pool, width, initial, tr, done, multiset(batch[k..]) + multiset(rest), a, cols);
    assert a in multiset(batch) && a in pool;
    FillSound(tr, a.written, cols, initial);
    hide Progress, Reads, Fill, ReadyAmong;
    forall r | !WrittenBefore(batch, k + 1, r) ensures ColumnAt(next, r) == ColumnAt(start, r) {
      assert r !in batch[k].written;
      assert !WrittenBefore(batch, k, r);
    }
  }

  lemma PendingWithin(pool: multiset<Assignment>, initial: Trace, tr: Trace, done: seq<Assignment>,
    was: seq<Assignment>)
    requires Progress(pool, initial, tr, done, multiset(was))
    ensures multiset(was) <= pool
  {
  }

  /** Compute assignments in waves of a given size: all of a wave are computed before any is filled in. */
  method ParallelTraceExpansion(batchsize: nat, width: nat, assignments: seq<Assignment>, tr: Trace)
    returns (outcome: Outcome)
    requires Schedulable(multiset(assignments), width) && SameShape(tr, tr)
    ensures batchsize > 0 ==> Correct(multiset(assignments), tr, outcome)
    ensures batchsize == 0 && assignments != [] ==> outcome == Stuck
  {
    hide Progress, Correct, IsExpansion, HasExpansion, InWave, Reads, Fill, SameShape, Schedulable,
      TakesReady, Acyclic, ReadyAmong;
    var expander := new Expander(width, assignments);
    var modules := tr;
    ghost var pool, done := multiset(assignments), [];
    ProgressStarts(pool, tr);
    while !expander.Done()
      invariant expander.Valid() && expander.width == width
      invariant Progress(pool, tr, modules, done, multiset(expander.worklist))
      invariant batchsize == 0 ==> expander.worklist == assignments
      decreases |expander.worklist|
    {
      ghost var was := expander.worklist;
      var batch := expander.Next(batchsize);
      ghost var rest := expander.worklist;
      BatchBounded(batch, rest, was, batchsize);
      if |batch| == 0 {
        if batchsize > 0 {
          EmptyBatchMeans(pool, tr, modules, done, was, batch, rest, batchsize);
          CorrectStuck(pool, tr);
        }
        return Stuck;
      }
      var results := ComputeAll(batch, modules);
      ghost var start := modules;
      PendingWithin(pool, tr, modules, done, was);
      WaveStarts(pool, tr, modules, done, batch, rest, was, batchsize);
      for k := 0 to |batch|
        invariant InWave(pool, tr, start, modules, done, batch, k, rest, was)
        invariant expander.Valid() && expander.worklist == rest
      {
        WaveReads(pool, width, tr, start, modules, done, batch, k, rest, was);
        if results[k].None? {
          WaveFails(pool, width, tr, start, modules, done, batch, k, rest, was);
          return Failed;
        }
        var filled := FillComputedColumns(modules, batch[k].written, results[k].value);
        if filled.None? {
          WaveFails(pool, width, tr, start, modules, done, batch, k, rest, was);
          return Failed;
        }
        WaveStep(pool, width, tr, start, modules, done, batch, k, rest, was, results[k].value);
        modules := filled.value;
        done := done + [batch[k]];
      }
      WaveEnds(pool, tr, start, modules, done, batch, rest, was);
    }
    NothingPending(expander.worklist);
    ProgressEnds(pool, tr, modules, done);
    CorrectExpanded(pool, tr, modules);
    return Expanded(modules);
  }

  lemma WaveFails(
    pool: multiset<Assignment>, width: nat, initial: Trace, start: Trace, tr: Trace, done: seq<Assignment>,
    batch: seq<Assignment>, k: nat, rest: seq<Assignment>, was: seq<Assignment>)
    requires Schedulable(pool, width) && multiset(was) <= pool
    requires InWave(pool, initial, start, tr, done, batch, k, rest, was) && k < |batch|
    requires var cols := batch[k].compute(Reads(batch[k], start));
             cols.None? || Fill(tr, batch[k].written, cols.value).None?
    ensures Correct(pool, initial, Failed)
  {
    WaveReads(pool, width, initial, start, tr, done, batch, k, rest, was);
    FailureMeans(pool, width, initial, tr, done, multiset(batch[k..]) + multiset(rest), batch[k]);
  }
}
