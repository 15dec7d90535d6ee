// The scheduler: which assignments are ready to run, given those which have been run already.
module Assignments {
  import opened Options
  import opened ColumnRefs
  import opened TraceModules

  /**
   * Something which computes columns from others. What is computed depends on nothing but the columns
   * read; no result at all stands for an error.
   */
  datatype Assignment = Assignment(
    read: seq<ColumnRef>,
    written: seq<ColumnRef>,
    expanded: seq<ColumnRef>,
    compute: seq<Option<Column>> -> Option<seq<Column>>)

  /** An assignment which can be scheduled: columns are written once, and include those it expands. */
  ghost predicate WellFormed(a: Assignment, width: nat) {
    && (forall r :: r in a.read || r in a.written || r in a.expanded ==> r.mid < width)
    && (forall i, j :: 0 <= i < j < |a.written| ==> a.written[i] != a.written[j])
    && (forall r :: r in a.expanded ==> r in a.written)
  }

  /** No two assignments write the same column. */
  ghost predicate SingleWriter(pool: multiset<Assignment>) {
    && (forall a, b, r :: a in pool && b in pool && r in a.written && r in b.written ==> a == b)
    && (forall a :: pool[a] > 1 ==> a.written == [])
  }

  ghost predicate Schedulable(pool: multiset<Assignment>, width: nat) {
    SingleWriter(pool) && forall a :: a in pool ==> WellFormed(a, width)
  }

  ghost predicate WrittenBy(pool: multiset<Assignment>, r: ColumnRef) {
    exists a :: a in pool && r in a.written
  }

  /** Columns which an assignment must wait for, unless they are already there. */
  ghost predicate DependsOn(a: Assignment, r: ColumnRef) {
    r in a.read && r !in a.expanded
  }

  /** An assignment which waits for nothing that is still to be written. */
  ghost predicate ReadyAmong(a: Assignment, pool: multiset<Assignment>) {
    forall r :: DependsOn(a, r) ==> !WrittenBy(pool, r)
  }

  /** An assignment may read what is still to be written provided it expands that itself, and nothing else. */
  lemma ReadyIff(a: Assignment, pool: multiset<Assignment>)
    ensures ReadyAmong(a, pool) <==>
            forall b, r :: b in pool && r in b.written && r in a.read ==> r in a.expanded
  {
    if forall b, r :: b in pool && r in b.written && r in a.read ==> r in a.expanded {
      forall r | DependsOn(a, r) ensures !WrittenBy(pool, r) {
      }
    }
    if ReadyAmong(a, pool) {
      forall b, r | b in pool && r in b.written && r in a.read ensures r in a.expanded {
        assert WrittenBy(pool, r);
      }
    }
  }

  /** An order in which every assignment comes after those it depends upon. */
  ghost predicate InOrder(order: seq<Assignment>) {
    forall i, j, r :: 0 <= i < |order| && 0 <= j < |order| && DependsOn(order[i], r) && r in order[j].written ==> j < i
  }

  /** Dependencies are acyclic when the assignments can be put into such an order. */
  ghost predicate Acyclic(pool: multiset<Assignment>) {
    exists order: seq<Assignment> :: multiset(order) == pool && InOrder(order)
  }

  /** Without cyclic dependencies there is always an assignment which is ready. */
  lemma SomeReady(pool: multiset<Assignment>, remaining: multiset<Assignment>) returns (a: Assignment)
    requires Acyclic(pool) && remaining <= pool && remaining != multiset{}
    ensures a in remaining && ReadyAmong(a, remaining)
  {
    var order: seq<Assignment> :| multiset(order) == pool && InOrder(order);
    var b :| b in remaining;
    assert b in multiset(order);
    var k := EarliestRemaining(order, remaining, 0);
    a := order[k];
    forall r | DependsOn(a, r) ensures !WrittenBy(remaining, r) {
      forall c | c in remaining ensures r !in c.written {
        assert c in multiset(order);
        var j :| 0 <= j < |order| && order[j] == c;
        assert k <= j;
      }
    }
  }

  lemma EarliestRemaining(order: seq<Assignment>, remaining: multiset<Assignment>, i: nat) returns (k: nat)
    requires i <= |order| && forall j :: 0 <= j < i ==> order[j] !in remaining
    requires exists a :: a in remaining && a in order
    ensures k < |order| && order[k] in remaining && forall j :: 0 <= j < k ==> order[j] !in remaining
    decreases |order| - i
  {
    var a :| a in remaining && a in order;
    var j :| 0 <= j < |order| && order[j] == a;
    assert i <= j;
    if order[i] in remaining {
      k := i;
    } else {
      k := EarliestRemaining(order, remaining, i + 1);
    }
  }
}

module Scheduling {
  import opened ColumnRefs
  import opened Assignments

  /** The numbers of some columns. */
  function Indices(refs: seq<ColumnRef>, width: nat): set<nat> {
    set r | r in refs :: Index(r, width)
  }

  function AllWritten(pool: seq<Assignment>, width: nat): (s: set<nat>)
    ensures forall i :: i in s <==> exists a :: a in pool && i in Indices(a.written, width)
  {
    if pool == [] then {} else Indices(pool[0].written, width) + AllWritten(pool[1..], width)
  }

  lemma AllWrittenSnoc(pool: seq<Assignment>, i: nat, width: nat)
    requires i < |pool|
    ensures AllWritten(pool[..i + 1], width) == AllWritten(pool[..i], width) + Indices(pool[i].written, width)
  {
    assert pool[..i + 1] == pool[..i] + [pool[i]];
  }

  /** Insert the numbers of some columns into a set. */
  method InsertIndices(refs: seq<ColumnRef>, width: nat, s: set<nat>) returns (t: set<nat>)
    ensures t == s + Indices(refs, width)
  {
    t := s;
    for j := 0 to |refs|
      invariant t == s + Indices(refs[..j], width)
    {
      t := t + {Index(refs[j], width)};
      assert refs[..j + 1] == refs[..j] + [refs[j]];
    }
    assert refs[..|refs|] == refs;
  }

  /** Mark every column which is written by an assignment. */
  method MarkWritten(assignments: seq<Assignment>, width: nat) returns (marked: set<nat>)
    ensures marked == AllWritten(assignments, width)
  {
    marked := {};
    for i := 0 to |assignments|
      invariant marked == AllWritten(assignments[..i], width)
    {
      marked := InsertIndices(assignments[i].written, width, marked);
      AllWrittenSnoc(assignments, i, width);
    }
    assert assignments[..|assignments|] == assignments;
  }

  /** Mark every column which is expanded by an assignment. */
  method MarkExpanded(assignments: seq<Assignment>, width: nat) returns (marked: set<nat>)
    ensures forall a, r :: a in assignments && r in a.expanded ==> Index(r, width) in marked
  {
    marked := {};
    for i := 0 to |assignments|
      invariant forall k, r :: 0 <= k < i && r in assignments[k].expanded ==> Index(r, width) in marked
    {
      marked := InsertIndices(assignments[i].expanded, width, marked);
    }
  }

  method RemoveIndices(refs: seq<ColumnRef>, width: nat, s: set<nat>) returns (t: set<nat>)
    ensures t == s - Indices(refs, width)
  {
    t := s;
    for j := 0 to |refs|
      invariant t == s - Indices(refs[..j], width)
    {
      t := t - {Index(refs[j], width)};
      assert refs[..j + 1] == refs[..j] + [refs[j]];
    }
    assert refs[..|refs|] == refs;
  }

  /** Whether no column read is marked as not ready, those being expanded aside. */
  ghost predicate Unmarked(a: Assignment, width: nat, notReady: set<nat>, expanding: set<nat>) {
    forall r :: r in a.read && Index(r, width) in notReady ==> Index(r, width) in expanding && r in a.expanded
  }

  datatype Marks = Marks(width: nat, notReady: set<nat>, expanding: set<nat>)

  /** The first m assignments remain, of which the first i are not ready; those in the batch are. */
  ghost predicate Partitioned(worklist: seq<Assignment>, batch: seq<Assignment>, i: nat, m: nat,
    was: seq<Assignment>, s: Marks) {
    && i <= m <= |worklist|
    && multiset(worklist[..m]) + multiset(batch) == multiset(was)
    && (forall a :: a in batch ==> Unmarked(a, s.width, s.notReady, s.expanding))
    && (forall j :: 0 <= j < i ==> !Unmarked(worklist[j], s.width, s.notReady, s.expanding))
  }

  lemma PartitionTake(worklist: seq<Assignment>, batch: seq<Assignment>, i: nat, m: nat, was: seq<Assignment>, s: Marks)
    requires Partitioned(worklist, batch, i, m, was, s) && i < m
    requires Unmarked(worklist[i], s.width, s.notReady, s.expanding)
    ensures Partitioned(worklist[i := worklist[m - 1]], batch + [worklist[i]], i, m - 1, was, s)
  {
    hide Unmarked;
    SwapRemoved(worklist, i, m);
  }

  lemma PartitionSkip(worklist: seq<Assignment>, batch: seq<Assignment>, i: nat, m: nat, was: seq<Assignment>, s: Marks)
    requires Partitioned(worklist, batch, i, m, was, s) && i < m
    requires !Unmarked(worklist[i], s.width, s.notReady, s.expanding)
    ensures Partitioned(worklist, batch, i + 1, m, was, s)
  {
  }

  lemma PartitionStart(worklist: seq<Assignment>, s: Marks)
    ensures Partitioned(worklist, [], 0, |worklist|, worklist, s)
  {
    assert worklist[..|worklist|] == worklist;
  }

  lemma PartitionEnd(worklist: seq<Assignment>, batch: seq<Assignment>, i: nat, m: nat,
    was: seq<Assignment>, n: nat, s: Marks)
    requires Partitioned(worklist, batch, i, m, was, s) && |batch| <= n && (|batch| < n ==> i == m)
    ensures TakesUnmarked(batch, worklist[..m], was, n, s)
  {
  }

  /** Some of the unmarked assignments were taken out of a worklist, or all of them if fewer than n. */
  ghost predicate TakesUnmarked(batch: seq<Assignment>, rest: seq<Assignment>, was: seq<Assignment>, n: nat, s: Marks) {
    && |batch| <= n && multiset(rest) + multiset(batch) == multiset(was)
    && (forall a :: a in batch ==> Unmarked(a, s.width, s.notReady, s.expanding))
    && (|batch| < n ==> forall a :: a in rest ==> !Unmarked(a, s.width, s.notReady, s.expanding))
  }

  /** Some of the ready assignments were taken out of a worklist, or all of them if fewer than n. */
  ghost predicate TakesReady(batch: seq<Assignment>, rest: seq<Assignment>, was: seq<Assignment>, n: nat) {
    && |batch| <= n && multiset(rest) + multiset(batch) == multiset(was)
    && (forall a :: a in batch ==> ReadyAmong(a, multiset(was)))
    && (|batch| < n ==> forall a :: a in rest ==> !ReadyAmong(a, multiset(was)))
  }

  class Expander {
    const width: nat
    var worklist: seq<Assignment>
    var notReady: set<nat>
    var expanding: set<nat>

    ghost predicate Valid()
      reads this
    {
      && Schedulable(multiset(worklist), width)
      && notReady == AllWritten(worklist, width)
      && (forall a, r :: a in worklist && r in a.expanded ==> Index(r, width) in expanding)
    }

    constructor (width: nat, assignments: seq<Assignment>)
      requires Schedulable(multiset(assignments), width)
      ensures Valid() && worklist == assignments && this.width == width
    {
      this.width := width;
      worklist := assignments;
      new;
      notReady := MarkWritten(assignments, width);
      expanding := MarkExpanded(assignments, width);
    }

    predicate Done()
      reads this
    {
      |worklist| == 0
    }

    /** Whether a column is expanded by an assignment on the worklist. */
    predicate IsExpandedBy(ref: ColumnRef, i: nat)
      requires i < |worklist|
      reads this
    {
      Index(ref, width) in expanding && ref in worklist[i].expanded
    }

    method IsReady(i: nat) returns (r: bool)
      requires i < |worklist|
      ensures r <==> Unmarked(worklist[i], width, notReady, expanding)
    {
      var read := worklist[i].read;
      for j := 0 to |read|
        invariant forall k :: 0 <= k < j && Index(read[k], width) in notReady ==> IsExpandedBy(read[k], i)
      {
        if Index(read[j], width) in notReady && !IsExpandedBy(read[j], i) {
          assert read[j] in worklist[i].read;
          return false;
        }
      }
      return true;
    }

    /** Swap up to n unmarked assignments out of the worklist, and truncate it. */
    method TakeUnmarked(n: nat) returns (batch: seq<Assignment>)
      modifies this`worklist
      ensures TakesUnmarked(batch, worklist, old(worklist), n, Marks(width, notReady, expanding))
    {
      hide *;
      batch := [];
      var m, left, i := |worklist|, n, 0;
      ghost var was, marks := worklist, Marks(width, notReady, expanding);
      PartitionStart(was, marks);
      while i < m && left > 0
        invariant 0 <= i <= m <= |worklist| && |batch| + left == n
        invariant Partitioned(worklist, batch, i, m, was, marks)
        decreases m - i
      {
        var ready := IsReady(i);
        if ready {
          PartitionTake(worklist, batch, i, m, was, marks);
          batch := batch + [worklist[i]];
          m := m - 1;
          left := left - 1;
          worklist := worklist[i := worklist[m]];
        } else {
          PartitionSkip(worklist, batch, i, m, was, marks);
          i := i + 1;
        }
      }
      PartitionEnd(worklist, batch, i, m, was, n, marks);
      worklist := worklist[..m];
    }

    /** Update our notion of which columns are ready. */
    method MarkReady(batch: seq<Assignment>)
      modifies this`notReady
      ensures notReady == old(notReady) - AllWritten(batch, width)
    {
      hide AllWritten, Indices;
      NothingWritten(batch, width);
      for k := 0 to |batch|
        invariant notReady == old(notReady) - AllWritten(batch[..k], width)
      {
        notReady := RemoveIndices(batch[k].written, width, notReady);
        AllWrittenSnoc(batch, k, width);
      }
      assert batch[..|batch|] == batch;
    }

    /** Take at most n assignments which are ready off the worklist. (Where there are none, the scheduler gives up.) */
    method Next(n: nat) returns (batch: seq<Assignment>)
      requires Valid()
      modifies this
      ensures Valid() && TakesReady(batch, worklist, old(worklist), n)
    {
      ghost var was, marks := worklist, Marks(width, notReady, expanding);
      assert forall a, r :: a in was && r in a.expanded ==> Index(r, width) in expanding;
      batch := TakeUnmarked(n);
      hide AllWritten, Schedulable, TakesUnmarked, TakesReady;
      UnmarkedAreReady(batch, worklist, was, n, marks);
      MarkReady(batch);
      StillWritten(was, batch, worklist, width);
      StillExpanding(was, batch, worklist, width, expanding);
    }
  }

  lemma StillExpanding(was: seq<Assignment>, batch: seq<Assignment>, worklist: seq<Assignment>, width: nat,
    expanding: set<nat>)
    requires multiset(worklist) + multiset(batch) == multiset(was)
    requires forall a, r :: a in was && r in a.expanded ==> Index(r, width) in expanding
    ensures forall a, r :: a in worklist && r in a.expanded ==> Index(r, width) in expanding
  {
    SameElements(worklist, batch, was);
  }

  lemma UnmarkedAreReady(batch: seq<Assignment>, rest: seq<Assignment>, was: seq<Assignment>, n: nat, s: Marks)
    requires TakesUnmarked(batch, rest, was, n, s)
    requires Schedulable(multiset(was), s.width) && s.notReady == AllWritten(was, s.width)
    requires forall a, r :: a in was && r in a.expanded ==> Index(r, s.width) in s.expanding
    ensures TakesReady(batch, rest, was, n) && multiset(rest) + multiset(batch) == multiset(was)
  {
    SameElements(rest, batch, was);
    forall a | a in was ensures Unmarked(a, s.width, s.notReady, s.expanding) <==> ReadyAmong(a, multiset(was)) {
      UnmarkedMeans(was, s.width, a, s.expanding);
    }
  }

  lemma SameElements(worklist: seq<Assignment>, batch: seq<Assignment>, was: seq<Assignment>)
    requires multiset(worklist) + multiset(batch) == multiset(was)
    ensures forall a :: a in was <==> a in worklist || a in batch
  {
    forall a ensures a in was <==> a in worklist || a in batch {
      assert a in was <==> a in multiset(was);
      assert a in worklist <==> a in multiset(worklist);
      assert a in batch <==> a in multiset(batch);
    }
  }

  /** A number is marked exactly when the column it stands for is still to be written. */
  lemma NotReadyMeans(worklist: seq<Assignment>, width: nat, a: Assignment, r: ColumnRef)
    requires Schedulable(multiset(worklist), width) && a in worklist && r in a.read
    ensures Index(r, width) in AllWritten(worklist, width) <==> WrittenBy(multiset(worklist), r)
  {
    assert a in multiset(worklist);
    if Index(r, width) in AllWritten(worklist, width) {
      var b :| b in worklist && Index(r, width) in Indices(b.written, width);
      var s :| s in b.written && Index(s, width) == Index(r, width);
      assert b in multiset(worklist);
      IndexInjective(r, s, width);
    }
  }

  /** With all numbers marked which are to be written, being unmarked is being ready. */
  lemma UnmarkedMeans(worklist: seq<Assignment>, width: nat, a: Assignment, expanding: set<nat>)
    requires Schedulable(multiset(worklist), width) && a in worklist
    requires forall r :: r in a.expanded ==> Index(r, width) in expanding
    ensures Unmarked(a, width, AllWritten(worklist, width), expanding)
            <==> ReadyAmong(a, multiset(worklist))
  {
    forall r | r in a.read
      ensures Index(r, width) in AllWritten(worklist, width) <==> WrittenBy(multiset(worklist), r)
    {
      NotReadyMeans(worklist, width, a, r);
    }
  }

  lemma NothingWritten(pool: seq<Assignment>, width: nat)
    ensures AllWritten(pool[..0], width) == {}
  {
  }

  /** Once the columns of a batch are no longer marked, those still marked are written by what remains. */
  lemma StillWritten(was: seq<Assignment>, batch: seq<Assignment>, worklist: seq<Assignment>, width: nat)
    requires Schedulable(multiset(was), width) && multiset(worklist) + multiset(batch) == multiset(was)
    ensures AllWritten(was, width) - AllWritten(batch, width) == AllWritten(worklist, width)
    ensures Schedulable(multiset(worklist), width)
  {
    SameElements(worklist, batch, was);
    SubpoolSchedulable(multiset(was), multiset(worklist), width);
    forall i ensures i in AllWritten(was, width) - AllWritten(batch, width) <==> i in AllWritten(worklist, width) {
      if i in AllWritten(worklist, width) {
        WrittenOnce(was, batch, worklist, width, i);
      }
    }
  }

  lemma SubpoolSchedulable(pool: multiset<Assignment>, some: multiset<Assignment>, width: nat)
    requires Schedulable(pool, width) && some <= pool
    ensures Schedulable(some, width)
  {
  }

  lemma WrittenOnce(was: seq<Assignment>, batch: seq<Assignment>, worklist: seq<Assignment>, width: nat, i: nat)
    requires Schedulable(multiset(was), width) && multiset(worklist) + multiset(batch) == multiset(was)
    requires i in AllWritten(worklist, width)
    ensures i !in AllWritten(batch, width)
  {
    var a :| a in worklist && i in Indices(a.written, width);
    var r :| r in a.written && Index(r, width) == i;
    assert a in multiset(worklist) && a in multiset(was);
    assert multiset(was)[a] == multiset(worklist)[a] + multiset(batch)[a];
    assert a !in batch by {
      assert a in batch <==> a in multiset(batch);
    }
    forall b, s | b in batch && s in b.written ensures Index(s, width) != i {
      assert b in multiset(batch) && b in multiset(was);
      assert r !in b.written;
      if Index(s, width) == i {
        IndexInjective(r, s, width);
      }
    }
  }

  lemma SwapRemoved(worklist: seq<Assignment>, i: nat, m: nat)
    requires i < m <= |worklist|
    ensures multiset(worklist[i := worklist[m - 1]][..m - 1]) + multiset{worklist[i]} == multiset(worklist[..m])
  {
    var swapped := worklist[i := worklist[m - 1]][..m - 1];
    if i == m - 1 {
      assert swapped == worklist[..m - 1];
      assert worklist[..m] == worklist[..m - 1] + [worklist[i]];
    } else {
      var last := worklist[m - 1];
      assert worklist[..m] == worklist[..i] + [worklist[i]] + worklist[i + 1..m - 1] + [last];
      assert swapped == worklist[..i] + [last] + worklist[i + 1..m - 1];
    }
  }
}
