// Conjunctions of equalities, and how they are simplified in place.
module Conjunctions {
  import opened SortedSets
  import opened Equalities

  /** A sorted set of atoms which are neither trivially true nor trivially false. */
  ghost predicate Clause(atoms: seq<Equality>) {
    Sorted(Cmp, atoms) && forall a :: a in atoms ==> Proper(a)
  }

  /** Conjunctions with the same meaning. */
  ghost predicate Same(xs: seq<Equality>, ys: seq<Equality>) {
    forall env: Env :: AllHold(xs, env) <==> AllHold(ys, env)
  }

  ghost predicate Satisfiable(atoms: seq<Equality>) {
    exists env: Env :: AllHold(atoms, env)
  }

  // ---------------------------------------------------------------------------
  // What every step of simplification keeps
  // ---------------------------------------------------------------------------

  ghost predicate Safe(atoms: seq<Equality>, n: nat) {
    forall a :: a in atoms ==> WellFormed(a) && Below(a, n) && !Is(a, false)
  }

  /** Not everything is about to vanish: some equality is proper, or there are no trivial atoms at all. */
  ghost predicate Anchored(atoms: seq<Equality>) {
    (exists a :: a in atoms && a.sign && Proper(a)) || (forall a :: a in atoms ==> Proper(a))
  }

  function Inequalities(atoms: seq<Equality>): nat {
    if atoms == [] then 0 else Inequality(atoms[0]) + Inequalities(atoms[1..])
  }

  function Distances(atoms: seq<Equality>, n: nat): nat {
    if atoms == [] then 0 else Distance(atoms[0], n) + Distances(atoms[1..], n)
  }

  ghost predicate Smaller(xs: seq<Equality>, ys: seq<Equality>, n: nat) {
    || Inequalities(xs) < Inequalities(ys)
    || (Inequalities(xs) == Inequalities(ys) && Distances(xs, n) < Distances(ys, n))
  }

  lemma {:induction false} UpdateTotals(atoms: seq<Equality>, i: nat, c: Equality, n: nat)
    requires i < |atoms|
    ensures Inequalities(atoms[i := c]) == Inequalities(atoms) - Inequality(atoms[i]) + Inequality(c)
    ensures Distances(atoms[i := c], n) == Distances(atoms, n) - Distance(atoms[i], n) + Distance(c, n)
  {
    var next := atoms[i := c];
    if i == 0 {
      assert next[1..] == atoms[1..];
    } else {
      UpdateTotals(atoms[1..], i - 1, c, n);
      assert next[1..] == atoms[1..][i - 1 := c];
    }
  }

  lemma StepAnchored(atoms: seq<Equality>, i: nat, j: nat, n: nat)
    requires i < |atoms| && j < |atoms| && i != j && Safe(atoms, n) && Anchored(atoms)
    requires !Is(CloseOver(atoms[i], atoms[j]), false)
    ensures Anchored(atoms[i := CloseOver(atoms[i], atoms[j])])
  {
    var c := CloseOver(atoms[i], atoms[j]);
    var next := atoms[i := c];
    assert next[i] == c && next[j] == atoms[j];
    CloseOverProper(atoms[i], atoms[j]);
    if a :| a in atoms && a.sign && Proper(a) {
      var k :| 0 <= k < |atoms| && atoms[k] == a;
      assert next[k] in next && next[k].sign && Proper(next[k]);
    } else {
      assert Proper(c) by {
        assert atoms[i] in atoms && atoms[j] in atoms;
      }
      assert forall a :: a in next ==> a == c || a in atoms;
    }
  }

  /** Each rewrite preserves the meaning of a conjunction and brings it closer to being closed. */
  lemma Step(atoms: seq<Equality>, i: nat, j: nat, n: nat)
    requires i < |atoms| && j < |atoms| && i != j && Safe(atoms, n) && Anchored(atoms)
    requires !Is(CloseOver(atoms[i], atoms[j]), false)
    ensures var c := CloseOver(atoms[i], atoms[j]);
            var next := atoms[i := c];
      && Safe(next, n) && Anchored(next) && Same(next, atoms)
      && (c != atoms[i] ==> Smaller(next, atoms, n))
  {
    var c := CloseOver(atoms[i], atoms[j]);
    CloseOverProgress(atoms[i], atoms[j], n);
    StepAnchored(atoms, i, j, n);
    UpdateTotals(atoms, i, c, n);
    forall env: Env ensures AllHold(atoms[i := c], env) <==> AllHold(atoms, env) {
      CloseOverPreserves(atoms, i, j, env);
    }
  }

  /** A contradiction between two atoms refutes the conjunction. */
  lemma Contradiction(atoms: seq<Equality>, i: nat, j: nat)
    requires i < |atoms| && j < |atoms| && i != j && Is(CloseOver(atoms[i], atoms[j]), false)
    ensures !Satisfiable(atoms)
  {
    var next := atoms[i := CloseOver(atoms[i], atoms[j])];
    forall env: Env ensures !AllHold(atoms, env) {
      CloseOverPreserves(atoms, i, j, env);
      assert next[i] in next && !Holds(next[i], env);
    }
  }

  // A bound on the variables of a conjunction.
  ghost function VarBound(atoms: seq<Equality>): (n: nat)
    ensures forall a :: a in atoms ==> Below(a, n)
  {
    if atoms == [] then 0
    else
      var rest := VarBound(atoms[1..]);
      assert forall a :: a in atoms ==> a == atoms[0] || a in atoms[1..];
      var left := if atoms[0].left >= rest then atoms[0].left + 1 else rest;
      if atoms[0].right.Var? && atoms[0].right.id >= left then atoms[0].right.id + 1 else left
  }

  // ---------------------------------------------------------------------------
  // Removing what has become trivial
  // ---------------------------------------------------------------------------

  function WithoutTruths(atoms: seq<Equality>): (r: seq<Equality>)
    ensures forall a :: a in r <==> a in atoms && !Is(a, true)
  {
    if atoms == [] then []
    else if Is(atoms[0], true) then WithoutTruths(atoms[1..])
    else [atoms[0]] + WithoutTruths(atoms[1..])
  }

  lemma TidyUp(atoms: seq<Equality>, n: nat)
    requires Safe(atoms, n) && Anchored(atoms) && Closed(atoms)
    ensures var r := SortedSet(Cmp, WithoutTruths(atoms));
            Clause(r) && Closed(r) && Same(r, atoms) && (r == [] <==> atoms == [])
  {
    var kept := WithoutTruths(atoms);
    var r := SortedSet(Cmp, kept);
    SortedSetOf(kept);
    hide SortedSet, Sorted;
    forall i, j | 0 <= i < |r| && 0 <= j < |r| ensures CloseOver(r[i], r[j]) == r[i] {
      ClosedPair(atoms, r[i], r[j]);
    }
    hide CloseOver;
    forall env: Env ensures AllHold(r, env) <==> AllHold(atoms, env) {
      assert forall a :: a in atoms ==> a in r || Is(a, true);
    }
    assert atoms != [] ==> exists a :: a in atoms && Proper(a) by {
      assert atoms != [] ==> atoms[0] in atoms;
    }
    if a :| a in atoms && Proper(a) {
      assert a in r;
    }
    assert r != [] ==> r[0] in r;
  }

  lemma SortedSetOf(atoms: seq<Equality>)
    ensures Sorted(Cmp, SortedSet(Cmp, atoms)) && forall a :: a in SortedSet(Cmp, atoms) <==> a in atoms
  {
    CmpIsOrder();
    InsertAllSorts(Cmp, [], atoms);
  }

  // ---------------------------------------------------------------------------
  // Simplification
  // ---------------------------------------------------------------------------

  /** What simplification keeps up, relative to the conjunction it started from. */
  ghost predicate Kept(atoms: seq<Equality>, was: seq<Equality>, n: nat) {
    |atoms| == |was| && Safe(atoms, n) && Anchored(atoms) && Same(atoms, was)
  }

  lemma StepKept(atoms: seq<Equality>, was: seq<Equality>, i: nat, j: nat, n: nat)
    requires i < |atoms| && j < |atoms| && i != j && Kept(atoms, was, n)
    requires !Is(CloseOver(atoms[i], atoms[j]), false)
    ensures var c := CloseOver(atoms[i], atoms[j]);
            Kept(atoms[i := c], was, n) && (c != atoms[i] ==> Smaller(atoms[i := c], atoms, n))
  {
    Step(atoms, i, j, n);
  }

  lemma KeptDecides(atoms: seq<Equality>, was: seq<Equality>, n: nat)
    requires Kept(atoms, was, n)
    ensures Satisfiable(atoms) <==> Satisfiable(was)
    ensures Closed(atoms) ==> Satisfiable(atoms)
  {
    if Closed(atoms) {
      ClosedSatisfiable(atoms);
    }
  }

  // The i-th atom is unaffected by others, or by the first n of them.
  predicate RowClosedUpTo(atoms: seq<Equality>, i: nat, n: nat)
    requires i < |atoms|
  {
    forall k :: 0 <= k < |atoms| && k < n && k != i ==> CloseOver(atoms[i], atoms[k]) == atoms[i]
  }

  predicate RowClosed(atoms: seq<Equality>, i: nat)
    requires i < |atoms|
  {
    RowClosedUpTo(atoms, i, |atoms|)
  }

  lemma RowsClosed(atoms: seq<Equality>)
    requires forall i :: 0 <= i < |atoms| ==> RowClosed(atoms, i)
    ensures Closed(atoms)
  {
    forall i, j | 0 <= i < |atoms| && 0 <= j < |atoms| && i != j ensures CloseOver(atoms[i], atoms[j]) == atoms[i] {
      assert RowClosed(atoms, i);
    }
  }

  lemma RowClosedNext(atoms: seq<Equality>, i: nat, j: nat)
    requires i < |atoms| && j < |atoms| && RowClosedUpTo(atoms, i, j)
    requires i == j || Cmp(atoms[i], CloseOver(atoms[i], atoms[j])) == 0
    ensures RowClosedUpTo(atoms, i, j + 1)
  {
  }

  lemma RowClosedStart(atoms: seq<Equality>, i: nat)
    requires i < |atoms|
    ensures RowClosedUpTo(atoms, i, 0)
  {
  }

  lemma CmpDiffers(a: Equality, b: Equality)
    requires Cmp(a, b) != 0
    ensures a != b
  {
  }

  lemma KeptLength(atoms: seq<Equality>, was: seq<Equality>, n: nat)
    requires Kept(atoms, was, n)
    ensures |atoms| == |was|
  {
  }

  lemma ChangeMeansOpen(atoms: seq<Equality>, i: nat, j: nat)
    requires i < |atoms| && j < |atoms| && i != j && Cmp(atoms[i], CloseOver(atoms[i], atoms[j])) != 0
    ensures !Closed(atoms)
  {
  }

  lemma SmallerTransitive(xs: seq<Equality>, ys: seq<Equality>, zs: seq<Equality>, n: nat)
    requires Smaller(xs, ys, n) && Smaller(ys, zs, n)
    ensures Smaller(xs, zs, n)
  {
  }

  class Conjunction {
    var atoms: seq<Equality>

    constructor (atoms: seq<Equality>)
      ensures this.atoms == atoms
    {
      this.atoms := atoms;
    }

    /** Close one atom over all others, which may refute the conjunction. */
    method CloseRow(i: nat, ghost was: seq<Equality>, ghost n: nat) returns (ok: bool, changed: bool)
      requires i < |atoms| && Kept(atoms, was, n)
      modifies this
      ensures !ok ==> !Satisfiable(was)
      ensures ok ==> Kept(atoms, was, n)
      ensures ok && changed ==> Smaller(atoms, old(atoms), n) && !Closed(old(atoms))
      ensures ok && !changed ==> atoms == old(atoms) && RowClosed(atoms, i)
    {
      hide Kept, Closed, CloseOver, Is, Satisfiable, Smaller, RowClosedUpTo;
      changed := false;
      assert RowClosedUpTo(atoms, i, 0) by { RowClosedStart(atoms, i); }
      for j := 0 to |atoms|
        invariant |atoms| == |old(atoms)| && Kept(atoms, was, n)
        invariant changed ==> Smaller(atoms, old(atoms), n) && !Closed(old(atoms))
        invariant !changed ==> atoms == old(atoms) && RowClosedUpTo(atoms, i, j)
      {
        if i != j {
          var ci := atoms[i];
          var cij := CloseOver(ci, atoms[j]);
          if Is(cij, false) {
            Contradiction(atoms, i, j);
            KeptDecides(atoms, was, n);
            return false, changed;
          } else if Cmp(ci, cij) != 0 {
            StepKept(atoms, was, i, j, n);
            CmpDiffers(ci, cij);
            if changed {
              SmallerTransitive(atoms[i := cij], atoms, old(atoms), n);
            } else {
              ChangeMeansOpen(atoms, i, j);
            }
            atoms := atoms[i := cij];
            changed := true;
          }
        }
        if !changed {
          RowClosedNext(atoms, i, j);
        }
      }
      return true, changed;
    }

    /**
     * Close all atoms over each other until nothing changes. This decides the conjunction over the
     * integers: false is returned exactly when no assignment satisfies it.
     */
    method Simplify() returns (ok: bool)
      requires Clause(atoms)
      modifies this
      ensures ok <==> Satisfiable(old(atoms))
      ensures ok ==> Clause(atoms) && Closed(atoms) && Same(atoms, old(atoms)) && (atoms == [] <==> old(atoms) == [])
      ensures ok && Closed(old(atoms)) ==> atoms == old(atoms)
    {
      ghost var n := VarBound(atoms);
      assert Kept(atoms, atoms, n);
      var done, changed := false, false;
      while !done
        invariant Kept(atoms, old(atoms), n)
        invariant done ==> Closed(atoms)
        invariant !changed ==> atoms == old(atoms)
        invariant changed ==> !Closed(old(atoms))
        decreases Inequalities(atoms), Distances(atoms, n), if done then 0 else 1
      {
        hide Kept, Closed, CloseOver, Clause, Is, Satisfiable, RowClosed;
        done := true;
        ghost var before := atoms;
        for i := 0 to |atoms|
          invariant |atoms| == |before| && Kept(atoms, old(atoms), n)
          invariant done ==> atoms == before && forall k :: 0 <= k < i ==> RowClosed(atoms, k)
          invariant !done ==> changed && Smaller(atoms, before, n)
          invariant !changed ==> atoms == old(atoms)
          invariant changed ==> !Closed(old(atoms))
        {
          KeptLength(atoms, old(atoms), n);
          var row, c := CloseRow(i, old(atoms), n);
          if !row {
            return false;
          }
          KeptLength(atoms, old(atoms), n);
          if c {
            changed := true;
            done := false;
          }
        }
        if done {
          RowsClosed(atoms);
        }
      }
      KeptDecides(atoms, old(atoms), n);
      if changed {
        TidyUp(atoms, n);
        atoms := SortedSet(Cmp, WithoutTruths(atoms));
      }
      return true;
    }
  }
}
