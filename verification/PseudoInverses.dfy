// Filling the inverse registers of a module, so that the constraints placed upon them hold.
module PseudoInverses {
  import opened Options
  import opened Congruence
  import opened PrimeField
  import opened BatchInversion
  import opened Tables
  import opened Terms
  import opened Builders
  import opened Packing
  import opened Modules

  /** The values of an expression on each row of a table. */
  ghost function Values(p: Prime, e: Term, tb: Table): seq<nat> {
    seq(tb.height, i => Eval(e, Row(p, tb, i)))
  }

  /** The pseudo-inverse of an expression on each row of a table. */
  ghost function InverseColumn(p: Prime, e: Term, tb: Table): seq<nat> {
    Inverses(p, Values(p, e, tb))
  }

  /** Compute the pseudo-inverse of an expression on all rows, with a single field inversion. */
  method Invert(p: Prime, e: Term, ghost sc: Scope, tb: Table) returns (data: array<nat>)
    requires Shaped(e, sc) && sc.p == p && sc.regs <= tb.registers && tb.Valid(p)
    ensures fresh(data) && data[..] == InverseColumn(p, e, tb)
  {
    data := new nat[tb.height];
    for i := 0 to tb.height
      invariant forall k :: 0 <= k < i ==> data[k] == Eval(e, Row(p, tb, k)) && IsElement(p, data[k])
    {
      data[i] := EvalAt(e, sc, Row(p, tb, i));
    }
    assert data[..] == Values(p, e, tb);
    BatchInvert(p, data);
  }

  /** A table with one more register, holding the pseudo-inverse of an expression. */
  ghost function WithInverse(p: Prime, e: Term, tb: Table): Table {
    Table(tb.registers + [INVERSE_REGISTER], tb.height, tb.columns + [Some(InverseColumn(p, e, tb))])
  }

  lemma WithInverseValid(p: Prime, e: Term, sc: Scope, tb: Table)
    requires Shaped(e, sc) && sc.p == p && sc.regs <= tb.registers && tb.Valid(p)
    ensures WithInverse(p, e, tb).Valid(p)
  {
    var wide := WithInverse(p, e, tb);
    forall r | 0 <= r < |wide.registers| ensures wide.ColumnValid(p, wide.registers[r], wide.columns[r]) {
      if r < |tb.registers| {
        assert tb.ColumnValid(p, tb.registers[r], tb.columns[r]);
      } else {
        forall i | 0 <= i < tb.height ensures IsElement(p, Inverse(p, Values(p, e, tb)[i])) {
          EvalIsElement(e, sc, Row(p, tb, i));
        }
      }
    }
  }

  /** One table extends another when it has further registers, and the same cells for those they share. */
  ghost predicate TableExtends(tb: Table, wide: Table) {
    tb.registers <= wide.registers && tb.columns <= wide.columns && tb.height == wide.height
  }

  lemma {:induction false} EvalExtended(t: Term, sc: Scope, p: Prime, tb: Table, wide: Table, k: int)
    requires Shaped(t, sc) && sc.p == p && sc.regs <= tb.registers && tb.Valid(p)
    requires TableExtends(tb, wide) && wide.Valid(p)
    ensures Eval(t, Row(p, wide, k)) == Eval(t, Row(p, tb, k))
    decreases t, 0
  {
    match t
    case Constant(_) =>
    case RegisterAccess(_, _, _) =>
    case Add(args) => EvalAllExtended(args, sc, p, tb, wide, k);
    case Sub(args) =>
      EvalExtended(args[0], sc, p, tb, wide, k);
      EvalAllExtended(args[1..], sc, p, tb, wide, k);
    case Mul(args) => EvalAllExtended(args, sc, p, tb, wide, k);
  }

  lemma {:induction false} EvalAllExtended(ts: seq<Term>, sc: Scope, p: Prime, tb: Table, wide: Table, k: int)
    requires AllShaped(ts, sc) && sc.p == p && sc.regs <= tb.registers && tb.Valid(p)
    requires TableExtends(tb, wide) && wide.Valid(p)
    ensures SumOf(ts, Row(p, wide, k)) == SumOf(ts, Row(p, tb, k))
    ensures ProductOf(ts, Row(p, wide, k)) == ProductOf(ts, Row(p, tb, k))
    decreases ts, 1
  {
    if ts != [] {
      EvalExtended(ts[0], sc, p, tb, wide, k);
      EvalAllExtended(ts[1..], sc, p, tb, wide, k);
    }
  }

  lemma AcceptsExtended(t: Term, sc: Scope, p: Prime, tb: Table, wide: Table)
    requires Shaped(t, sc) && sc.p == p && sc.regs <= tb.registers && tb.Valid(p)
    requires TableExtends(tb, wide) && wide.Valid(p)
    ensures Accepts(p, t, wide) <==> Accepts(p, t, tb)
  {
    forall k ensures Eval(t, Row(p, wide, k)) == Eval(t, Row(p, tb, k)) {
      EvalExtended(t, sc, p, tb, wide, k);
    }
  }

  /** A column filled with pseudo-inverses satisfies the constraint which demands them. */
  lemma InverseAccepted(p: Prime, a: PseudoInverse, tb: Table)
    requires tb.Valid(p) && a.target == |tb.registers|
    requires Shaped(a.expr, Scope(p, tb.registers, BoundsOf(a.expr)))
    ensures WithInverse(p, a.expr, tb).Valid(p)
    ensures Accepts(p, InverseProof(a), WithInverse(p, a.expr, tb))
  {
    var e, wide := a.expr, WithInverse(p, a.expr, tb);
    var narrow, sc := Scope(p, tb.registers, BoundsOf(e)), Scope(p, wide.registers, BoundsOf(e));
    WithInverseValid(p, e, narrow, tb);
    ShapedWiden(e, narrow, sc);
    forall k | BoundsOf(InverseProof(a)).Covers(k, tb.height) ensures Eval(InverseProof(a), Row(p, wide, k)) == 0 {
      EvalExtended(e, narrow, p, tb, wide, k);
      assert Eval(FieldAccess(a.target), Row(p, wide, k)) == Inverse(p, Values(p, e, tb)[k]);
      InverseProofVanishes(a, sc, Row(p, wide, k));
    }
  }

  lemma InverseProofVanishes(a: PseudoInverse, sc: Scope, at: Row)
    requires Shaped(a.expr, sc) && at.Over(sc)
    requires a.target < |sc.regs| && sc.regs[a.target] == INVERSE_REGISTER
    requires Eval(FieldAccess(a.target), at) == Inverse(at.p, Eval(a.expr, at))
    ensures Eval(InverseProof(a), at) == 0
  {
    var ie := FieldAccess(a.target);
    var e_ie := Product([a.expr, ie]);
    var gap := Subtract([Constant(1), e_ie]);
    ProductOfTwo(a.expr, ie, sc, at);
    SubtractShaped([Constant(1), e_ie], sc);
    SubtractVanishes(Constant(1), e_ie, sc, at);
    ProductOfTwo(a.expr, gap, sc, at);
    EvalIsElement(a.expr, sc, at);
    if Eval(a.expr, at) != 0 {
      SmallModulus(at.p, Eval(a.expr, at));
      BezoutInverts(at.p, Eval(a.expr, at));
      assert Eval(gap, at) == 0;
    }
    SmallModulus(at.p, 0);
  }

  // ---------------------------------------------------------------------------
  // All inverse registers of a module
  // ---------------------------------------------------------------------------

  /** A table for the source registers of a module, completed with its first n inverse registers. */
  ghost function Completed(p: Prime, m: Module, tb: Table, n: nat): Table
    requires n <= |m.assignments|
  {
    if n == 0 then tb else
      var before := Completed(p, m, tb, n - 1);
      WithInverse(p, m.assignments[n - 1].expr, before)
  }

  /** The first n inverse registers of a module are present and satisfy their proofs. */
  ghost predicate InversesUpTo(p: Prime, m: Module, tb: Table, n: nat)
    requires n <= |m.assignments| <= |m.registers|
  {
    && tb.Valid(p) && tb.registers == m.registers[..SourceWidth(m) + n]
    && forall i :: 0 <= i < n ==> Accepts(p, InverseProof(m.assignments[i]), tb)
  }

  /** Any trace of the source registers can be completed, such that all inverses hold. */
  lemma {:induction false} CompletedHolds(p: Prime, m: Module, tb: Table, n: nat)
    requires ModuleValid(p, m) && n <= |m.assignments|
    requires tb.Valid(p) && tb.registers == m.registers[..SourceWidth(m)]
    ensures InversesUpTo(p, m, Completed(p, m, tb, n), n) && TableExtends(tb, Completed(p, m, tb, n))
    decreases n
  {
    hide *;
    if n == 0 {
      CompletedNone(p, m, tb);
    } else {
      CompletedStep(p, m, tb, n);
      CompletedHolds(p, m, tb, n - 1);
      WithInverseExtends(p, m.assignments[n - 1].expr, tb, Completed(p, m, tb, n - 1));
      CompletedNext(p, m, Completed(p, m, tb, n - 1), n - 1);
    }
  }

  lemma CompletedNone(p: Prime, m: Module, tb: Table)
    requires ModuleValid(p, m) && tb.Valid(p) && tb.registers == m.registers[..SourceWidth(m)]
    ensures Completed(p, m, tb, 0) == tb && InversesUpTo(p, m, tb, 0) && TableExtends(tb, tb)
  {
  }

  lemma CompletedStep(p: Prime, m: Module, tb: Table, n: nat)
    requires 0 < n <= |m.assignments|
    ensures Completed(p, m, tb, n) == WithInverse(p, m.assignments[n - 1].expr, Completed(p, m, tb, n - 1))
  {
  }

  lemma WithInverseExtends(p: Prime, e: Term, tb: Table, wide: Table)
    requires TableExtends(tb, wide)
    ensures TableExtends(tb, WithInverse(p, e, wide))
  {
  }

  lemma CompletedNext(p: Prime, m: Module, before: Table, n: nat)
    requires ModuleValid(p, m) && n < |m.assignments| && InversesUpTo(p, m, before, n)
    ensures InversesUpTo(p, m, WithInverse(p, m.assignments[n].expr, before), n + 1)
  {
    hide Accepts, InverseProof, Shaped, BoundsOf, Inverses, InverseColumn;
    var a, wide := m.assignments[n], WithInverse(p, m.assignments[n].expr, before);
    assert AssignmentValid(p, m, a);
    InverseAccepted(p, a, before);
    forall i | 0 <= i < n ensures Accepts(p, InverseProof(m.assignments[i]), wide) {
      InverseProofShaped(p, m, m.assignments[i], n);
      var sc := Scope(p, before.registers, BoundsOf(m.assignments[i].expr));
      AcceptsExtended(InverseProof(m.assignments[i]), sc, p, before, wide);
    }
  }

  lemma InverseProofShaped(p: Prime, m: Module, a: PseudoInverse, n: nat)
    requires ModuleValid(p, m) && n <= |m.assignments| && a in m.assignments[..n]
    ensures Shaped(InverseProof(a), Scope(p, m.registers[..SourceWidth(m) + n], BoundsOf(a.expr)))
  {
    var regs := m.registers[..SourceWidth(m) + n];
    var i :| 0 <= i < n && m.assignments[i] == a;
    assert AssignmentValid(p, m, a);
    var sc := Scope(p, regs, BoundsOf(a.expr));
    ShapedWiden(a.expr, sc.(regs := m.registers[..a.target]), sc);
    ProductShaped([a.expr, FieldAccess(a.target)], sc);
    SubtractShaped([Constant(1), Product([a.expr, FieldAccess(a.target)])], sc);
    ProductShaped([a.expr, Subtract([Constant(1), Product([a.expr, FieldAccess(a.target)])])], sc);
  }

  // ---------------------------------------------------------------------------
  // Inverses on every row
  // ---------------------------------------------------------------------------

  /** A register holds the inverse of an expression on every row, be that defined there or not. */
  ghost predicate Filled(p: Prime, a: PseudoInverse, tb: Table) {
    forall k: int :: 0 <= k < tb.height ==>
      Eval(FieldAccess(a.target), Row(p, tb, k)) == Inverse(p, Eval(a.expr, Row(p, tb, k)))
  }

  /** A trace whose inverse registers have been filled, rather than merely being constrained. */
  ghost predicate InversesFilled(p: Prime, m: Module, tb: Table) {
    tb.Valid(p) && m.registers <= tb.registers && forall a :: a in m.assignments ==> Filled(p, a, tb)
  }

  lemma InversesFilledBefore(p: Prime, m: Module, n: Module, tb: Table)
    requires InversesFilled(p, n, tb) && Extends(m, n)
    ensures InversesFilled(p, m, tb)
  {
    assert forall a :: a in m.assignments ==> a in n.assignments;
  }

  lemma FilledExtended(p: Prime, a: PseudoInverse, tb: Table, wide: Table)
    requires Filled(p, a, tb) && tb.Valid(p) && wide.Valid(p) && TableExtends(tb, wide)
    requires a.target < |tb.registers| && tb.registers[a.target] == INVERSE_REGISTER
    requires Shaped(a.expr, Scope(p, tb.registers, BoundsOf(a.expr)))
    ensures Filled(p, a, wide)
  {
    var sc := Scope(p, tb.registers, BoundsOf(a.expr));
    forall k: int | 0 <= k < wide.height
      ensures Eval(FieldAccess(a.target), Row(p, wide, k)) == Inverse(p, Eval(a.expr, Row(p, wide, k)))
    {
      EvalExtended(a.expr, sc, p, tb, wide, k);
      EvalExtended(FieldAccess(a.target), sc, p, tb, wide, k);
    }
  }

  lemma FilledNext(p: Prime, a: PseudoInverse, tb: Table)
    requires tb.Valid(p) && a.target == |tb.registers|
    requires Shaped(a.expr, Scope(p, tb.registers, BoundsOf(a.expr)))
    ensures Filled(p, a, WithInverse(p, a.expr, tb))
  {
    var sc, wide := Scope(p, tb.registers, BoundsOf(a.expr)), WithInverse(p, a.expr, tb);
    WithInverseValid(p, a.expr, sc, tb);
    forall k: int | 0 <= k < wide.height
      ensures Eval(FieldAccess(a.target), Row(p, wide, k)) == Inverse(p, Eval(a.expr, Row(p, wide, k)))
    {
      EvalExtended(a.expr, sc, p, tb, wide, k);
      assert Eval(FieldAccess(a.target), Row(p, wide, k)) == Inverse(p, Values(p, a.expr, tb)[k]);
    }
  }

  /** Completing a trace fills all of its inverse registers. */
  lemma {:induction false} CompletedFilled(p: Prime, m: Module, tb: Table, n: nat)
    requires ModuleValid(p, m) && n <= |m.assignments|
    requires tb.Valid(p) && tb.registers == m.registers[..SourceWidth(m)]
    ensures forall i :: 0 <= i < n ==> Filled(p, m.assignments[i], Completed(p, m, tb, n))
    decreases n
  {
    hide Filled, Shaped, BoundsOf, WithInverse, InverseProof, Accepts;
    if n > 0 {
      var before, wide := Completed(p, m, tb, n - 1), Completed(p, m, tb, n);
      CompletedFilled(p, m, tb, n - 1);
      CompletedHolds(p, m, tb, n - 1);
      CompletedHolds(p, m, tb, n);
      var last := m.assignments[n - 1];
      assert AssignmentValid(p, m, last);
      FilledNext(p, last, before);
      WithInverseExtends(p, last.expr, before, before);
      forall i | 0 <= i < n - 1 ensures Filled(p, m.assignments[i], wide) {
        var a := m.assignments[i];
        assert AssignmentValid(p, m, a);
        ShapedWiden(a.expr, Scope(p, m.registers[..a.target], BoundsOf(a.expr)),
                    Scope(p, before.registers, BoundsOf(a.expr)));
        FilledExtended(p, a, before, wide);
      }
    }
  }
}
