// What constraints say about the cells of a table.
module Columns {
  import opened Options
  import opened Congruence
  import opened PrimeField
  import opened Intervals
  import opened Tables
  import opened Terms
  import opened Builders
  import opened Ranges
  import opened Simplify
  import opened Logic
  import opened LogicProperties
  import opened Expansion
  import opened TermLowering
  import opened ExactFolding
  import opened Modules
  import opened Normalisation
  import opened Lowerability
  import opened PseudoInverses
  import opened Reaches
  import opened Pieces
  import opened RowTests
  import opened AirLowering
  import opened Alignments

  lemma AccessAccepted(st: Setting, x: Term, v: nat)
    requires x.RegisterAccess? && -MAX_INT <= x.shift <= MAX_INT && IsElement(st.p, v)
    requires x.register < |st.regs| && x.bitwidth == st.regs[x.register].width
    ensures Accepted(st, Equal(x, Constant(v))) && CoreOf(st.p, Equal(x, Constant(v))) == Equal(x, Constant(v))
  {
    AccessFolds(st.p, x, v);
  }

  lemma AccessFolds(p: Prime, x: Term, v: nat)
    requires x.RegisterAccess?
    ensures FoldsExactly(p, Difference(x, Constant(v)))
  {
    var c := Constant(v);
    assert LowerTerm(x) == x && LowerTerm(c) == c;
    assert [x, c][1..] == [c] && [c, x][1..] == [x];
    SingleOperand(c);
    SingleOperand(x);
    SimplifySingle(p, x);
  }

  lemma AccessAligned(st: Setting, x: Term, v: nat)
    requires x.RegisterAccess?
    requires st.Valid() && Accepted(st, Equal(x, Constant(v)))
    requires CoreOf(st.p, Equal(x, Constant(v))) == Equal(x, Constant(v))
    ensures Aligned(st, Equal(x, Constant(v)))
  {
    assert LowerTerm(x) == x && LowerTerm(Constant(v)) == Constant(v);
    SubtractReach(st.p, x, Constant(v));
    SubtractReach(st.p, Constant(v), x);
    LeavesAlignTests(st, Equal(x, Constant(v)));
  }

  /**
   * A table satisfies that a register of any width, read any number of rows ahead or behind, equals a
   * constant if and only if all cells so read do: those which are as many rows from either end.
   */
  lemma ColumnSatisfies(st: Setting, x: Term, v: nat, tb: Table, cells: seq<nat>)
    requires x.RegisterAccess? && tb.Valid(st.p) && x.register < |tb.registers| && tb.columns[x.register] == Some(cells)
    ensures Satisfies(st.p, Everywhere(Equal(x, Constant(v))), tb) <==>
            forall i :: x.shift <= i < |cells| + x.shift && 0 <= i < |cells| ==> cells[i] == v
  {
    var e, h, s := Equal(x, Constant(v)), |cells|, x.shift;
    var b := BoundsOfLogical(e);
    assert tb.ColumnValid(st.p, tb.registers[x.register], tb.columns[x.register]);
    forall k | b.Covers(k, h) ensures 0 <= k + s < h && (Holds(e, Row(st.p, tb, k)) <==> cells[k + s] == v) {
      AccessEval(st.p, tb, x.register, x.bitwidth, s, k);
    }
    if Satisfies(st.p, Everywhere(e), tb) {
      forall i | s <= i < h + s && 0 <= i < h ensures cells[i] == v {
        assert TestedOn(None, b, i - s, tb.height);
      }
    }
  }

  /** The same for the row of a local constraint, which counts from the end if it is negative. */
  lemma CellSatisfies(st: Setting, d: int, x: Term, v: nat, tb: Table, cells: seq<nat>)
    requires x.RegisterAccess? && tb.Valid(st.p) && x.register < |tb.registers| && tb.columns[x.register] == Some(cells)
    ensures var i := (if d < 0 then |cells| + d else d) + x.shift;
            Satisfies(st.p, Vanishing(Some(d), Equal(x, Constant(v))), tb) <==>
            v == if 0 <= i < |cells| then cells[i] else tb.registers[x.register].padding
  {
    var e, k := Equal(x, Constant(v)), if d < 0 then |cells| + d else d;
    assert tb.ColumnValid(st.p, tb.registers[x.register], tb.columns[x.register]);
    AccessEval(st.p, tb, x.register, x.bitwidth, x.shift, k);
    assert TestedOn(Some(d), BoundsOfLogical(e), k, tb.height);
  }

  /**
   * From a constraint on a column to the cells of an accepted trace: whatever it is lowered to, a
   * completed trace is accepted if and only if those cells have the value asked for.
   */
  lemma ColumnDecided(st: Setting, m: Module, tss: seq<seq<Term>>, x: Term, v: nat, tb: Table, cells: seq<nat>)
    requires x.RegisterAccess? && -MAX_INT <= x.shift <= MAX_INT && IsElement(st.p, v)
    requires x.register < |st.regs| && x.bitwidth == st.regs[x.register].width
    requires st.Valid() && tb.Valid(st.p) && tb.registers == st.regs && tb.columns[x.register] == Some(cells)
    requires ModuleLowers(st, m, [Everywhere(Equal(x, Constant(v)))], tss)
    ensures AllObeyed(st.p, m.constraints, Completed(st.p, m, tb, |m.assignments|)) <==>
            forall i :: x.shift <= i < |cells| + x.shift && 0 <= i < |cells| ==> cells[i] == v
  {
    hide ModuleLowers, AllObeyed, Accepted, Passes, Satisfies, Table.Valid, Aligned;
    var c := Everywhere(Equal(x, Constant(v)));
    AccessAccepted(st, x, v);
    AccessAligned(st, x, v);
    LoweringDecidesDirect(st, m, [c], tss, tb);
    assert [c][0] == c;
    assert Asked(st, c, tb) <==> Satisfies(st.p, c, tb);
    ColumnSatisfies(st, x, v, tb, cells);
  }

  // ---------------------------------------------------------------------------
  // A conditional constraint, whose lowering takes an inverse
  // ---------------------------------------------------------------------------

  /** If x is 0 then y has a given value; otherwise, nothing is said. */
  function Implication(x: Term, y: Term, v: nat): Logical {
    Ite(Equal(x, Constant(0)), Some(Equal(y, Constant(v))), None)
  }

  function ImplicationCore(x: Term, y: Term, v: nat): Logical {
    Disjunct([NotEqual(x, Constant(0)), Equal(y, Constant(v))])
  }

  lemma ImplicationExpanded(p: Prime, x: Term, y: Term, v: nat)
    requires x.RegisterAccess? && y.RegisterAccess?
    ensures Expand(true, Implication(x, y, v)) == ImplicationCore(x, y, v)
    ensures CoreOf(p, Implication(x, y, v)) == ImplicationCore(x, y, v)
    ensures LogicalFoldsExactly(p, ImplicationCore(x, y, v))
  {
    var a, b := NotEqual(x, Constant(0)), Equal(y, Constant(v));
    assert [Disjunction([a, b])] + [] == [Disjunct([a, b])];
    assert Expand(true, Implication(x, y, v)) == Disjunct([a, b]);
    assert [a, b][1..] == [b] && [b][1..] == [];
    assert SimplifyLogicals(p, [b]) == [b] && SimplifyLogicals(p, [a, b]) == [a, b];
    DisjunctsKept(a, b);
    assert AllFoldExactly(p, [b]) && AllFoldExactly(p, [a, b]);
  }

  lemma DisjunctsKept(a: Logical, b: Logical)
    requires !a.Disjunct? && !b.Disjunct?
    ensures FlattenDisjuncts([a, b]) == [a, b] && RemoveAll([a, b], FALSE) == [a, b]
  {
    assert [a, b][1..] == [b] && [b][1..] == [];
    assert FlattenDisjuncts([]) == [] && RemoveAll([], FALSE) == [];
    assert FlattenDisjuncts([b]) == [b] && RemoveAll([b], FALSE) == [b];
  }

  // A register compared with 0 is taken as it is, or negated if it has no bits at all.
  lemma DifferenceFromZero(x: Term)
    requires x.RegisterAccess?
    ensures Difference(x, Constant(0)) == x || Difference(x, Constant(0)) == Sub([Constant(0), x])
  {
    SingleOperand(Constant(0));
    SingleOperand(x);
    assert [x, Constant(0)][1..] == [Constant(0)] && [Constant(0), x][1..] == [x];
    assert LowerTerm(x) == x && LowerTerm(Constant(0)) == Constant(0);
  }

  predicate Plain(t: Term) {
    t.RegisterAccess? || (t.Sub? && |t.args| == 2 && t.args[0] == Constant(0) && t.args[1].RegisterAccess?)
  }

  lemma PlainKept(p: Prime, t: Term, shift: int)
    requires Plain(t)
    ensures Plain(ApplyShift(t, shift)) && FoldsExactly(p, t) && SimplifyTerm(p, t) == t && Reads(t)
    ensures !t.Constant? && !t.Add? && !t.Mul?
  {
    if t.Sub? {
      var x := t.args[1];
      assert t.args == [Constant(0), x] && t.args[1..] == [x];
      assert x in t.args && Reads(x);
      SimplifySingle(p, x);
      assert [x][1..] == [] && SimplifyAll(p, [x]) == [x];
      MergeSingle(FoldSum(p, [x], 0), x);
      SingleOperand(x);
      assert SimplifySum(p, [x]) == x;
      ShiftedPair(Constant(0), x, shift);
    }
  }

  lemma ShiftedPair(a: Term, b: Term, shift: int)
    ensures ApplyShift(Sub([a, b]), shift) == Sub([ApplyShift(a, shift), ApplyShift(b, shift)])
  {
    assert [a, b][1..] == [b] && [b][1..] == [];
    assert ApplyShiftAll([b], shift) == [ApplyShift(b, shift)];
  }

  lemma AccessRange(x: Term)
    requires x.RegisterAccess?
    ensures RangeOf(x).Proper() && RangeOf(x).Contains(0) && RangeOf(Constant(0)) == Exactly(0)
  {
  }

  lemma PlainRange(t: Term)
    requires Plain(t)
    ensures RangeOf(t).Proper()
  {
    hide RangeOf;
    if t.Sub? {
      var x := t.args[1];
      assert t == Sub([Constant(0), x]);
      AccessRange(x);
      RangeOfDifference(Constant(0), x);
      MinusSound(Exactly(0), RangeOf(x), 0, 0);
    } else {
      AccessRange(t);
    }
  }

  lemma AccessInvertible(cfg: Config, p: Prime, x: Term)
    requires x.RegisterAccess?
    ensures InequalityExact(cfg, p, Difference(x, Constant(0)))
  {
    DifferenceFromZero(x);
    PlainInvertible(cfg, p, Difference(x, Constant(0)));
  }

  lemma PlainInvertible(cfg: Config, p: Prime, d: Term)
    requires Plain(d)
    ensures InequalityExact(cfg, p, d)
  {
    hide Plain, RangeOf, FoldsExactly, SimplifyTerm, ApplyShift, NormalisingShift, Product, Subtract, Reads;
    var s := NormalisingShift(cfg, d);
    PlainKept(p, d, -s);
    PlainKept(p, ApplyShift(d, -s), s);
    PlainKept(p, ApplyShift(ApplyShift(d, -s), s), 0);
    PlainRange(d);
    OneMinusExact(p, d);
    SquareExact(p, d);
  }

  lemma ImplicationAccepted(st: Setting, x: Term, y: Term, v: nat)
    requires x.RegisterAccess? && x.shift == 0 && x.register < |st.regs| && x.bitwidth == st.regs[x.register].width
    requires y.RegisterAccess? && y.shift == 0 && y.register < |st.regs| && y.bitwidth == st.regs[y.register].width
    requires IsElement(st.p, v) && st.Valid()
    ensures Accepted(st, Implication(x, y, v)) && Aligned(st, Implication(x, y, v))
  {
    ImplicationExpanded(st.p, x, y, v);
    ImplicationLowerable(st, x, y, v);
    SmallModulus(st.p, 0);
    ImplicationBounds(x, y, v);
    hide Lowerable, CoreOf, Expand, LogicalFoldsExactly, BoundsOfLogical;
    assert LogicalShaped(Implication(x, y, v), st.Within(EMPTY_BOUND));
    UnshiftedAligned(st, Implication(x, y, v));
  }

  lemma ImplicationLowerable(st: Setting, x: Term, y: Term, v: nat)
    requires x.RegisterAccess? && y.RegisterAccess?
    ensures Lowerable(st.config, st.p, ImplicationCore(x, y, v))
  {
    AccessInvertible(st.config, st.p, x);
    AccessFolds(st.p, y, v);
    hide InequalityExact, Difference, FoldsExactly;
    var a, b := NotEqual(x, Constant(0)), Equal(y, Constant(v));
    assert Lowerable(st.config, st.p, a) && Lowerable(st.config, st.p, b);
  }

  lemma ImplicationBounds(x: Term, y: Term, v: nat)
    requires x.RegisterAccess? && x.shift == 0 && y.RegisterAccess? && y.shift == 0
    ensures BoundsOfLogical(Implication(x, y, v)) == EMPTY_BOUND
  {
  }

  lemma ImplicationSatisfies(
    p: Prime, x: Term, y: Term, v: nat, tb: Table, xs: seq<nat>, ys: seq<nat>)
    requires x.RegisterAccess? && x.shift == 0 && y.RegisterAccess? && y.shift == 0 && tb.Valid(p)
    requires x.register < |tb.registers| && tb.columns[x.register] == Some(xs)
    requires y.register < |tb.registers| && tb.columns[y.register] == Some(ys)
    ensures |xs| == |ys| == tb.height
    ensures Satisfies(p, Everywhere(Implication(x, y, v)), tb) <==>
            forall i :: 0 <= i < |xs| && xs[i] == 0 ==> ys[i] == v
  {
    var e := Implication(x, y, v);
    assert tb.ColumnValid(p, tb.registers[x.register], tb.columns[x.register]);
    assert tb.ColumnValid(p, tb.registers[y.register], tb.columns[y.register]);
    forall k | 0 <= k < |xs| ensures Holds(e, Row(p, tb, k)) <==> (xs[k] == 0 ==> ys[k] == v) {
      AccessEval(p, tb, x.register, x.bitwidth, 0, k);
      AccessEval(p, tb, y.register, y.bitwidth, 0, k);
    }
    assert BoundsOfLogical(e) == EMPTY_BOUND;
    if Satisfies(p, Everywhere(e), tb) {
      forall i | 0 <= i < |xs| && xs[i] == 0 ensures ys[i] == v {
        assert TestedOn(None, EMPTY_BOUND, i, tb.height);
      }
    }
  }

  /**
   * From if-then to the cells of an accepted trace: whatever it is lowered to under any settings, a
   * completed trace is accepted if and only if y has the given value on each row on which x is 0.
   */
  lemma ImplicationDecided(st: Setting, m: Module, tss: seq<seq<Term>>, x: Term, y: Term, v: nat,
    tb: Table, xs: seq<nat>, ys: seq<nat>)
    requires x.RegisterAccess? && x.shift == 0 && x.register < |st.regs| && x.bitwidth == st.regs[x.register].width
    requires y.RegisterAccess? && y.shift == 0 && y.register < |st.regs| && y.bitwidth == st.regs[y.register].width
    requires IsElement(st.p, v) && st.Valid() && tb.Valid(st.p) && tb.registers == st.regs
    requires tb.columns[x.register] == Some(xs) && tb.columns[y.register] == Some(ys)
    requires ModuleLowers(st, m, [Everywhere(Implication(x, y, v))], tss)
    ensures |xs| == |ys|
    ensures AllObeyed(st.p, m.constraints, Completed(st.p, m, tb, |m.assignments|)) <==>
            forall i :: 0 <= i < |xs| && xs[i] == 0 ==> ys[i] == v
  {
    hide ModuleLowers, AllObeyed, Accepted, Passes, Satisfies, Table.Valid, Aligned, Implication;
    var c := Everywhere(Implication(x, y, v));
    ImplicationAccepted(st, x, y, v);
    LoweringDecidesDirect(st, m, [c], tss, tb);
    assert [c][0] == c;
    assert Asked(st, c, tb) <==> Satisfies(st.p, c, tb);
    ImplicationSatisfies(st.p, x, y, v, tb, xs, ys);
  }
}
