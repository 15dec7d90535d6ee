// Which constraints are tested on exactly the rows on which they are defined.

/** A criterion on the equalities and inequalities of a constraint. */
module Alignments {
  import opened Options
  import opened Congruence
  import opened PrimeField
  import opened Tables
  import opened Terms
  import opened Builders
  import opened Simplify
  import opened Logic
  import opened LogicProperties
  import opened Expansion
  import opened Packing
  import opened TermLowering
  import opened Modules
  import opened Normalisation
  import opened Lowerability
  import opened PseudoInverses
  import opened Outlines
  import opened Reaches
  import opened Pieces
  import opened PieceMeanings
  import opened RowTests
  import opened Realisations
  import opened AirLowering

  /** Whether each equality and inequality, and each packet of checks, reaches equally far. */
  predicate LeavesAlign(st: Setting, e: Logical, b: Bounds)
    decreases Size(e), 0
  {
    match e
    case Equal(l, r) => Reach(st.p, Difference(l, r)) == b
    case NotEqual(l, r) => Reach(st.p, InequalityTerm(st.config, st.p, Difference(l, r), 0)) == b
    case Conjunct(args) =>
      assert forall a :: a in args ==> Size(a) <= SizeOfAll(args) by {
        forall a | a in args ensures Size(a) <= SizeOfAll(args) { MemberSize(args, a); }
      }
      AllLeavesAlign(st, args, b, SizeOfAll(args))
    case Disjunct(args) =>
      var es := Regrouped(st, args);
      (es == [] ==> b == EMPTY_BOUND) && AllLeavesAlign(st, es, b, SizeOfAll(args))
    case Negate(_) => true
    case Ite(_, _, _) => true
  }

  predicate AllLeavesAlign(st: Setting, es: seq<Logical>, b: Bounds, n: nat)
    requires forall e :: e in es ==> Size(e) <= n
    decreases n, 1
  {
    forall e :: e in es ==> LeavesAlign(st, e, b)
  }

  // Pieces whose outlines are well-shaped and, where this is asked for, all reach equally far.
  ghost predicate PiecesAlign(ps: seq<Piece>, sc: Scope, b: Option<Bounds>) {
    forall q :: q in ps ==> PieceAligns(q, sc, b)
  }

  ghost predicate PieceAligns(q: Piece, sc: Scope, b: Option<Bounds>) {
    Shaped(q.outline, sc) && (b.Some? ==> Reach(sc.p, q.outline) == b.value)
  }

  lemma {:induction false} ReachUniform(p: Prime, ts: seq<Term>, b: Bounds)
    requires ts != [] && forall t :: t in ts ==> Reach(p, t) == b
    ensures ReachAll(p, ts) == b
  {
    ReachConcat(p, [ts[0]], ts[1..]);
    ReachSingle(p, ts[0]);
    assert ts == [ts[0]] + ts[1..];
    if |ts| > 1 {
      ReachUniform(p, ts[1..], b);
    }
  }

  lemma SumPieceAligns(packet: seq<Piece>, sc: Scope, b: Option<Bounds>)
    requires packet != [] && PiecesAlign(packet, sc, b)
    ensures PiecesAlign([SumPiece(packet)], sc, b)
  {
    var ts := OutlinesOf(packet);
    forall t | t in ts ensures Shaped(t, sc) && (b.Some? ==> Reach(sc.p, t) == b.value) {
      var i :| 0 <= i < |ts| && ts[i] == t;
      assert PieceAligns(packet[i], sc, b);
    }
    SumShaped(ts, sc);
    SumReach(sc.p, ts);
    if b.Some? {
      ReachUniform(sc.p, ts, b.value);
    }
  }

  lemma {:induction false} SumPiecesAlign(bandwidth: nat, group: seq<Piece>, sc: Scope, b: Option<Bounds>)
    requires PiecesAlign(group, sc, b)
    ensures PiecesAlign(SumPieces(bandwidth, group), sc, b)
  {
    hide SumPiece, PieceAligns;
    if group != [] {
      var n := PacketLength(bandwidth, OutlinesOf(group));
      assert forall q :: q in group[..n] || q in group[n..] ==> q in group;
      SumPieceAligns(group[..n], sc, b);
      SumPiecesAlign(bandwidth, group[n..], sc, b);
      assert SumPiece(group[..n]) in [SumPiece(group[..n])];
    }
  }

  lemma {:induction false} SumPieceGroupsAlign(
    bandwidth: nat, ps: seq<Piece>, keys: seq<Bounds>, sc: Scope, b: Option<Bounds>)
    requires PiecesAlign(ps, sc, b)
    ensures PiecesAlign(SumPieceGroups(bandwidth, ps, keys), sc, b)
  {
    hide PieceAligns, BoundsOf, SumPieces;
    if keys != [] {
      SumPieceGroupsAlign(bandwidth, ps, keys[..|keys| - 1], sc, b);
      PiecesWithBoundsMembers(ps, keys[|keys| - 1]);
      SumPiecesAlign(bandwidth, PiecesWithBounds(ps, keys[|keys| - 1]), sc, b);
    }
  }

  lemma EitherAligns(l: Piece, r: Piece, sc: Scope, b: Option<Bounds>)
    requires PieceAligns(l, sc, b) && PieceAligns(r, sc, b)
    ensures PieceAligns(EitherPiece(l, r), sc, b)
  {
    ProductShaped([l.outline, r.outline], sc);
    ProductReach([l.outline, r.outline], sc);
    FactorsReach(l.outline, r.outline, sc);
    ReachConcat(sc.p, [l.outline], [r.outline]);
    assert [l.outline, r.outline] == [l.outline] + [r.outline];
    ReachSingle(sc.p, l.outline);
    ReachSingle(sc.p, r.outline);
  }

  lemma {:induction false} ChoicesAlign(pss: seq<seq<Piece>>, sc: Scope, b: Option<Bounds>)
    requires forall i :: 0 <= i < |pss| ==> PiecesAlign(pss[i], sc, b)
    requires pss == [] && b.Some? ==> b.value == EMPTY_BOUND
    ensures PiecesAlign(Choices(pss), sc, b)
  {
    hide Reach, EitherPiece;
    if |pss| == 0 {
      ConstantReach(sc.p, 1);
    } else if |pss| > 1 {
      ChoicesAlign(pss[1..], sc, b);
      DistributePiecesMembers(pss[0], Choices(pss[1..]));
      hide PieceAligns;
      forall q | q in Choices(pss) ensures PieceAligns(q, sc, b) {
        var l, r :| l in pss[0] && r in Choices(pss[1..]) && q == EitherPiece(l, r);
        EitherAligns(l, r, sc, b);
      }
    }
  }

  lemma ConstantReach(p: Prime, v: nat)
    ensures Reach(p, Constant(v)) == EMPTY_BOUND
  {
  }

  lemma ConcatAlign(pss: seq<seq<Piece>>, sc: Scope, b: Option<Bounds>)
    requires forall i :: 0 <= i < |pss| ==> PiecesAlign(pss[i], sc, b)
    ensures PiecesAlign(Concat(pss), sc, b)
  {
    forall q | q in Concat(pss) ensures PieceAligns(q, sc, b) {
      ConcatMembers(pss, q);
    }
  }

  // The scope over which outlines of terms over given registers are formed.
  function OutlineScope(st: Setting, n: nat, b: Bounds): Scope {
    Scope(st.p, Standins(n), b)
  }

  lemma EqualityAligns(st: Setting, n: nat, l: Term, r: Term, c: Bounds)
    requires LogicalShaped(Equal(l, r), st.Within(c)) && WidthsBelow(n, st.regs)
    ensures Shaped(Outline(Difference(l, r)), OutlineScope(st, n, c))
    ensures Reach(st.p, Outline(Difference(l, r))) == Reach(st.p, Difference(l, r))
  {
    DifferenceShaped(l, r, st.Within(c));
    OutlineShaped(Difference(l, r), st.Within(c), n);
    OutlineReach(st.p, Difference(l, r));
  }

  lemma InequalityAligns(st: Setting, n: nat, l: Term, r: Term, c: Bounds)
    requires LogicalShaped(NotEqual(l, r), st.Within(c)) && WidthsBelow(n, st.regs) && FitsInt(c)
    requires Lowerable(st.config, st.p, NotEqual(l, r))
    ensures var t := InequalityTerm(st.config, st.p, Difference(l, r), 0);
            Shaped(Outline(t), OutlineScope(st, n, c)) && Reach(st.p, Outline(t)) == Reach(st.p, t)
  {
    var d, wide := Difference(l, r), Scope(st.p, st.regs + [INVERSE_REGISTER], c);
    DifferenceShaped(l, r, st.Within(c));
    ShapedWiden(d, st.Within(c), wide);
    var t, u := InequalityTerm(st.config, st.p, d, 0), InequalityTerm(st.config, st.p, d, |st.regs|);
    InequalityShaped(st.config, d, |st.regs|, wide);
    OutlineShaped(u, wide, n);
    NormalFormOutline(st.config, st.p, d, |st.regs|, 0);
    InequalityOutline(st.config, st.p, d, |st.regs|);
    OutlineReach(st.p, t);
  }

  lemma InequalityOutline(cfg: Config, p: Prime, d: Term, inverse: nat)
    requires Outline(NormalForm(cfg, p, d, inverse)) == Outline(NormalForm(cfg, p, d, 0))
    ensures Outline(InequalityTerm(cfg, p, d, inverse)) == Outline(InequalityTerm(cfg, p, d, 0))
  {
    var x, y := [Constant(1), NormalForm(cfg, p, d, inverse)], [Constant(1), NormalForm(cfg, p, d, 0)];
    OutlineSubtract(x);
    OutlineSubtract(y);
    assert OutlineAll(x) == OutlineAll(y);
  }

  lemma InequalityShaped(cfg: Config, d: Term, inverse: nat, sc: Scope)
    requires Shaped(d, sc) && FitsInt(sc.bounds) && InequalityExact(cfg, sc.p, d)
    requires inverse < |sc.regs| && sc.regs[inverse] == INVERSE_REGISTER
    ensures Shaped(InequalityTerm(cfg, sc.p, d, inverse), sc)
  {
    if IsBinary(cfg, d) {
    } else if IsTernary(cfg, d) {
      ProductShaped([d, d], sc);
    } else {
      NormalisedShaped(cfg, d, inverse, sc);
    }
    SmallModulus(sc.p, 1);
    SubtractShaped([Constant(1), NormalForm(cfg, sc.p, d, inverse)], sc);
  }

  /** The pieces of a constraint stay within its bounds, and reach equally far if all of its parts do. */
  lemma {:induction false} LeavesAlignPieces(st: Setting, e: Logical, n: nat, c: Bounds, b: Option<Bounds>)
    requires st.Valid() && Lowerable(st.config, st.p, e) && LogicalShaped(e, st.Within(c)) && FitsInt(c)
    requires WidthsBelow(n, st.regs) && (b.Some? ==> LeavesAlign(st, e, b.value))
    ensures PiecesAlign(PiecesOf(st, e), OutlineScope(st, n, c), b)
    decreases Size(e)
  {
    hide Summed, Choices, Regrouped, Reach, Shaped, Outline, InequalityTerm, Difference, FitsInt;
    var sc := OutlineScope(st, n, c);
    match e
    case Equal(l, r) => EqualityAligns(st, n, l, r, c);
    case NotEqual(l, r) => InequalityAligns(st, n, l, r, c);
    case Conjunct(args) =>
      ConjunctPieces(st, args);
      var pss := seq(|args|, i requires 0 <= i < |args| => PiecesOf(st, args[i]));
      forall a | a in args ensures PiecesAlign(PiecesOf(st, a), sc, b) {
        MemberSize(args, a);
        LeavesAlignPieces(st, a, n, c, b);
      }
      ConcatAlign(pss, sc, b);
      SummedAligns(st.config.fieldBandwidth, Concat(pss), sc, b);
    case Disjunct(args) =>
      var es := Regrouped(st, args);
      DisjunctPieces(st, args);
      RegroupedLowerable(st, args, c);
      forall a | a in es ensures PiecesAlign(PiecesOf(st, a), sc, b) {
        LeavesAlignPieces(st, a, n, c, b);
      }
      ChoicesAlign(seq(|es|, i requires 0 <= i < |es| => PiecesOf(st, es[i])), sc, b);
  }

  lemma SummedAligns(bandwidth: nat, ps: seq<Piece>, sc: Scope, b: Option<Bounds>)
    requires PiecesAlign(ps, sc, b)
    ensures PiecesAlign(Summed(bandwidth, ps), sc, b)
  {
    SumPieceGroupsAlign(bandwidth, ps, DistinctBounds(OutlinesOf(ps)), sc, b);
  }

  // Any registers have widths below some number.
  lemma {:induction false} WidthsBounded(regs: seq<Register>) returns (n: nat)
    ensures WidthsBelow(n, regs)
  {
    n := 0;
    if regs != [] {
      var m := WidthsBounded(regs[1..]);
      var w := if regs[0].width.Some? then regs[0].width.value + 1 else 0;
      n := if m > w then m else w;
      assert regs == [regs[0]] + regs[1..];
    }
  }

  lemma ConstraintPieces(st: Setting, e: Logical, b: Option<Bounds>)
    requires st.Valid() && Accepted(st, e) && (b.Some? ==> LeavesAlign(st, CoreOf(st.p, e), b.value))
    ensures forall t :: t in TestsOf(st, e) ==> t.bounds.AtMost(BoundsOfLogical(e)) && (b.Some? ==> t.bounds == b.value)
  {
    var c, ps, ts := BoundsOfLogical(e), PiecesOf(st, CoreOf(st.p, e)), TestsOf(st, e);
    var n := WidthsBounded(st.regs);
    CoreIsCore(st.p, e, st.Within(c));
    LeavesAlignPieces(st, CoreOf(st.p, e), n, c, b);
    forall t | t in ts ensures t.bounds.AtMost(c) && (b.Some? ==> t.bounds == b.value) {
      var i :| 0 <= i < |ts| && ts[i] == t;
      assert PieceAligns(ps[i], OutlineScope(st, n, c), b);
      SimplifyShaped(ps[i].outline, OutlineScope(st, n, c));
      ShapedBounds(SimplifyTerm(st.p, ps[i].outline), OutlineScope(st, n, c));
    }
  }

  /** Tests never leave out a row on which their constraint is defined. */
  lemma TestsReach(st: Setting, e: Logical)
    requires st.Valid() && Accepted(st, e)
    ensures forall t :: t in TestsOf(st, e) ==> t.bounds.AtMost(BoundsOfLogical(e))
  {
    ConstraintPieces(st, e, None);
  }

  /** Passing the tests of a constraint is satisfying it, and possibly more. */
  lemma PassesSatisfies(st: Setting, c: Vanishing<Logical>, tb: Table)
    requires st.Valid() && Accepted(st, c.constraint) && tb.Valid(st.p) && st.regs <= tb.registers
    requires Passes(st, c, tb)
    ensures Satisfies(st.p, c, tb)
  {
    var e, b := c.constraint, BoundsOfLogical(c.constraint);
    TestsReach(st, e);
    forall k | TestedOn(c.domain, b, k, tb.height) ensures Holds(e, Row(st.p, tb, k)) {
      forall t | t in TestsOf(st, e) ensures Holds(t.goal, Row(st.p, tb, k)) {
        assert TestedOn(c.domain, t.bounds, k, tb.height);
        MetHolds(Inside(st), t.goal, Row(st.p, tb, k));
      }
      TestsMean(st, e, b, Row(st.p, tb, k));
    }
  }

  /** A constraint without shifts is tested on all rows, which is where it is defined. */
  lemma UnshiftedAligned(st: Setting, e: Logical)
    requires st.Valid() && Accepted(st, e) && BoundsOfLogical(e) == EMPTY_BOUND
    ensures Aligned(st, e)
  {
    TestsReach(st, e);
  }

  /**
   * A constraint all of whose parts reach as far as itself, be that beyond the current row or not,
   * is tested on exactly the rows on which it is defined.
   */
  lemma LeavesAlignTests(st: Setting, e: Logical)
    requires st.Valid() && Accepted(st, e) && LeavesAlign(st, CoreOf(st.p, e), BoundsOfLogical(e))
    ensures Aligned(st, e)
  {
    ConstraintPieces(st, e, Some(BoundsOfLogical(e)));
  }

  /** On rows within the bounds of a constraint, no inverse is taken from outside of the table. */
  lemma {:induction false} CoveredInverses(st: Setting, e: Logical, b: Bounds, k: int, height: nat)
    requires st.Valid() && Lowerable(st.config, st.p, e) && LogicalShaped(e, st.Within(b)) && FitsInt(b)
    requires b.Covers(k, height)
    ensures InversesRead(st, e, k, height)
    decreases Size(e)
  {
    hide Regrouped, Difference, FitsInt, NormalisingShift;
    match e
    case Equal(_, _) =>
    case NotEqual(l, r) =>
      DifferenceShaped(l, r, st.Within(b));
      if TakesInverse(st.config, Difference(l, r)) {
        NormalisingShiftInBounds(st.config, Difference(l, r), st.Within(b));
      }
    case Conjunct(args) =>
      forall a | a in args ensures InversesRead(st, a, k, height) {
        MemberSize(args, a);
        CoveredInverses(st, a, b, k, height);
      }
    case Disjunct(args) =>
      RegroupedLowerable(st, args, b);
      forall a | a in Regrouped(st, args) ensures InversesRead(st, a, k, height) {
        CoveredInverses(st, a, b, k, height);
      }
  }

  /** A local constraint whose row is within its bounds is tested directly. */
  lemma CoveredDirect(st: Setting, c: Vanishing<Logical>, height: nat)
    requires st.Valid() && Accepted(st, c.constraint) && c.domain.Some?
    requires BoundsOfLogical(c.constraint).Covers(RowOf(c.domain.value, height), height)
    ensures Direct(st, c, height)
  {
    var e, b := c.constraint, BoundsOfLogical(c.constraint);
    CoreIsCore(st.p, e, st.Within(b));
    CoveredInverses(st, CoreOf(st.p, e), b, RowOf(c.domain.value, height), height);
  }

  // ---------------------------------------------------------------------------
  // A constraint which is not aligned
  // ---------------------------------------------------------------------------

  const NATIVE := Register(None, 0, false)
  const X := RegisterAccess(0, None, 0)
  const NEXT_Y := RegisterAccess(1, None, 1)

  /** x == 0 and, on the next row, y == 0. */
  const MISALIGNED := Conjunct([Equal(X, Constant(0)), Equal(NEXT_Y, Constant(0))])

  lemma AccessDifference(t: Term)
    requires t.RegisterAccess? && t.bitwidth.None?
    ensures Difference(t, Constant(0)) == t
  {
    assert [t, Constant(0)][1..] == [Constant(0)] && [Constant(0)][1..] == [];
    assert RemoveZeros([Constant(0)]) == [];
  }

  lemma MisalignedCore(p: Prime)
    ensures CoreOf(p, MISALIGNED) == MISALIGNED && LogicalFoldsExactly(p, Expand(true, MISALIGNED))
  {
    var a, b := Equal(X, Constant(0)), Equal(NEXT_Y, Constant(0));
    assert [a, b][1..] == [b] && [b][1..] == [];
    assert ExpandAll(true, [b]) == [b] && ExpandAll(true, [a, b]) == [a, b];
    assert Expand(true, MISALIGNED) == MISALIGNED;
    assert SimplifyLogicals(p, [b]) == [b];
    assert SimplifyLogicals(p, [a, b]) == [a, b];
    assert FlattenConjuncts([b]) == [b];
    assert FlattenConjuncts([a, b]) == [a, b];
    assert RemoveAll([b], TRUE) == [b];
    assert RemoveAll([a, b], TRUE) == [a, b];
    assert AllFoldExactly(p, [b]) && AllFoldExactly(p, [a, b]);
  }

  // Its first operand is tested on all rows.
  lemma MisalignedTest(st: Setting)
    ensures Test(EMPTY_BOUND, Conjunct([Equal(X, Constant(0))])) in TestsOf(st, MISALIGNED)
  {
    var a := Equal(X, Constant(0));
    MisalignedCore(st.p);
    MisalignedPieces(st);
    SumOfAccess(X);
    hide PiecesOf, CoreOf;
    var l := Piece(X, a);
    assert OutlinesOf([l]) == [X] && GoalsOf([l]) == [a];
    assert TestsOf(st, MISALIGNED)[0] == Test(EMPTY_BOUND, Conjunct([a]));
  }

  lemma MisalignedPieces(st: Setting)
    ensures var ps := PiecesOf(st, MISALIGNED);
            ps != [] && ps[0] == SumPiece([Piece(X, Equal(X, Constant(0)))])
  {
    hide SumPiece, Difference;
    var a, b := Equal(X, Constant(0)), Equal(NEXT_Y, Constant(0));
    AccessDifference(X);
    AccessDifference(NEXT_Y);
    var l, r := Piece(X, a), Piece(RegisterAccess(0, None, 1), b);
    ConjunctPieces(st, [a, b]);
    var pss := seq(2, i requires 0 <= i < 2 => PiecesOf(st, [a, b][i]));
    assert pss == [[l], [r]];
    ConcatPair(l, r);
    MisalignedBounds(l, r);
    FirstGroup(st.config.fieldBandwidth, l, r);
  }

  lemma ConcatPair(l: Piece, r: Piece)
    ensures Concat([[l], [r]]) == [l, r]
  {
    assert [[l], [r]][..1] == [[l]] && [[l]][..0] == [];
    assert Concat([[l]]) == [l];
  }

  lemma MisalignedBounds(l: Piece, r: Piece)
    requires BoundsOf(l.outline) == EMPTY_BOUND && BoundsOf(r.outline) == Bounds(0, 1)
    ensures DistinctBounds(OutlinesOf([l, r])) == [EMPTY_BOUND, Bounds(0, 1)]
  {
    hide BoundsOf;
    var ts := OutlinesOf([l, r]);
    assert ts[..1] == [l.outline] && ts[..1][..0] == [];
    assert DistinctBounds([l.outline]) == [EMPTY_BOUND];
  }

  lemma SumOfAccess(t: Term)
    requires t.RegisterAccess?
    ensures Sum([t]) == t
  {
    SingleOperand(t);
  }

  lemma FirstPiece(l: Piece, r: Piece)
    requires BoundsOf(l.outline) == EMPTY_BOUND && BoundsOf(r.outline) == Bounds(0, 1)
    ensures PiecesWithBounds([l, r], EMPTY_BOUND) == [l]
  {
    hide BoundsOf;
    assert [l, r][..1] == [l] && [l][..0] == [];
    assert PiecesWithBounds([l], EMPTY_BOUND) == [l];
  }

  lemma FirstGroup(bandwidth: nat, l: Piece, r: Piece)
    requires BoundsOf(l.outline) == EMPTY_BOUND && BoundsOf(r.outline) == Bounds(0, 1)
    ensures var ps := SumPieceGroups(bandwidth, [l, r], [EMPTY_BOUND, Bounds(0, 1)]);
            ps != [] && ps[0] == SumPiece([l])
  {
    hide SumPiece, BoundsOf;
    var keys := [EMPTY_BOUND, Bounds(0, 1)];
    assert keys[..1] == [EMPTY_BOUND] && keys[..1][..0] == [];
    FirstPiece(l, r);
    assert [l][..1] == [l] && [l][1..] == [];
    assert SumPieces(bandwidth, [l]) == [SumPiece([l])];
    assert SumPieceGroups(bandwidth, [l, r], keys[..1]) == [SumPiece([l])];
  }

  /**
   * On a table of a single row, there is no row on which this constraint is defined.  It holds there,
   * whatever the value of x, but is lowered to constraints which reject all values other than 0.
   */
  lemma SatisfiedButRejected(st: Setting, tb: Table, v: nat)
    requires st.Valid() && st.regs == [NATIVE, NATIVE]
    requires tb.Valid(st.p) && tb.registers == st.regs && tb.height == 1 && tb.columns[0] == Some([v]) && v != 0
    ensures Accepted(st, MISALIGNED) && !Aligned(st, MISALIGNED)
    ensures Satisfies(st.p, Everywhere(MISALIGNED), tb) && !Passes(st, Everywhere(MISALIGNED), tb)
    ensures forall m, tss :: ModuleLowers(st, m, [Everywhere(MISALIGNED)], tss) ==>
              !AllObeyed(st.p, m.constraints, Completed(st.p, m, tb, |m.assignments|))
  {
    var c := Everywhere(MISALIGNED);
    MisalignedAccepted(st);
    MisalignedTest(st);
    var t := Test(EMPTY_BOUND, Conjunct([Equal(X, Constant(0))]));
    assert !Holds(t.goal, Row(st.p, tb, 0)) by {
      assert Equal(X, Constant(0)) in t.goal.args;
    }
    assert TestedOn(None, t.bounds, 0, tb.height);
    forall m, tss | ModuleLowers(st, m, [c], tss)
      ensures !AllObeyed(st.p, m.constraints, Completed(st.p, m, tb, |m.assignments|))
    {
      LoweringDecides(st, m, [c], tss, tb);
      assert c in [c];
    }
  }

  lemma MisalignedAccepted(st: Setting)
    requires st.regs == [NATIVE, NATIVE]
    ensures Accepted(st, MISALIGNED) && BoundsOfLogical(MISALIGNED) == Bounds(0, 1)
  {
    var a, b := Equal(X, Constant(0)), Equal(NEXT_Y, Constant(0));
    MisalignedCore(st.p);
    AccessDifference(X);
    AccessDifference(NEXT_Y);
    assert [a, b][1..] == [b] && [b][1..] == [];
    assert BoundsOfLogical(a) == EMPTY_BOUND && BoundsOfLogical(b) == Bounds(0, 1);
    assert BoundsOfLogicals([b]) == Bounds(0, 1);
    assert BoundsOfLogicals([a, b]) == Bounds(0, 1);
    assert Lowerable(st.config, st.p, a) && Lowerable(st.config, st.p, b);
  }

  // ---------------------------------------------------------------------------
  // A local constraint which is not tested directly
  // ---------------------------------------------------------------------------

  const UNEQUAL := NotEqual(X, Constant(0))

  lemma UnequalAccepted(st: Setting)
    requires st.regs != [] && st.regs[0].width.None?
    ensures Accepted(st, UNEQUAL) && CoreOf(st.p, UNEQUAL) == UNEQUAL
  {
    AccessDifference(X);
  }

  /** On whatever row it is tested, x != 0 passes if and only if it holds and the row is one of the table. */
  lemma LocalInequalityPasses(st: Setting, d: int, tb: Table)
    requires st.Valid() && st.regs != [] && st.regs[0].width.None? && tb.Valid(st.p) && tb.registers == st.regs
    ensures Accepted(st, UNEQUAL)
    ensures Passes(st, Vanishing(Some(d), UNEQUAL), tb) <==>
            Satisfies(st.p, Vanishing(Some(d), UNEQUAL), tb) && 0 <= RowOf(d, tb.height) < tb.height
  {
    var c, k := Vanishing(Some(d), UNEQUAL), RowOf(d, tb.height);
    UnequalAccepted(st);
    LocalPasses(st, c, tb);
    AccessDifference(X);
    assert TestedOn(c.domain, BoundsOfLogical(UNEQUAL), k, tb.height);
    assert Satisfies(st.p, c, tb) <==> Holds(UNEQUAL, Row(st.p, tb, k));
  }

  /**
   * Outside of the table, x is read as its padding, and so is its inverse.  If that padding is not 0,
   * then x != 0 holds on any such row, but is lowered to a constraint which does not.
   */
  lemma LocalSatisfiedButRejected(st: Setting, d: int, tb: Table)
    requires st.Valid() && st.regs != [] && st.regs[0].width.None? && st.regs[0].padding != 0
    requires tb.Valid(st.p) && tb.registers == st.regs && !(0 <= RowOf(d, tb.height) < tb.height)
    ensures Satisfies(st.p, Vanishing(Some(d), UNEQUAL), tb)
    ensures forall m, tss :: ModuleLowers(st, m, [Vanishing(Some(d), UNEQUAL)], tss) ==>
              !AllObeyed(st.p, m.constraints, Completed(st.p, m, tb, |m.assignments|))
  {
    var c := Vanishing(Some(d), UNEQUAL);
    LocalInequalityPasses(st, d, tb);
    forall m, tss | ModuleLowers(st, m, [c], tss)
      ensures !AllObeyed(st.p, m.constraints, Completed(st.p, m, tb, |m.assignments|))
    {
      LoweringDecides(st, m, [c], tss, tb);
      assert c in [c];
    }
  }

  // ---------------------------------------------------------------------------
  // An inequality which is never checked
  // ---------------------------------------------------------------------------

  /** A difference which is not folded, as it would be negative. */
  const MINUS_FOUR := Sub([Constant(1), Constant(5)])
  const NOTHING := Sub([MINUS_FOUR, MINUS_FOUR])

  lemma PairKept(p: Prime, l: Term, r: Term)
    requires SimplifyTerm(p, l) == l && SimplifyTerm(p, r) == r && !IsZero(r) && !r.Add?
    requires if l.Constant? then r.Constant? && l.value < r.value < p else r.Sub?
    ensures SimplifyTerm(p, Sub([l, r])) == Sub([l, r])
  {
    assert [l, r][1..] == [r] && [r][1..] == [];
    assert SimplifyAll(p, [r]) == [r];
    if r.Constant? {
      SmallModulus(p, r.value);
    }
    MergeSingle(FoldSum(p, [r], 0), r);
    assert MergeConstants(FoldSum(p, [r], 0), [r]) == [r];
    SingleOperand(r);
    assert SimplifySum(p, [r]) == r;
  }

  lemma PairLowered(l: Term, r: Term)
    requires LowerTerm(l) == l && LowerTerm(r) == r && !IsZero(r)
    ensures LowerTerm(Sub([l, r])) == Sub([l, r])
  {
    assert [l, r][1..] == [r] && [r][1..] == [];
    assert LowerTerms([r]) == [r] && LowerTerms([l, r]) == [l, r];
    assert RemoveZeros([r]) == [r];
  }

  lemma DifferenceKept(p: Prime)
    requires p > 5
    ensures SimplifyTerm(p, NOTHING) == NOTHING == Difference(MINUS_FOUR, MINUS_FOUR)
    ensures CoreOf(p, NotEqual(MINUS_FOUR, MINUS_FOUR)) == NotEqual(MINUS_FOUR, MINUS_FOUR)
  {
    PairKept(p, Constant(1), Constant(5));
    PairKept(p, MINUS_FOUR, MINUS_FOUR);
    PairLowered(Constant(1), Constant(5));
    assert [MINUS_FOUR, MINUS_FOUR][1..] == [MINUS_FOUR] && [MINUS_FOUR][1..] == [];
    assert RemoveZeros([MINUS_FOUR]) == [MINUS_FOUR];
  }

  /**
   * 1 - 5 != 1 - 5 holds nowhere.  Unless ranges are used to eliminate inverses, what it is lowered to
   * with shift normalisation is accepted on every table.
   */
  lemma NeverChecked(st: Setting, regs: seq<Register>, inverse: nat)
    requires st.p > 5 && st.config.shiftNormalisation && st.config.inverseElimination == 0
    requires inverse < |regs| && regs[inverse] == INVERSE_REGISTER
    ensures forall at: Row :: !Holds(CoreOf(st.p, NotEqual(MINUS_FOUR, MINUS_FOUR)), at)
    ensures var t := SimplifyTerm(st.p, InequalityTerm(st.config, st.p, Difference(MINUS_FOUR, MINUS_FOUR), inverse));
            forall tb: Table :: tb.height <= MAX_INT ==> Obeys(st.p, Everywhere(t), tb)
  {
    hide Normalised, SimplifyTerm, CoreOf, Obeys;
    DifferenceKept(st.p);
    forall at: Row ensures !Holds(CoreOf(st.p, NotEqual(MINUS_FOUR, MINUS_FOUR)), at) {
    }
    DifferenceAccepted(st, regs, inverse);
    forall tb: Table | tb.height <= MAX_INT
      ensures Obeys(st.p, Everywhere(SimplifyTerm(st.p, InequalityTerm(st.config, st.p, NOTHING, inverse))), tb)
    {
      EverywhereObeyed(st.p, SimplifyTerm(st.p, InequalityTerm(st.config, st.p, NOTHING, inverse)), tb);
    }
  }

  lemma DifferenceAccepted(st: Setting, regs: seq<Register>, inverse: nat)
    requires st.p > 5 && st.config.shiftNormalisation && st.config.inverseElimination == 0
    requires inverse < |regs| && regs[inverse] == INVERSE_REGISTER
    ensures var t := SimplifyTerm(st.p, InequalityTerm(st.config, st.p, NOTHING, inverse));
            forall tb: Table :: tb.height <= MAX_INT ==> Accepts(st.p, t, tb)
  {
    hide Normalised, SimplifyTerm, Accepts, CoreOf, Shaped, Reads, NormalisingShift;
    var sc := Scope(st.p, regs, EMPTY_BOUND);
    DifferenceKept(st.p);
    NothingShaped(sc);
    NothingShaped(sc.(regs := []));
    NothingToShift(NOTHING, -NormalisingShift(st.config, NOTHING), sc.(regs := []));
    InequalityWithoutAccess(st.config, NOTHING, inverse, sc);
  }

  lemma NothingShaped(sc: Scope)
    requires sc.p > 5
    ensures Shaped(NOTHING, sc) && !Reads(NOTHING)
  {
    SmallModulus(sc.p, 1);
    SmallModulus(sc.p, 5);
    assert Shaped(MINUS_FOUR, sc);
    assert !Reads(Constant(1)) && !Reads(Constant(5));
    assert !Reads(MINUS_FOUR);
  }
}
