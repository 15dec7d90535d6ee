// Why lowered terms test what the pieces of their constraint say.
module Realisations {
  import opened Congruence
  import opened PrimeField
  import opened Tables
  import opened Terms
  import opened Builders
  import opened Ranges
  import opened Simplify
  import opened Logic
  import opened Packing
  import opened TermLowering
  import opened ExactFolding
  import opened Modules
  import opened Normalisation
  import opened CrossProducts
  import opened PseudoInverses
  import opened Outlines
  import opened Reaches
  import opened Pieces
  import opened PieceMeanings

  /**
   * When the inverses read on row k can be relied upon: if their registers satisfy the constraints
   * placed upon them and row k is within the bounds of the constraint being lowered, or if they
   * have been filled and row k is one on which the lowered term is tested.
   */
  ghost predicate Trusted(p: Prime, m: Module, tb: Table, k: int, reach: Bounds, b: Bounds) {
    || (InversesHold(p, m, tb) && b.Covers(k, tb.height))
    || (InversesFilled(p, m, tb) && reach.Covers(k, tb.height))
  }

  /** A trace with at least the registers of a module, whatever they hold. */
  ghost predicate TraceOf(p: Prime, m: Module, tb: Table) {
    tb.Valid(p) && m.registers <= tb.registers
  }

  /**
   * A term vanishes on row k only if a constraint holds there.  It does vanish if the constraint holds
   * and inverses can be relied upon; and in traces whose inverses have been filled, on any row at all,
   * if and only if the constraint holds without taking an inverse from outside of the table.
   */
  ghost predicate ExpressesOn(st: Setting, m: Module, t: Term, goal: Logical, b: Bounds, tb: Table, k: int) {
    var at := Row(st.p, tb, k);
    && (Eval(t, at) == 0 ==> Holds(goal, at))
    && (Trusted(st.p, m, tb, k, Reach(st.p, t), b) && Holds(goal, at) ==> Eval(t, at) == 0)
    && (InversesFilled(st.p, m, tb) ==> (Eval(t, at) == 0 <==> Met(Inside(st), goal, at)))
  }

  ghost predicate Expresses(st: Setting, m: Module, t: Term, goal: Logical, b: Bounds) {
    forall tb: Table, k: int :: TraceOf(st.p, m, tb) ==> ExpressesOn(st, m, t, goal, b, tb, k)
  }

  /** Terms which match some pieces one by one. */
  ghost predicate Realises(st: Setting, m: Module, ts: seq<Term>, ps: seq<Piece>, b: Bounds) {
    && |ts| == |ps|
    && forall i :: 0 <= i < |ts| ==>
         Outline(ts[i]) == ps[i].outline && Expresses(st, m, ts[i], ps[i].goal, b)
  }

  lemma RealisesLater(st: Setting, m: Module, n: Module, ts: seq<Term>, ps: seq<Piece>, b: Bounds)
    requires Realises(st, m, ts, ps, b) && Extends(m, n)
    ensures Realises(st, n, ts, ps, b)
  {
    forall i | 0 <= i < |ts| ensures Expresses(st, n, ts[i], ps[i].goal, b) {
      forall tb: Table, k: int | TraceOf(st.p, n, tb) ensures ExpressesOn(st, n, ts[i], ps[i].goal, b, tb, k) {
        assert Expresses(st, m, ts[i], ps[i].goal, b);
        ExpressesOnLater(st, m, n, ts[i], ps[i].goal, b, tb, k);
      }
    }
  }

  lemma ExpressesOnLater(
    st: Setting, m: Module, n: Module, t: Term, goal: Logical, b: Bounds, tb: Table, k: int)
    requires ExpressesOn(st, m, t, goal, b, tb, k) && Extends(m, n)
    ensures ExpressesOn(st, n, t, goal, b, tb, k)
  {
    if Trusted(st.p, n, tb, k, Reach(st.p, t), b) {
      TrustedBefore(st.p, m, n, tb, k, Reach(st.p, t), b);
    }
    if InversesFilled(st.p, n, tb) {
      InversesFilledBefore(st.p, m, n, tb);
    }
  }

  lemma TrustedBefore(p: Prime, m: Module, n: Module, tb: Table, k: int, reach: Bounds, b: Bounds)
    requires Trusted(p, n, tb, k, reach, b) && Extends(m, n)
    ensures Trusted(p, m, tb, k, reach, b)
  {
    if InversesHold(p, n, tb) {
      InversesHoldBefore(p, m, n, tb);
    }
    if InversesFilled(p, n, tb) {
      InversesFilledBefore(p, m, n, tb);
    }
  }

  // A row trusted for a term which reaches further is trusted for one which does not.
  lemma TrustedFor(p: Prime, m: Module, tb: Table, k: int, far: Bounds, near: Bounds, b: Bounds)
    requires Trusted(p, m, tb, k, far, b) && near.AtMost(far)
    ensures Trusted(p, m, tb, k, near, b)
  {
  }

  lemma RealisesOutlines(st: Setting, m: Module, ts: seq<Term>, ps: seq<Piece>, b: Bounds)
    requires Realises(st, m, ts, ps, b)
    ensures OutlineAll(ts) == OutlinesOf(ps)
  {
  }

  lemma RealisesConcat(st: Setting, m: Module, ts: seq<Term>, ps: seq<Piece>, us: seq<Term>, qs: seq<Piece>, b: Bounds)
    requires Realises(st, m, ts, ps, b) && Realises(st, m, us, qs, b)
    ensures Realises(st, m, ts + us, ps + qs, b)
  {
  }

  lemma {:induction false} RealisesAll(st: Setting, m: Module, tss: seq<seq<Term>>, pss: seq<seq<Piece>>, b: Bounds)
    requires |tss| == |pss| && forall i :: 0 <= i < |tss| ==> Realises(st, m, tss[i], pss[i], b)
    ensures Realises(st, m, Concat(tss), Concat(pss), b)
  {
    if tss != [] {
      var n := |tss| - 1;
      RealisesAll(st, m, tss[..n], pss[..n], b);
      RealisesConcat(st, m, Concat(tss[..n]), Concat(pss[..n]), tss[n], pss[n], b);
    }
  }

  // ---------------------------------------------------------------------------
  // Equalities and inequalities
  // ---------------------------------------------------------------------------

  lemma EqualityRealised(st: Setting, m: Module, l: Term, r: Term, b: Bounds)
    requires Shaped(l, Scope(st.p, m.registers, b)) && Shaped(r, Scope(st.p, m.registers, b))
    ensures Realises(st, m, [Difference(l, r)], [Piece(Outline(Difference(l, r)), Equal(l, r))], b)
  {
    var t := Difference(l, r);
    forall tb: Table, k: int | TraceOf(st.p, m, tb) ensures ExpressesOn(st, m, t, Equal(l, r), b, tb, k) {
      DifferenceVanishes(l, r, Scope(st.p, m.registers, b), Row(st.p, tb, k));
    }
  }

  /**
   * What normalisation promises about its result: it vanishes wherever the term does; it is 1 elsewhere
   * if inverses can be relied upon; and if they have been filled, wherever no inverse is taken from
   * outside of the table.
   */
  ghost predicate NormalisesOn(st: Setting, m: Module, t: Term, norm: Term, b: Bounds, tb: Table, k: int) {
    var at := Row(st.p, tb, k);
    && (Eval(t, at) == 0 ==> Eval(norm, at) == 0)
    && (Trusted(st.p, m, tb, k, Reach(st.p, norm), b) && Eval(t, at) != 0 ==> Eval(norm, at) == 1)
    && (InversesFilled(st.p, m, tb) && Eval(t, at) != 0 ==>
          (Eval(norm, at) == 1 <==> InverseRead(st.config, t, k, tb.height)))
  }

  ghost predicate NormalisedBy(st: Setting, m: Module, t: Term, norm: Term, b: Bounds) {
    && Shaped(norm, Scope(st.p, m.registers, b))
    && forall tb: Table, k: int :: TraceOf(st.p, m, tb) ==> NormalisesOn(st, m, t, norm, b, tb, k)
  }

  // Why each of the three ways of normalising a term does so.

  lemma AlreadyNormal(st: Setting, m: Module, t: Term, b: Bounds)
    requires Shaped(t, Scope(st.p, m.registers, b)) && RangeOf(t).Proper() && IsBinary(st.config, t)
    ensures NormalisedBy(st, m, t, t, b)
  {
    forall tb: Table, k: int | TraceOf(st.p, m, tb) ensures NormalisesOn(st, m, t, t, b, tb, k) {
      BinaryIsNormal(st.config, t, Scope(st.p, m.registers, b), Row(st.p, tb, k));
    }
  }

  lemma SquareNormal(st: Setting, m: Module, t: Term, b: Bounds)
    requires Shaped(t, Scope(st.p, m.registers, b)) && RangeOf(t).Proper() && IsTernary(st.config, t)
    ensures NormalisedBy(st, m, t, Product([t, t]), b)
  {
    var sc := Scope(st.p, m.registers, b);
    ProductShaped([t, t], sc);
    forall tb: Table, k: int | TraceOf(st.p, m, tb) ensures NormalisesOn(st, m, t, Product([t, t]), b, tb, k) {
      SquareIsNormal(st.config, t, sc, Row(st.p, tb, k));
    }
  }

  /** Whether a term is normalised by multiplying it with an inverse. */
  predicate TakesInverse(cfg: Config, t: Term) {
    RangeOf(t).Proper() ==> !IsBinary(cfg, t) && !IsTernary(cfg, t)
  }

  lemma InverseNormal(st: Setting, m: Module, t: Term, inverse: nat, b: Bounds)
    requires Shaped(t, Scope(st.p, m.registers, b)) && FitsInt(b) && TakesInverse(st.config, t)
    requires var s := NormalisingShift(st.config, t);
      && FoldsExactly(st.p, ApplyShift(t, -s)) && (st.config.shiftNormalisation ==> Reads(t))
      && FoldsExactly(st.p, ApplyShift(Inverted(st.config, st.p, t), s))
    requires var a := PseudoInverse(inverse, Inverted(st.config, st.p, t));
             a in m.assignments && AssignmentValid(st.p, m, a)
    ensures NormalisedBy(st, m, t, Normalised(st.config, st.p, t, inverse), b)
  {
    hide FoldsExactly, Shaped, BoundsOf, ApplyShift, InverseProof, Filled, NormalisingShift, Reach, Inverted;
    var cfg, sc := st.config, Scope(st.p, m.registers, b);
    NormalisedShaped(cfg, t, inverse, sc);
    var norm := Normalised(cfg, st.p, t, inverse);
    forall tb: Table, k: int | TraceOf(st.p, m, tb) ensures NormalisesOn(st, m, t, norm, b, tb, k) {
      NormalisedZero(cfg, t, inverse, sc, Row(st.p, tb, k));
      if InversesFilled(st.p, m, tb) {
        FilledNormalIff(cfg, t, inverse, sc, m, tb, k);
      }
      if Trusted(st.p, m, tb, k, Reach(st.p, norm), b) {
        TrustedNormal(cfg, t, inverse, sc, m, tb, k);
      }
    }
  }

  lemma TrustedNormal(cfg: Config, t: Term, inverse: nat, sc: Scope, m: Module, tb: Table, k: int)
    requires Shaped(t, sc) && FitsInt(sc.bounds) && sc.regs == m.registers
    requires FoldsExactly(sc.p, ApplyShift(t, -NormalisingShift(cfg, t))) && (cfg.shiftNormalisation ==> Reads(t))
    requires FoldsExactly(sc.p, ApplyShift(Inverted(cfg, sc.p, t), NormalisingShift(cfg, t)))
    requires var a := PseudoInverse(inverse, Inverted(cfg, sc.p, t));
             a in m.assignments && AssignmentValid(sc.p, m, a)
    requires Trusted(sc.p, m, tb, k, Reach(sc.p, Normalised(cfg, sc.p, t, inverse)), sc.bounds)
    ensures Eval(Normalised(cfg, sc.p, t, inverse), Row(sc.p, tb, k))
         == if Eval(t, Row(sc.p, tb, k)) == 0 then 0 else 1
  {
    hide FoldsExactly, Shaped, BoundsOf, ApplyShift, InverseProof, Filled;
    if InversesHold(sc.p, m, tb) && sc.bounds.Covers(k, tb.height) {
      NormalisedEval(cfg, t, inverse, sc, m, tb, k);
    } else {
      FilledNormal(cfg, t, inverse, sc, m, tb, k);
    }
  }

  // Whatever the inverse is, multiplying with it turns no zero into anything else.
  lemma NormalisedZero(cfg: Config, t: Term, inverse: nat, sc: Scope, at: Row)
    requires Shaped(t, sc) && FitsInt(sc.bounds) && at.Over(sc)
    requires FoldsExactly(sc.p, ApplyShift(t, -NormalisingShift(cfg, t))) && (cfg.shiftNormalisation ==> Reads(t))
    requires inverse < |sc.regs| && sc.regs[inverse] == INVERSE_REGISTER
    ensures Eval(t, at) == 0 ==> Eval(Normalised(cfg, sc.p, t, inverse), at) == 0
  {
    hide FoldsExactly, Inverted, NormalisingShift, Shaped, BoundsOf, Eval, Product, ApplyShift, Reads;
    var s, e := NormalisingShift(cfg, t), Inverted(cfg, sc.p, t);
    InvertedEval(cfg, t, sc, at);
    NormalisedShaped(cfg, t, inverse, sc);
    ApplyShiftEval(Product([e, FieldAccess(inverse)]), s, at);
    var wide := sc.(bounds := BoundsOf(e));
    FieldAccessShaped(inverse, wide);
    ProductOfTwo(e, FieldAccess(inverse), wide, at.(k := at.k + s));
    SmallModulus(sc.p, 0);
  }

  /**
   * In a trace whose inverses have been filled, normalisation works on a row if and only if the
   * inverse is read within the table, or there is nothing to invert.
   */
  lemma FilledNormalIff(cfg: Config, t: Term, inverse: nat, sc: Scope, m: Module, tb: Table, k: int)
    requires Shaped(t, sc) && FitsInt(sc.bounds) && sc.regs == m.registers
    requires FoldsExactly(sc.p, ApplyShift(t, -NormalisingShift(cfg, t))) && (cfg.shiftNormalisation ==> Reads(t))
    requires var a := PseudoInverse(inverse, Inverted(cfg, sc.p, t));
             a in m.assignments && AssignmentValid(sc.p, m, a)
    requires InversesFilled(sc.p, m, tb)
    ensures var at := Row(sc.p, tb, k);
            Eval(Normalised(cfg, sc.p, t, inverse), at) == (if Eval(t, at) == 0 then 0 else 1)
            <==> (0 <= k + NormalisingShift(cfg, t) < tb.height || Eval(t, at) == 0)
  {
    hide FoldsExactly, Inverted, NormalisingShift, InverseProof, Shaped, BoundsOf, SimplifyTerm;
    var at, s, e := Row(sc.p, tb, k), NormalisingShift(cfg, t), Inverted(cfg, sc.p, t);
    var there := Row(sc.p, tb, k + s);
    InvertedEval(cfg, t, sc, at);
    NormalisedShaped(cfg, t, inverse, sc);
    ApplyShiftEval(Product([e, FieldAccess(inverse)]), s, at);
    var wide := sc.(bounds := BoundsOf(e));
    FieldAccessShaped(inverse, wide);
    ProductOfTwo(e, FieldAccess(inverse), wide, there);
    EvalIsElement(e, wide, there);
    if 0 <= k + s < tb.height {
      assert Eval(FieldAccess(inverse), there) == Inverse(sc.p, Eval(e, there));
      InverseOfValue(sc.p, Eval(e, there));
    } else {
      assert tb.ColumnValid(sc.p, tb.registers[inverse], tb.columns[inverse]);
      assert Eval(FieldAccess(inverse), there) == 0;
      SmallModulus(sc.p, 0);
    }
  }

  // Where a term is tested, either holds: its inverse is read within the table unless simplification drops it.
  lemma FilledNormal(cfg: Config, t: Term, inverse: nat, sc: Scope, m: Module, tb: Table, k: int)
    requires Shaped(t, sc) && FitsInt(sc.bounds) && sc.regs == m.registers
    requires FoldsExactly(sc.p, ApplyShift(t, -NormalisingShift(cfg, t))) && (cfg.shiftNormalisation ==> Reads(t))
    requires FoldsExactly(sc.p, ApplyShift(Inverted(cfg, sc.p, t), NormalisingShift(cfg, t)))
    requires var a := PseudoInverse(inverse, Inverted(cfg, sc.p, t));
             a in m.assignments && AssignmentValid(sc.p, m, a)
    requires InversesFilled(sc.p, m, tb) && Reach(sc.p, Normalised(cfg, sc.p, t, inverse)).Covers(k, tb.height)
    ensures Eval(Normalised(cfg, sc.p, t, inverse), Row(sc.p, tb, k))
         == if Eval(t, Row(sc.p, tb, k)) == 0 then 0 else 1
  {
    hide FoldsExactly, Inverted, NormalisingShift, InverseProof, Shaped, BoundsOf, Reach, SimplifyTerm, Filled;
    var at, s, e := Row(sc.p, tb, k), NormalisingShift(cfg, t), Inverted(cfg, sc.p, t);
    InvertedEval(cfg, t, sc, at);
    FilledNormalIff(cfg, t, inverse, sc, m, tb, k);
    InverseReach(cfg, t, inverse, sc);
    if Zero(sc.p, ApplyShift(e, s)) {
      ShiftedZero(e, s, sc, at);
    } else {
      AccessInTable(inverse, s, Reach(sc.p, Normalised(cfg, sc.p, t, inverse)), k, tb.height);
    }
  }

  lemma FieldAccessShaped(inverse: nat, sc: Scope)
    requires inverse < |sc.regs| && sc.regs[inverse] == INVERSE_REGISTER
    ensures Shaped(FieldAccess(inverse), sc)
  {
  }

  lemma AccessInTable(inverse: nat, shift: int, reach: Bounds, k: int, height: nat)
    requires BoundsOf(ApplyShift(FieldAccess(inverse), shift)).AtMost(reach) && reach.Covers(k, height)
    ensures 0 <= k + shift < height
  {
  }

  lemma InverseOfValue(p: Prime, v: nat)
    requires IsElement(p, v)
    ensures FMul(p, v, Inverse(p, v)) == if v == 0 then 0 else 1
  {
    SmallModulus(p, v);
    if v == 0 {
      SmallModulus(p, 0);
    } else {
      BezoutInverts(p, v);
    }
  }

  lemma ShiftedZero(e: Term, shift: int, sc: Scope, at: Row)
    requires Shaped(ApplyShift(e, shift), sc) && at.Over(sc)
    requires FoldsExactly(at.p, ApplyShift(e, shift)) && Zero(at.p, ApplyShift(e, shift))
    ensures Eval(e, at.(k := at.k + shift)) == 0
  {
    SimplifyEval(ApplyShift(e, shift), sc, at);
    ApplyShiftEval(e, shift, at);
  }

  lemma InverseReach(cfg: Config, t: Term, inverse: nat, sc: Scope)
    requires Shaped(t, sc) && FitsInt(sc.bounds) && (cfg.shiftNormalisation ==> Reads(t))
    requires inverse < |sc.regs| && sc.regs[inverse] == INVERSE_REGISTER
    ensures var e, s := Inverted(cfg, sc.p, t), NormalisingShift(cfg, t);
      && Shaped(ApplyShift(e, s), sc)
      && (Zero(sc.p, ApplyShift(e, s)) ||
          BoundsOf(ApplyShift(FieldAccess(inverse), s)).AtMost(Reach(sc.p, Normalised(cfg, sc.p, t, inverse))))
  {
    hide Reach, Zero;
    var e, s, ie := Inverted(cfg, sc.p, t), NormalisingShift(cfg, t), FieldAccess(inverse);
    NormalisingShiftInBounds(cfg, t, sc);
    var inner := sc.(bounds := ShiftedBounds(sc.bounds, s));
    SimplifyShaped(ApplyShift(t, -s), inner);
    ShiftBy(e, s, inner, sc.bounds);
    ShiftBy(ie, s, inner, sc.bounds);
    ShiftProduct([e, ie], s);
    assert ApplyShiftAll([e, ie], s) == [ApplyShift(e, s), ApplyShift(ie, s)] by {
      assert [e, ie][1..] == [ie] && [ie][1..] == [];
      assert ApplyShiftAll([ie], s) == [ApplyShift(ie, s)];
    }
    AccessReach(ApplyShift(e, s), ApplyShift(ie, s), sc);
  }

  lemma NormalFormOutline(cfg: Config, p: Prime, t: Term, i: nat, j: nat)
    ensures Outline(NormalForm(cfg, p, t, i)) == Outline(NormalForm(cfg, p, t, j))
  {
    hide Inverted, NormalisingShift;
    var e, s := Inverted(cfg, p, t), NormalisingShift(cfg, t);
    OutlineShifted(Product([e, FieldAccess(i)]), s);
    OutlineShifted(Product([e, FieldAccess(j)]), s);
    OutlineProduct([e, FieldAccess(i)]);
    OutlineProduct([e, FieldAccess(j)]);
    assert OutlineAll([e, FieldAccess(i)]) == OutlineAll([e, FieldAccess(j)]);
  }

  lemma InequalityRealised(st: Setting, m: Module, l: Term, r: Term, inverse: nat, b: Bounds)
    requires Shaped(l, Scope(st.p, m.registers, b)) && Shaped(r, Scope(st.p, m.registers, b))
    requires NormalisedBy(st, m, Difference(l, r), NormalForm(st.config, st.p, Difference(l, r), inverse), b)
    ensures var t := InequalityTerm(st.config, st.p, Difference(l, r), inverse);
      && Shaped(t, Scope(st.p, m.registers, b))
      && Realises(st, m, [t], [Piece(Outline(InequalityTerm(st.config, st.p, Difference(l, r), 0)), NotEqual(l, r))], b)
  {
    hide NormalForm, Difference;
    var d := Difference(l, r);
    var norm, sc := NormalForm(st.config, st.p, d, inverse), Scope(st.p, m.registers, b);
    var t := InequalityTerm(st.config, st.p, d, inverse);
    SubtractShaped([Constant(1), norm], sc);
    SubtractReach(st.p, Constant(1), norm);
    NormalFormOutline(st.config, st.p, d, inverse, 0);
    OutlineSubtract([Constant(1), norm]);
    OutlineSubtract([Constant(1), NormalForm(st.config, st.p, d, 0)]);
    assert OutlineAll([Constant(1), norm]) == OutlineAll([Constant(1), NormalForm(st.config, st.p, d, 0)]);
    forall tb: Table, k: int | TraceOf(st.p, m, tb) ensures ExpressesOn(st, m, t, NotEqual(l, r), b, tb, k) {
      assert NormalisesOn(st, m, d, norm, b, tb, k) && Reach(st.p, t) == Reach(st.p, norm);
      DifferenceVanishes(l, r, sc, Row(st.p, tb, k));
      SubtractVanishes(Constant(1), norm, sc, Row(st.p, tb, k));
    }
  }

  // ---------------------------------------------------------------------------
  // Sums
  // ---------------------------------------------------------------------------

  lemma {:induction false} LeadingOutlines(bandwidth: nat, ts: seq<Term>, sum: int)
    ensures Leading(bandwidth, OutlineAll(ts), sum) == Leading(bandwidth, ts, sum)
  {
    if ts != [] {
      OutlineRange(ts[0]);
      LeadingOutlines(bandwidth, ts[1..], sum + MaxOf(ts[0]));
      assert OutlineAll(ts)[1..] == OutlineAll(ts[1..]);
    }
  }

  lemma {:induction false} LeadingPacks(bandwidth: nat, ts: seq<Term>, sum: int)
    requires sum < Pow2(bandwidth)
    ensures var n := Leading(bandwidth, ts, sum);
            (forall t :: t in ts[..n] ==> Unsigned(t)) && sum + MaxTotal(ts[..n]) < Pow2(bandwidth)
  {
    var n := Leading(bandwidth, ts, sum);
    if n > 0 {
      LeadingPacks(bandwidth, ts[1..], sum + MaxOf(ts[0]));
      assert ts[..n][1..] == ts[1..][..n - 1] && ts[..n] == [ts[0]] + ts[1..][..n - 1];
    }
  }

  lemma {:induction false} DistinctOutlines(ts: seq<Term>)
    ensures DistinctBounds(OutlineAll(ts)) == DistinctBounds(ts)
  {
    if ts != [] {
      var n := |ts| - 1;
      DistinctOutlines(ts[..n]);
      OutlineBounds(ts[n]);
      assert OutlineAll(ts)[..n] == OutlineAll(ts[..n]);
    }
  }

  lemma {:induction false} WithBoundsRealised(
    st: Setting, m: Module, ts: seq<Term>, ps: seq<Piece>, key: Bounds, b: Bounds)
    requires Realises(st, m, ts, ps, b)
    ensures Realises(st, m, WithBounds(ts, key), PiecesWithBounds(ps, key), b)
  {
    if ts != [] {
      var n := |ts| - 1;
      WithBoundsRealised(st, m, ts[..n], ps[..n], key, b);
      OutlineBounds(ts[n]);
    }
  }

  /** Where a sum is tested, so is each of its terms: packing never hides a failure. */
  lemma PacketRealised(bandwidth: nat, st: Setting, m: Module, packet: seq<Term>, ps: seq<Piece>, b: Bounds)
    requires Realises(st, m, packet, ps, b) && AllShaped(packet, Scope(st.p, m.registers, b))
    requires (|packet| == 1 || Packs(bandwidth, packet)) && Pow2(bandwidth) <= st.p
    ensures Realises(st, m, [Sum(packet)], [SumPiece(ps)], b)
  {
    hide Expresses, Packs, Reach, Shaped, BoundsOf, Trusted;
    var sc := Scope(st.p, m.registers, b);
    RealisesOutlines(st, m, packet, ps, b);
    OutlineSum(packet);
    SumReach(st.p, packet);
    SumExpresses(bandwidth, st, m, packet, ps, b);
  }

  lemma SumExpresses(bandwidth: nat, st: Setting, m: Module, packet: seq<Term>, ps: seq<Piece>, b: Bounds)
    requires Realises(st, m, packet, ps, b) && AllShaped(packet, Scope(st.p, m.registers, b))
    requires (|packet| == 1 || Packs(bandwidth, packet)) && Pow2(bandwidth) <= st.p
    ensures Expresses(st, m, Sum(packet), SumPiece(ps).goal, b)
  {
    hide Packs, Reach, Shaped, BoundsOf, Sum;
    var sc := Scope(st.p, m.registers, b);
    SumReach(st.p, packet);
    forall tb: Table, k: int | TraceOf(st.p, m, tb)
      ensures ExpressesOn(st, m, Sum(packet), SumPiece(ps).goal, b, tb, k)
    {
      var at := Row(st.p, tb, k);
      PackedVanishes(bandwidth, packet, sc, at);
      SumPieceHolds(ps, at);
      GoalsMet(Inside(st), ps, at);
      forall i | 0 <= i < |packet| ensures ExpressesOn(st, m, packet[i], ps[i].goal, b, tb, k) {
        assert Expresses(st, m, packet[i], ps[i].goal, b);
      }
      if Trusted(st.p, m, tb, k, Reach(st.p, Sum(packet)), b) {
        forall i | 0 <= i < |packet| ensures Trusted(st.p, m, tb, k, Reach(st.p, packet[i]), b) {
          ReachMember(st.p, packet, packet[i]);
          TrustedFor(st.p, m, tb, k, Reach(st.p, Sum(packet)), Reach(st.p, packet[i]), b);
        }
      }
      assert AllVanish(packet, at) <==> forall i :: 0 <= i < |packet| ==> Eval(packet[i], at) == 0;
      assert AllGoals(Inside(st), ps, at) <==> forall i :: 0 <= i < |ps| ==> Met(Inside(st), ps[i].goal, at);
    }
  }

  lemma SumPieceHolds(ps: seq<Piece>, at: Row)
    ensures Holds(SumPiece(ps).goal, at) <==> forall i :: 0 <= i < |ps| ==> Holds(ps[i].goal, at)
  {
    forall e | e in GoalsOf(ps) ensures exists i :: 0 <= i < |ps| && ps[i].goal == e {
      var i :| 0 <= i < |ps| && GoalsOf(ps)[i] == e;
      assert ps[i].goal == e;
    }
    assert forall i :: 0 <= i < |ps| ==> GoalsOf(ps)[i] in GoalsOf(ps);
  }

  lemma RealisesSplit(st: Setting, m: Module, ts: seq<Term>, ps: seq<Piece>, n: nat, b: Bounds)
    requires Realises(st, m, ts, ps, b) && AllShaped(ts, Scope(st.p, m.registers, b)) && n <= |ts|
    ensures Realises(st, m, ts[..n], ps[..n], b) && Realises(st, m, ts[n..], ps[n..], b)
    ensures AllShaped(ts[..n], Scope(st.p, m.registers, b)) && AllShaped(ts[n..], Scope(st.p, m.registers, b))
  {
    hide Expresses, Shaped, Outline;
  }

  lemma {:induction false} PacketsRealised(
    bandwidth: nat, st: Setting, m: Module, group: seq<Term>, ps: seq<Piece>, b: Bounds)
    requires Realises(st, m, group, ps, b) && AllShaped(group, Scope(st.p, m.registers, b)) && Pow2(bandwidth) <= st.p
    ensures Realises(st, m, SumPackets(bandwidth, group), SumPieces(bandwidth, ps), b)
  {
    hide Expresses, Shaped, Pow2;
    if group != [] {
      RealisesOutlines(st, m, group, ps, b);
      LeadingOutlines(bandwidth, group, 0);
      var n := PacketLength(bandwidth, group);
      LeadingPacks(bandwidth, group, 0);
      RealisesSplit(st, m, group, ps, n, b);
      PacketRealised(bandwidth, st, m, group[..n], ps[..n], b);
      PacketsRealised(bandwidth, st, m, group[n..], ps[n..], b);
      RealisesConcat(st, m, [Sum(group[..n])], [SumPiece(ps[..n])],
                     SumPackets(bandwidth, group[n..]), SumPieces(bandwidth, ps[n..]), b);
    }
  }

  lemma {:induction false} GroupsRealised(
    bandwidth: nat, st: Setting, m: Module, ts: seq<Term>, ps: seq<Piece>, keys: seq<Bounds>, b: Bounds)
    requires Realises(st, m, ts, ps, b) && AllShaped(ts, Scope(st.p, m.registers, b)) && Pow2(bandwidth) <= st.p
    ensures Realises(st, m, SumGroups(bandwidth, ts, keys), SumPieceGroups(bandwidth, ps, keys), b)
  {
    hide Realises, SumPackets, SumPieces, Shaped;
    if keys != [] {
      var init, last := keys[..|keys| - 1], keys[|keys| - 1];
      GroupsRealised(bandwidth, st, m, ts, ps, init, b);
      WithBoundsRealised(st, m, ts, ps, last, b);
      WithBoundsMembers(ts, last);
      PacketsRealised(bandwidth, st, m, WithBounds(ts, last), PiecesWithBounds(ps, last), b);
      RealisesConcat(
        st, m, SumGroups(bandwidth, ts, init), SumPieceGroups(bandwidth, ps, init),
        SumPackets(bandwidth, WithBounds(ts, last)), SumPieces(bandwidth, PiecesWithBounds(ps, last)), b);
    } else {
      NothingRealised(st, m, b);
    }
  }

  lemma NothingRealised(st: Setting, m: Module, b: Bounds)
    ensures Realises(st, m, [], [], b)
  {
  }

  lemma SumsRealised(bandwidth: nat, st: Setting, m: Module, ts: seq<Term>, ps: seq<Piece>, b: Bounds)
    requires Realises(st, m, ts, ps, b) && AllShaped(ts, Scope(st.p, m.registers, b)) && Pow2(bandwidth) <= st.p
    ensures Realises(st, m, Sums(bandwidth, ts), Summed(bandwidth, ps), b)
  {
    RealisesOutlines(st, m, ts, ps, b);
    DistinctOutlines(ts);
    GroupsRealised(bandwidth, st, m, ts, ps, DistinctBounds(ts), b);
  }

  // ---------------------------------------------------------------------------
  // Products
  // ---------------------------------------------------------------------------

  /** Where a product is tested, so are both of its factors, unless one of them always vanishes. */
  lemma ProductExpresses(st: Setting, m: Module, l: Term, r: Term, lq: Piece, rq: Piece, b: Bounds)
    requires Shaped(l, Scope(st.p, m.registers, b)) && Shaped(r, Scope(st.p, m.registers, b))
    requires Expresses(st, m, l, lq.goal, b) && Expresses(st, m, r, rq.goal, b)
    requires FoldsExactly(st.p, l) && FoldsExactly(st.p, r)
    ensures Expresses(st, m, Product([l, r]), EitherPiece(lq, rq).goal, b)
  {
    hide Reach, Shaped, BoundsOf, Product, FoldsExactly, Zero;
    var sc, t := Scope(st.p, m.registers, b), Product([l, r]);
    FactorsReach(l, r, sc);
    forall tb: Table, k: int | TraceOf(st.p, m, tb)
      ensures ExpressesOn(st, m, t, EitherPiece(lq, rq).goal, b, tb, k)
    {
      var at := Row(st.p, tb, k);
      ProductVanishes(l, r, sc, at);
      EitherHolds(lq, rq, at);
      EitherMeans(Inside(st), lq, rq, at);
      assert ExpressesOn(st, m, l, lq.goal, b, tb, k) && ExpressesOn(st, m, r, rq.goal, b, tb, k);
      if Zero(st.p, l) {
        ZeroVanishes(l, sc, at);
      } else if Zero(st.p, r) {
        ZeroVanishes(r, sc, at);
      } else if Trusted(st.p, m, tb, k, Reach(st.p, t), b) {
        TrustedFor(st.p, m, tb, k, Reach(st.p, t), Reach(st.p, l), b);
        TrustedFor(st.p, m, tb, k, Reach(st.p, t), Reach(st.p, r), b);
      }
    }
  }

  lemma EitherHolds(l: Piece, r: Piece, at: Row)
    ensures Holds(EitherPiece(l, r).goal, at) <==> Holds(l.goal, at) || Holds(r.goal, at)
  {
    assert l.goal in [l.goal, r.goal] && r.goal in [l.goal, r.goal];
  }

  lemma FactorsReach(l: Term, r: Term, sc: Scope)
    requires Shaped(l, sc) && Shaped(r, sc)
    ensures Zero(sc.p, l) ==> Reach(sc.p, l) == EMPTY_BOUND
    ensures Zero(sc.p, r) ==> Reach(sc.p, r) == EMPTY_BOUND
    ensures !Zero(sc.p, l) && !Zero(sc.p, r) ==>
              Reach(sc.p, Product([l, r])) == Reach(sc.p, l).Union(Reach(sc.p, r))
  {
    ProductReach([l, r], sc);
    ReachConcat(sc.p, [l], [r]);
    assert [l, r] == [l] + [r];
    ReachSingle(sc.p, l);
    ReachSingle(sc.p, r);
  }

  lemma ZeroVanishes(t: Term, sc: Scope, at: Row)
    requires Shaped(t, sc) && at.Over(sc) && FoldsExactly(at.p, t) && Zero(at.p, t)
    ensures Eval(t, at) == 0
  {
    SimplifyEval(t, sc, at);
  }

  lemma EitherRealised(st: Setting, m: Module, l: Term, r: Term, lq: Piece, rq: Piece, b: Bounds)
    requires AllShaped([l, r], Scope(st.p, m.registers, b)) && AllExact(st.p, [l, r])
    requires Realises(st, m, [l], [lq], b) && Realises(st, m, [r], [rq], b)
    ensures Realises(st, m, [Product([l, r])], [EitherPiece(lq, rq)], b)
  {
    assert l in [l, r] && r in [l, r];
    assert [l][0] == l && [lq][0] == lq && [r][0] == r && [rq][0] == rq;
    ProductExpresses(st, m, l, r, lq, rq, b);
    OutlineProduct([l, r]);
    assert OutlineAll([l, r]) == [lq.outline, rq.outline];
  }

  lemma RealisesParts(st: Setting, m: Module, ts: seq<Term>, ps: seq<Piece>, b: Bounds)
    requires Realises(st, m, ts, ps, b) && ts != []
    ensures Realises(st, m, [ts[0]], [ps[0]], b) && Realises(st, m, ts[1..], ps[1..], b)
  {
  }

  lemma {:induction false} DistributeRealised(
    st: Setting, m: Module, l: Term, rs: seq<Term>, lq: Piece, rqs: seq<Piece>, b: Bounds)
    requires Realises(st, m, [l], [lq], b) && Realises(st, m, rs, rqs, b)
    requires AllShaped([l] + rs, Scope(st.p, m.registers, b)) && AllExact(st.p, [l] + rs)
    ensures Realises(st, m, Distribute(l, rs), DistributePiece(lq, rqs), b)
  {
    hide Expresses, FoldsExactly, Shaped, Product;
    if rs != [] {
      RealisesParts(st, m, rs, rqs, b);
      assert forall t :: t in [l] + rs[1..] ==> t in [l] + rs;
      assert forall t :: t in [l, rs[0]] ==> t in [l] + rs;
      EitherRealised(st, m, l, rs[0], lq, rqs[0], b);
      DistributeRealised(st, m, l, rs[1..], lq, rqs[1..], b);
      RealisesConcat(st, m, [Product([l, rs[0]])], [EitherPiece(lq, rqs[0])],
                     Distribute(l, rs[1..]), DistributePiece(lq, rqs[1..]), b);
    }
  }

  lemma {:induction false} DistributeAllRealised(
    st: Setting, m: Module, ls: seq<Term>, rs: seq<Term>, lqs: seq<Piece>, rqs: seq<Piece>, b: Bounds)
    requires Realises(st, m, ls, lqs, b) && Realises(st, m, rs, rqs, b)
    requires AllShaped(ls + rs, Scope(st.p, m.registers, b)) && AllExact(st.p, ls + rs)
    ensures Realises(st, m, DistributeAll(ls, rs), DistributePieces(lqs, rqs), b)
  {
    hide Expresses, FoldsExactly, Shaped, Distribute;
    if ls != [] {
      RealisesParts(st, m, ls, lqs, b);
      assert forall t :: t in ls[1..] + rs ==> t in ls + rs;
      assert forall t :: t in [ls[0]] + rs ==> t in ls + rs;
      DistributeRealised(st, m, ls[0], rs, lqs[0], rqs, b);
      DistributeAllRealised(st, m, ls[1..], rs, lqs[1..], rqs, b);
      RealisesConcat(st, m, Distribute(ls[0], rs), DistributePiece(lqs[0], rqs),
                     DistributeAll(ls[1..], rs), DistributePieces(lqs[1..], rqs), b);
    }
  }

  lemma {:induction false} ChoicesRealised(st: Setting, m: Module, tss: seq<seq<Term>>, pss: seq<seq<Piece>>, b: Bounds)
    requires |tss| == |pss| && AllListsShaped(tss, Scope(st.p, m.registers, b))
    requires forall i :: 0 <= i < |tss| ==> Realises(st, m, tss[i], pss[i], b)
    ensures Realises(st, m, DisjunctionOf(tss), Choices(pss), b)
  {
    hide Expresses, FoldsExactly, Shaped, DistributeAll;
    if |tss| == 0 {
      FailureRealised(st, m, b);
    } else if |tss| > 1 {
      var sc := Scope(st.p, m.registers, b);
      assert AllListsShaped(tss[1..], sc);
      DisjunctionShaped(tss[1..], sc);
      ChoicesRealised(st, m, tss[1..], pss[1..], b);
      DistributeAllRealised(st, m, tss[0], DisjunctionOf(tss[1..]), pss[0], Choices(pss[1..]), b);
    }
  }

  lemma FailureRealised(st: Setting, m: Module, b: Bounds)
    ensures Realises(st, m, [Constant(1)], [Piece(Constant(1), FALSE)], b)
  {
  }
}
