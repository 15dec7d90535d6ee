// Normalisation: turning a term into one which is 0 where it vanishes, and 1 everywhere else.

/** The module under construction at the lower level. */
module Modules {
  import opened Options
  import opened Congruence
  import opened PrimeField
  import opened Tables
  import opened Terms
  import opened Builders
  import opened Packing

  /** A computed register holding the pseudo-inverse of an expression. */
  datatype PseudoInverse = PseudoInverse(target: nat, expr: Term)

  /** A constraint on all rows of a module or, if it has a domain, on just one of them. */
  datatype Vanishing<T> = Vanishing(domain: Option<int>, constraint: T)

  datatype Module = Module(
    registers: seq<Register>, assignments: seq<PseudoInverse>, constraints: seq<Vanishing<Term>>)

  /** A constraint on all rows. */
  function Everywhere<T>(constraint: T): Vanishing<T> {
    Vanishing(None, constraint)
  }

  /** The row of a local constraint, where negative domains count from the end of the table. */
  function RowOf(domain: int, height: nat): int {
    if domain < 0 then height + domain else domain
  }

  /**
   * Whether something with the given bounds is tested on row k: anywhere within its bounds, unless
   * there is a domain, in which case the bounds do not matter.
   */
  predicate TestedOn(domain: Option<int>, b: Bounds, k: int, height: nat) {
    if domain.None? then b.Covers(k, height) else k == RowOf(domain.value, height)
  }

  ghost predicate Obeys(p: Prime, c: Vanishing<Term>, tb: Table) {
    forall k :: TestedOn(c.domain, BoundsOf(c.constraint), k, tb.height) ==> Eval(c.constraint, Row(p, tb, k)) == 0
  }

  ghost predicate AllObeyed(p: Prime, cs: seq<Vanishing<Term>>, tb: Table) {
    forall c :: c in cs ==> Obeys(p, c, tb)
  }

  /** Read a native register on the current row. */
  function FieldAccess(r: nat): Term {
    RegisterAccess(r, None, 0)
  }

  const INVERSE_REGISTER := Register(None, 0, false)

  /** The constraint which forces a register to hold an inverse: e != 0 ==> 1 == e * inv. */
  function InverseProof(a: PseudoInverse): Term {
    Product([a.expr, Subtract([Constant(1), Product([a.expr, FieldAccess(a.target)])])])
  }

  ghost predicate AssignmentValid(p: Prime, m: Module, a: PseudoInverse) {
    && a.target < |m.registers| && m.registers[a.target] == INVERSE_REGISTER
    && Shaped(a.expr, Scope(p, m.registers[..a.target], BoundsOf(a.expr)))
    && Everywhere(InverseProof(a)) in m.constraints
  }

  /** Every inverse register comes with a constraint proving it, and all of them follow the source registers. */
  ghost predicate ModuleValid(p: Prime, m: Module) {
    && |m.assignments| <= |m.registers|
    && (forall i :: 0 <= i < |m.assignments| ==> m.assignments[i].target == SourceWidth(m) + i)
    && forall a :: a in m.assignments ==> AssignmentValid(p, m, a)
  }

  /** The number of registers which are not inverses. */
  ghost function SourceWidth(m: Module): int {
    |m.registers| - |m.assignments|
  }

  /** Modules only ever grow, by no registers other than inverses. */
  ghost predicate Extends(m: Module, n: Module) {
    && m.registers <= n.registers && m.assignments <= n.assignments && m.constraints <= n.constraints
    && SourceWidth(m) == SourceWidth(n)
  }

  /** Growth by nothing but inverse registers and the proofs they come with. */
  ghost predicate Grows(m: Module, n: Module) {
    && Extends(m, n)
    && forall c :: c in n.constraints ==> c in m.constraints || IsProof(n, c)
  }

  ghost predicate IsProof(m: Module, c: Vanishing<Term>) {
    exists a :: a in m.assignments && c == Everywhere(InverseProof(a))
  }

  lemma GrowsTransitive(l: Module, m: Module, n: Module)
    requires Grows(l, m) && Grows(m, n)
    ensures Grows(l, n)
  {
    forall c | c in n.constraints && c !in l.constraints ensures IsProof(n, c) {
      if c in m.constraints {
        var a :| a in m.assignments && c == Everywhere(InverseProof(a));
        assert a in n.assignments;
      }
    }
  }

  /** A trace whose inverse registers satisfy the constraints placed upon them, however they came about. */
  ghost predicate InversesHold(p: Prime, m: Module, tb: Table) {
    && tb.Valid(p) && m.registers <= tb.registers
    && forall a :: a in m.assignments ==> Accepts(p, InverseProof(a), tb)
  }

  lemma InversesHoldBefore(p: Prime, m: Module, n: Module, tb: Table)
    requires InversesHold(p, n, tb) && Extends(m, n)
    ensures InversesHold(p, m, tb)
  {
    assert forall a :: a in m.assignments ==> a in n.assignments;
  }

  /** An accepted trace holds a true inverse wherever the inverted expression does not vanish. */
  lemma InverseAt(p: Prime, m: Module, a: PseudoInverse, tb: Table, k: int)
    requires AssignmentValid(p, m, a) && InversesHold(p, m, tb) && a in m.assignments
    requires BoundsOf(a.expr).Covers(k, tb.height)
    ensures var at := Row(p, tb, k);
            Eval(Product([a.expr, FieldAccess(a.target)]), at) == if Eval(a.expr, at) == 0 then 0 else 1
  {
    var at, sc := Row(p, tb, k), Scope(p, m.registers, BoundsOf(a.expr));
    var ie := FieldAccess(a.target);
    var e_ie := Product([a.expr, ie]);
    var one := Constant(1);
    ShapedWiden(a.expr, sc.(regs := m.registers[..a.target]), sc);
    ProductShaped([a.expr, ie], sc);
    SubtractVanishes(one, e_ie, sc, at);
    var gap := Subtract([one, e_ie]);
    ProductShaped([a.expr, gap], sc);
    ShapedBounds(InverseProof(a), sc);
    assert Eval(InverseProof(a), at) == 0;
    ProductOfTwo(a.expr, gap, sc, at);
    ProductOfTwo(a.expr, ie, sc, at);
    EvalIsElement(a.expr, sc, at);
    EvalIsElement(gap, sc, at);
    SmallModulus(p, Eval(a.expr, at));
    SmallModulus(p, Eval(gap, at));
    NoZeroDivisors(p, Eval(a.expr, at), Eval(gap, at));
    if Eval(a.expr, at) == 0 {
      SmallModulus(p, 0);
    }
  }

  lemma ProductOfTwo(x: Term, y: Term, sc: Scope, at: Row)
    requires Shaped(x, sc) && Shaped(y, sc) && at.Over(sc)
    ensures Shaped(Product([x, y]), sc)
    ensures Eval(Product([x, y]), at) == FMul(at.p, Eval(x, at), Eval(y, at))
  {
    ProductShaped([x, y], sc);
    ProductEval([x, y], sc, at);
    assert [x, y] == [x] + [y];
    ProductOfConcat([x], [y], at);
    ProductOfSingle(x, at);
    ProductOfSingle(y, at);
  }
}

module Normalisation {
  import opened Options
  import opened Congruence
  import opened PrimeField
  import opened Intervals
  import opened Tables
  import opened Terms
  import opened Builders
  import opened Ranges
  import opened Simplify
  import opened Packing
  import opened Modules
  import opened Reaches

  /** The optimisations applied during lowering, and the bits which the field can carry. */
  datatype Config = Config(fieldBandwidth: nat, inverseElimination: nat, shiftNormalisation: bool)

  const BINARY := Range(Finite(0), Finite(1))
  const TERNARY := Range(Finite(-1), Finite(1))

  /** Terms known to be 0 or 1 are normalised already. */
  predicate IsBinary(cfg: Config, t: Term)
    requires RangeOf(t).Proper()
  {
    cfg.inverseElimination > 0 && RangeOf(t).Within(BINARY)
  }

  /** Terms known to be -1, 0 or 1 are normalised by squaring. */
  predicate IsTernary(cfg: Config, t: Term)
    requires RangeOf(t).Proper()
  {
    cfg.inverseElimination > 0 && RangeOf(t).Within(TERNARY)
  }

  /** By how many rows to shift a term before inverting it, so shifted copies share their inverses. */
  function NormalisingShift(cfg: Config, t: Term): int {
    var (min, max) := ShiftRange(t);
    if !cfg.shiftNormalisation then 0 else if max < 0 then max else if min > 0 then min else 0
  }

  /**
   * The shift is the least one with which any register is read if all are positive, the greatest one if
   * all are negative, and 0 in between or if shifts are not normalised.
   */
  lemma NormalisingShiftIs(cfg: Config, t: Term)
    requires Reads(t) && ReadsWithin(t, MIN_INT, MAX_INT)
    ensures var s := NormalisingShift(cfg, t);
      && (!cfg.shiftNormalisation ==> s == 0)
      && (cfg.shiftNormalisation ==>
            && ((forall n :: ReadsAt(t, n) ==> n > 0) ==> ReadsAt(t, s) && forall n :: ReadsAt(t, n) ==> s <= n)
            && ((forall n :: ReadsAt(t, n) ==> n < 0) ==> ReadsAt(t, s) && forall n :: ReadsAt(t, n) ==> n <= s)
            && ((exists n :: ReadsAt(t, n) && n <= 0) && (exists n :: ReadsAt(t, n) && n >= 0) ==> s == 0))
  {
    ShiftRangeExact(t);
  }

  /** In particular, if no shift is negative it is the least one, and if none is positive the greatest. */
  lemma NormalisingShiftAtEnd(cfg: Config, t: Term, s: int)
    requires cfg.shiftNormalisation && ReadsWithin(t, MIN_INT, MAX_INT) && ReadsAt(t, s)
    ensures (forall n :: ReadsAt(t, n) ==> 0 <= s <= n) ==> NormalisingShift(cfg, t) == s
    ensures (forall n :: ReadsAt(t, n) ==> n <= s <= 0) ==> NormalisingShift(cfg, t) == s
  {
    ReadsSomewhere(t, s);
    ShiftRangeExact(t);
  }

  /** What is actually inverted. */
  function Inverted(cfg: Config, p: Prime, t: Term): Term {
    SimplifyTerm(p, ApplyShift(t, -NormalisingShift(cfg, t)))
  }

  /**
   * Shifted copies share their inverse: if neither reads any row behind the current one, or neither reads
   * any row ahead, then the same is inverted for both.
   */
  lemma InvertedShared(cfg: Config, p: Prime, t: Term, n: int)
    requires cfg.shiftNormalisation && Reads(t)
    requires ReadsWithin(t, MIN_INT, MAX_INT) && ReadsWithin(ApplyShift(t, n), MIN_INT, MAX_INT)
    requires (ReadsWithin(t, 0, MAX_INT) && ReadsWithin(ApplyShift(t, n), 0, MAX_INT))
          || (ReadsWithin(t, MIN_INT, 0) && ReadsWithin(ApplyShift(t, n), MIN_INT, 0))
    ensures Inverted(cfg, p, ApplyShift(t, n)) == Inverted(cfg, p, t)
    ensures NormalisingShift(cfg, ApplyShift(t, n)) == NormalisingShift(cfg, t) + n
  {
    hide SimplifyTerm, NormalisingShift;
    var u := ApplyShift(t, n);
    ShiftRangeExact(t);
    var ahead := ReadsWithin(t, 0, MAX_INT) && ReadsWithin(u, 0, MAX_INT);
    var s := if ahead then ShiftRange(t).0 else ShiftRange(t).1;
    forall m ensures ReadsAt(u, m) <==> ReadsAt(t, m - n) {
      ShiftedReads(t, n, m);
    }
    assert ReadsAt(u, s + n) && ReadsAt(t, s);
    NormalisingShiftAtEnd(cfg, t, s);
    NormalisingShiftAtEnd(cfg, u, s + n);
    ShiftTwice(t, n, -(s + n));
  }

  /** Whether a term can be normalised: it simplifies exactly, and shifting is not attempted in vain. */
  predicate Normalisable(cfg: Config, p: Prime, t: Term)
    requires RangeOf(t).Proper()
  {
    || IsBinary(cfg, t)
    || IsTernary(cfg, t)
    || (FoldsExactly(p, ApplyShift(t, -NormalisingShift(cfg, t))) && (cfg.shiftNormalisation ==> Reads(t)))
  }

  /** Inverses are done without if and only if this is asked for and the values in question allow it. */
  lemma WithoutInverseIff(cfg: Config, t: Term)
    requires RangeOf(t).Proper()
    ensures IsBinary(cfg, t) <==> cfg.inverseElimination > 0 && forall v :: RangeOf(t).Contains(v) ==> 0 <= v <= 1
    ensures IsTernary(cfg, t) <==> cfg.inverseElimination > 0 && forall v :: RangeOf(t).Contains(v) ==> -1 <= v <= 1
  {
    WithinFinite(RangeOf(t), 0, 1);
    WithinFinite(RangeOf(t), -1, 1);
    hide Range.Within, Range.Contains, RangeOf;
  }

  lemma BinaryIsNormal(cfg: Config, t: Term, sc: Scope, at: Row)
    requires Shaped(t, sc) && at.Over(sc) && RangeOf(t).Proper() && IsBinary(cfg, t)
    ensures Eval(t, at) == 0 || Eval(t, at) == 1
  {
    RangeSound(t, sc, at);
    EvalIsIntEval(t, sc, at);
    WithinSound(RangeOf(t), BINARY, IntEval(t, at));
    SmallModulus(at.p, IntEval(t, at));
  }

  lemma SquareIsNormal(cfg: Config, t: Term, sc: Scope, at: Row)
    requires Shaped(t, sc) && at.Over(sc) && RangeOf(t).Proper() && IsTernary(cfg, t)
    ensures Shaped(Product([t, t]), sc)
    ensures Eval(Product([t, t]), at) == if Eval(t, at) == 0 then 0 else 1
  {
    RangeSound(t, sc, at);
    EvalIsIntEval(t, sc, at);
    var v := IntEval(t, at);
    WithinSound(RangeOf(t), TERNARY, v);
    ProductOfTwo(t, t, sc, at);
    SameMod(at.p, v);
    SameMul(at.p, Eval(t, at), v, Eval(t, at), v);
    if v == -1 {
      RemainderUnique(at.p, v, -1, at.p - 1);
    } else {
      SmallModulus(at.p, v);
    }
    SmallModulus(at.p, v * v);
  }

  /** The bounds of a term once shifted for normalisation. */
  function ShiftedBounds(b: Bounds, shift: int): Bounds
    requires 0 <= b.start + shift && shift <= b.end
  {
    if shift < 0 then Bounds(b.start + shift, 0) else if shift > 0 then Bounds(0, b.end - shift) else b
  }

  /** The shift stays within the bounds of the term, so the inverse is read on a row which exists. */
  lemma NormalisingShiftInBounds(cfg: Config, t: Term, sc: Scope)
    requires Shaped(t, sc) && FitsInt(sc.bounds) && (cfg.shiftNormalisation ==> Reads(t))
    ensures var s := NormalisingShift(cfg, t);
      && 0 <= sc.bounds.start + s && s <= sc.bounds.end
      && Shaped(ApplyShift(t, -s), sc.(bounds := ShiftedBounds(sc.bounds, s)))
  {
    var s := NormalisingShift(cfg, t);
    if s == 0 {
      ShiftBy(t, 0, sc, sc.bounds);
    } else {
      ShiftRangeInBounds(t, sc);
      var (lo, hi) := ShiftRange(t);
      ApplyShiftShaped(t, -s, sc, lo, hi, ShiftedBounds(sc.bounds, s));
    }
  }

  /** Shifting a term by s rows shifts its bounds by at most as much. */
  lemma {:induction false} ShiftBy(t: Term, shift: int, sc: Scope, b: Bounds)
    requires Shaped(t, sc) && sc.bounds.start - shift <= b.start && sc.bounds.end + shift <= b.end
    ensures Shaped(ApplyShift(t, shift), sc.(bounds := b))
    decreases t, 0
  {
    if t.Add? || t.Sub? || t.Mul? {
      ShiftAllBy(t.args, shift, sc, b);
    }
  }

  lemma {:induction false} ShiftAllBy(ts: seq<Term>, shift: int, sc: Scope, b: Bounds)
    requires AllShaped(ts, sc) && sc.bounds.start - shift <= b.start && sc.bounds.end + shift <= b.end
    ensures AllShaped(ApplyShiftAll(ts, shift), sc.(bounds := b))
    decreases ts, 1
  {
    if ts != [] {
      ShiftBy(ts[0], shift, sc, b);
      ShiftAllBy(ts[1..], shift, sc, b);
    }
  }

  /** The normalised form of a term whose inverse is held in a given register. */
  function Normalised(cfg: Config, p: Prime, t: Term, inverse: nat): Term {
    ApplyShift(Product([Inverted(cfg, p, t), FieldAccess(inverse)]), NormalisingShift(cfg, t))
  }

  lemma NormalisedShaped(cfg: Config, t: Term, inverse: nat, sc: Scope)
    requires Shaped(t, sc) && FitsInt(sc.bounds) && (cfg.shiftNormalisation ==> Reads(t))
    requires inverse < |sc.regs| && sc.regs[inverse] == INVERSE_REGISTER
    ensures Shaped(Inverted(cfg, sc.p, t), sc.(bounds := BoundsOf(Inverted(cfg, sc.p, t))))
    ensures Shaped(Normalised(cfg, sc.p, t, inverse), sc)
  {
    var s := NormalisingShift(cfg, t);
    NormalisingShiftInBounds(cfg, t, sc);
    var inner := sc.(bounds := ShiftedBounds(sc.bounds, s));
    SimplifyShaped(ApplyShift(t, -s), inner);
    ShapedBounds(Inverted(cfg, sc.p, t), inner);
    ProductShaped([Inverted(cfg, sc.p, t), FieldAccess(inverse)], inner);
    ShiftBy(Product([Inverted(cfg, sc.p, t), FieldAccess(inverse)]), s, inner, sc.bounds);
  }

  // The inverted expression has, on the shifted row, the value of the original one.
  lemma InvertedEval(cfg: Config, t: Term, sc: Scope, at: Row)
    requires Shaped(t, sc) && FitsInt(sc.bounds) && at.Over(sc)
    requires FoldsExactly(sc.p, ApplyShift(t, -NormalisingShift(cfg, t))) && (cfg.shiftNormalisation ==> Reads(t))
    ensures Eval(Inverted(cfg, sc.p, t), at.(k := at.k + NormalisingShift(cfg, t))) == Eval(t, at)
    ensures sc.bounds.Covers(at.k, at.tb.height) ==>
              BoundsOf(Inverted(cfg, sc.p, t)).Covers(at.k + NormalisingShift(cfg, t), at.tb.height)
  {
    hide NormalisingShift, Shaped, FoldsExactly, BoundsOf, SimplifyTerm, ApplyShift;
    var s := NormalisingShift(cfg, t);
    NormalisingShiftInBounds(cfg, t, sc);
    var inner := sc.(bounds := ShiftedBounds(sc.bounds, s));
    var there := at.(k := at.k + s);
    SimplifyShaped(ApplyShift(t, -s), inner);
    ShapedBounds(Inverted(cfg, sc.p, t), inner);
    SimplifyEval(ApplyShift(t, -s), inner, there);
    ApplyShiftEval(t, -s, there);
    assert there.(k := there.k - s) == at;
  }

  /** On every row where a term is defined, its normalised form is 0 if it vanishes, and 1 otherwise. */
  lemma NormalisedEval(cfg: Config, t: Term, inverse: nat, sc: Scope, m: Module, tb: Table, k: int)
    requires Shaped(t, sc) && FitsInt(sc.bounds) && sc.regs <= m.registers
    requires FoldsExactly(sc.p, ApplyShift(t, -NormalisingShift(cfg, t))) && (cfg.shiftNormalisation ==> Reads(t))
    requires var a := PseudoInverse(inverse, Inverted(cfg, sc.p, t));
             a in m.assignments && AssignmentValid(sc.p, m, a)
    requires InversesHold(sc.p, m, tb) && sc.bounds.Covers(k, tb.height)
    ensures var at := Row(sc.p, tb, k);
            Eval(Normalised(cfg, sc.p, t, inverse), at) == if Eval(t, at) == 0 then 0 else 1
  {
    var at := Row(sc.p, tb, k);
    var s := NormalisingShift(cfg, t);
    var e := Inverted(cfg, sc.p, t);
    InvertedEval(cfg, t, sc, at);
    hide Inverted, NormalisingShift, InverseProof, Shaped, BoundsOf, FoldsExactly;
    ApplyShiftEval(Product([e, FieldAccess(inverse)]), s, at);
    InverseAt(sc.p, m, PseudoInverse(inverse, e), tb, k + s);
  }

  // Over no registers at all, there is nothing to shift.
  lemma {:induction false} NothingToShift(t: Term, shift: int, sc: Scope)
    requires Shaped(t, sc) && sc.regs == []
    ensures ApplyShift(t, shift) == t
    decreases t, 0
  {
    if t.Add? || t.Sub? || t.Mul? {
      NothingInAllToShift(t.args, shift, sc);
    }
  }

  lemma {:induction false} NothingInAllToShift(ts: seq<Term>, shift: int, sc: Scope)
    requires AllShaped(ts, sc) && sc.regs == []
    ensures ApplyShiftAll(ts, shift) == ts
    decreases ts, 1
  {
    if ts != [] {
      NothingToShift(ts[0], shift, sc);
      NothingInAllToShift(ts[1..], shift, sc);
    }
  }

  lemma {:induction false} ShapedWithoutAccess(t: Term, sc: Scope)
    requires Shaped(t, sc) && !Reads(t)
    ensures Shaped(t, sc.(regs := []))
  {
    if t.Add? || t.Sub? || t.Mul? {
      forall a | a in t.args ensures Shaped(a, sc.(regs := [])) {
        ShapedWithoutAccess(a, sc);
      }
    }
  }

  // The only access of its normal form is that of the inverse.
  lemma WithoutAccess(cfg: Config, t: Term, inverse: nat, sc: Scope)
    requires Shaped(t, sc) && !Reads(t) && cfg.shiftNormalisation
    ensures Shaped(Inverted(cfg, sc.p, t), sc.(regs := []))
    ensures Normalised(cfg, sc.p, t, inverse)
         == Product([Inverted(cfg, sc.p, t), RegisterAccess(inverse, None, MIN_INT)])
  {
    var none := sc.(regs := []);
    ShiftRangeOfConstants(t);
    ShapedWithoutAccess(t, sc);
    NothingToShift(t, -MIN_INT, none);
    SimplifyShaped(t, none);
    var e := SimplifyTerm(sc.p, t);
    NothingToShift(e, MIN_INT, none);
    ShiftProduct([e, FieldAccess(inverse)], MIN_INT);
    assert [e, FieldAccess(inverse)][1..] == [FieldAccess(inverse)] && [FieldAccess(inverse)][1..] == [];
    assert ApplyShiftAll([FieldAccess(inverse)], MIN_INT) == [RegisterAccess(inverse, None, MIN_INT)];
  }

  /**
   * With shift normalisation, an inequality without any access is never checked: there is nothing to
   * take a shift from, so the inverse is read so far outside of the table that its access admits no
   * row of any table.  Unless the difference is recognised as zero, all tables are accepted.
   */
  lemma InequalityWithoutAccess(cfg: Config, t: Term, inverse: nat, sc: Scope)
    requires Shaped(t, sc) && !Reads(t) && cfg.shiftNormalisation
    requires inverse < |sc.regs| && sc.regs[inverse] == INVERSE_REGISTER
    requires !Zero(sc.p, Inverted(cfg, sc.p, t))
    ensures var unequal := SimplifyTerm(sc.p, Subtract([Constant(1), Normalised(cfg, sc.p, t, inverse)]));
            forall tb: Table :: tb.height <= MAX_INT ==> Accepts(sc.p, unequal, tb)
  {
    hide Inverted, Zero, Reach, ApplyShift;
    var e, norm := Inverted(cfg, sc.p, t), Normalised(cfg, sc.p, t, inverse);
    WithoutAccess(cfg, t, inverse, sc);
    var far := sc.(bounds := sc.bounds.Union(Bounds(-MIN_INT, 0)));
    ShapedWiden(e, sc.(regs := []), far);
    AccessReach(e, RegisterAccess(inverse, None, MIN_INT), far);
    SubtractReach(sc.p, Constant(1), norm);
    ReachIs(sc.p, Subtract([Constant(1), norm]));
  }

  lemma ReachIs(p: Prime, t: Term)
    ensures BoundsOf(SimplifyTerm(p, t)) == Reach(p, t)
  {
  }

  /**
   * On the single row of a local constraint, which is checked regardless of bounds, the normalised
   * form of such a term is always 0: only the padding of the inverse is ever found.
   */
  lemma NormalisedWithoutAccess(cfg: Config, t: Term, inverse: nat, sc: Scope, tb: Table, k: int)
    requires Shaped(t, sc) && !Reads(t) && cfg.shiftNormalisation
    requires inverse < |sc.regs| && sc.regs[inverse] == INVERSE_REGISTER
    requires sc.regs <= tb.registers && tb.Valid(sc.p) && 0 <= k < tb.height <= MAX_INT
    ensures Eval(Normalised(cfg, sc.p, t, inverse), Row(sc.p, tb, k)) == 0
  {
    hide Inverted, Normalised, Shaped;
    var at, e, ie := Row(sc.p, tb, k), Inverted(cfg, sc.p, t), RegisterAccess(inverse, None, MIN_INT);
    var far := sc.(bounds := sc.bounds.Union(Bounds(-MIN_INT, 0)));
    WithoutAccess(cfg, t, inverse, sc);
    ShapedWiden(e, sc.(regs := []), far);
    FarAccess(inverse, far, at);
    ProductOfTwo(e, ie, far, at);
    SmallModulus(sc.p, 0);
  }

  lemma FarAccess(inverse: nat, sc: Scope, at: Row)
    requires inverse < |sc.regs| && sc.regs[inverse] == INVERSE_REGISTER && at.Over(sc)
    requires 0 <= at.k < at.tb.height <= MAX_INT && sc.bounds.start >= -MIN_INT
    ensures Shaped(RegisterAccess(inverse, None, MIN_INT), sc)
    ensures Eval(RegisterAccess(inverse, None, MIN_INT), at) == 0
  {
    assert at.tb.ColumnValid(sc.p, at.tb.registers[inverse], at.tb.columns[inverse]);
  }
}
