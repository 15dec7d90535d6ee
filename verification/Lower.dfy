// Lowering of logical constraints into terms which must vanish.

/** Constraints whose lowering loses nothing to constant folding or row shifting. */
module Lowerability {
  import opened PrimeField
  import opened Terms
  import opened Builders
  import opened Ranges
  import opened Simplify
  import opened Logic
  import opened TermLowering
  import opened NonZeroChecks
  import opened ExactFolding
  import opened Normalisation

  /** Whether 1 - norm(d) is obtained, and simplified, without loss. */
  predicate InequalityExact(cfg: Config, p: Prime, d: Term) {
    && RangeOf(d).Proper()
    && if IsBinary(cfg, d) then FoldsExactly(p, Subtract([Constant(1), d]))
       else if IsTernary(cfg, d) then FoldsExactly(p, Subtract([Constant(1), Product([d, d])]))
       else Normalisable(cfg, p, d) && FoldsExactly(p, ApplyShift(Inverted(cfg, p, d), NormalisingShift(cfg, d)))
  }

  /** Whether every equality and inequality of a (core) constraint lowers without loss. */
  predicate Lowerable(cfg: Config, p: Prime, e: Logical) {
    match e
    case Equal(l, r) => FoldsExactly(p, Difference(l, r))
    case NotEqual(l, r) => InequalityExact(cfg, p, Difference(l, r))
    case Conjunct(args) => forall a :: a in args ==> Lowerable(cfg, p, a)
    case Disjunct(args) => forall a :: a in args ==> Lowerable(cfg, p, a)
    case Negate(_) => false
    case Ite(_, _, _) => false
  }

  // The square of a term which is neither a constant nor a product.
  lemma SquareExact(p: Prime, t: Term)
    requires !t.Mul? && !t.Constant? && FoldsExactly(p, t)
    requires !SimplifyTerm(p, t).Mul? && !SimplifyTerm(p, t).Constant?
    ensures FoldsExactly(p, Subtract([Constant(1), Product([t, t])]))
  {
    var s := SimplifyTerm(p, t);
    PairIsPlain(t);
    assert Product([t, t]) == Mul([t, t]);
    assert SimplifyAll(p, [t, t]) == [s, s] by {
      assert [t, t][1..] == [t] && [t][1..] == [];
      assert SimplifyAll(p, [t]) == [s];
    }
    PairIsPlain(s);
    PairMerges(FoldProduct(p, [s, s], 1), s);
    assert SimplifyTerm(p, Mul([t, t])) == Mul([s, s]);
    OneMinusExact(p, Mul([t, t]));
  }

  lemma PairIsPlain(t: Term)
    requires !t.Mul? && !t.Constant?
    ensures FlattenMul([t, t]) == [t, t] && RemoveOnes([t, t]) == [t, t]
  {
    assert [t, t][1..] == [t] && [t][1..] == [];
    assert FlattenMul([t]) == [t] && RemoveOnes([t]) == [t];
  }

  lemma PairMerges(c: nat, t: Term)
    requires !t.Constant?
    ensures MergeConstants(c, [t, t]) == [t, t]
  {
    assert [t, t][1..] == [t];
    MergeSingle(c, t);
  }

  // ---------------------------------------------------------------------------
  // Packets of non-zero checks are always lowerable
  // ---------------------------------------------------------------------------

  /** A packet, or what it turns into when oriented away from zero and simplified. */
  predicate NegatedChecks(t: Term) {
    && t.Sub? && |t.args| > 1 && IsZero(t.args[0])
    && (|t.args| == 2 ==> CheckSum(t.args[1]))
    && (|t.args| > 2 ==> forall a :: a in t.args[1..] ==> CheckTerm(a))
  }

  lemma ChecksSum(p: Prime, ts: seq<Term>)
    requires |ts| > 0 && (|ts| == 1 ==> CheckSum(ts[0])) && (|ts| > 1 ==> forall a :: a in ts ==> CheckTerm(a))
    ensures CheckSum(SimplifySum(p, ts)) && AllExact(p, ts)
  {
    if |ts| == 1 {
      assert ts == [ts[0]];
      SimplifyCheckSum(p, ts[0]);
    } else {
      SimplifyCheckTerms(p, ts);
      CheckTermsAreFlat(ts);
      SumIsCheckSum(ts);
    }
  }

  lemma NegatedChecksExact(p: Prime, t: Term)
    requires NegatedChecks(t)
    ensures FoldsExactly(p, t) && NegatedChecks(SimplifyTerm(p, t))
  {
    var ts := t.args[1..];
    ChecksSum(p, ts);
    var s := SimplifySum(p, ts);
    SimplifyCheckSum(p, s);
    assert t.args == [t.args[0]] + ts;
    var r := SimplifySub(p, Constant(0), s);
    assert r == SimplifyTerm(p, t);
    if s.Add? {
      assert r == Sub([Constant(0)] + s.args) && r.args[1..] == s.args;
    } else {
      assert r == Sub([Constant(0), s]) && r.args[1..] == [s];
    }
  }

  lemma NegatedChecksShift(t: Term, shift: int)
    requires NegatedChecks(t)
    ensures NegatedChecks(ApplyShift(t, shift))
  {
    var ts := t.args[1..];
    var s := ApplyShift(t, shift);
    var shifted := ApplyShiftAll(ts, shift);
    assert t.args == [Constant(0)] + ts;
    calc {
      s.args[1..];
      ApplyShiftAll(t.args, shift)[1..];
      ([ApplyShift(t.args[0], shift)] + ApplyShiftAll(t.args[1..], shift))[1..];
      shifted;
    }
    if |ts| == 1 {
      ShiftCheckSum(ts[0], shift);
      assert ApplyShiftAll(ts, shift)[0] == ApplyShift(ts[0], shift);
      assert |s.args| == 2 && s.args[1] == ApplyShift(ts[0], shift);
    } else {
      ShiftCheckTerms(ts, shift);
    }
  }

  lemma CheckSumLowers(t: Term)
    requires CheckSum(t)
    ensures LowerTerm(t) == t
  {
    if CheckTerm(t) {
      CheckTermLowers(t);
    } else {
      CheckTermsLower(t.args);
      CheckTermsAreFlat(t.args);
    }
  }

  lemma CheckTermLowers(t: Term)
    requires CheckTerm(t)
    ensures LowerTerm(t) == t
  {
    if t.Sub? {
      var c, x := t.args[0], t.args[1];
      assert t.args == [c, x] && t.args[1..] == [x] && [x][1..] == [];
      assert LowerTerms([x]) == [x];
      assert LowerTerms(t.args) == [c, x];
      SubtractTwo(c, x);
    }
  }

  lemma {:induction false} CheckTermsLower(ts: seq<Term>)
    requires forall t :: t in ts ==> CheckTerm(t)
    ensures LowerTerms(ts) == ts
  {
    if ts != [] {
      CheckTermLowers(ts[0]);
      CheckTermsLower(ts[1..]);
    }
  }

  lemma CheckSumBinary(p: Prime, t: Term)
    requires CheckSum(t)
    ensures FoldsExactly(p, Subtract([Constant(1), t]))
  {
    SimplifyCheckSum(p, t);
    SubtractTwo(Constant(1), t);
    assert [Constant(1), t][1..] == [t];
  }

  lemma CheckSumShifted(cfg: Config, p: Prime, t: Term)
    requires CheckSum(t) && RangeOf(t).Proper()
    ensures Normalisable(cfg, p, t) && FoldsExactly(p, ApplyShift(Inverted(cfg, p, t), NormalisingShift(cfg, t)))
  {
    hide CheckSum, NormalisingShift, ApplyShift, FoldsExactly, SimplifyTerm, RangeOf;
    var s := NormalisingShift(cfg, t);
    ShiftCheckSum(t, -s);
    SimplifyCheckSum(p, ApplyShift(t, -s));
    ShiftCheckSum(ApplyShift(t, -s), s);
    SimplifyCheckSum(p, ApplyShift(ApplyShift(t, -s), s));
    CheckSumReads(t);
  }

  lemma CheckSumInequality(cfg: Config, p: Prime, t: Term)
    requires CheckSum(t) && RangeOf(t).Proper()
    ensures InequalityExact(cfg, p, t)
  {
    assert !t.Mul? && !t.Constant?;
    hide CheckSum, FoldsExactly, RangeOf, Normalisable, Inverted, IsBinary, IsTernary, SimplifyTerm;
    SimplifyCheckSum(p, t);
    CheckSumBinary(p, t);
    SquareExact(p, t);
    CheckSumShifted(cfg, p, t);
  }

  lemma NegatedChecksRead(t: Term)
    requires NegatedChecks(t)
    ensures Reads(t)
  {
    assert t.args[1] in t.args && t.args[1] in t.args[1..];
    if |t.args| == 2 {
      CheckSumReads(t.args[1]);
    } else {
      CheckTermReads(t.args[1]);
    }
  }

  lemma NegatedChecksShifted(cfg: Config, p: Prime, t: Term)
    requires NegatedChecks(t) && RangeOf(t).Proper()
    ensures Normalisable(cfg, p, t) && FoldsExactly(p, ApplyShift(Inverted(cfg, p, t), NormalisingShift(cfg, t)))
  {
    hide NegatedChecks, NormalisingShift, ApplyShift, FoldsExactly, SimplifyTerm, RangeOf;
    var s := NormalisingShift(cfg, t);
    NegatedChecksShift(t, -s);
    NegatedChecksExact(p, ApplyShift(t, -s));
    NegatedChecksShift(Inverted(cfg, p, t), s);
    NegatedChecksExact(p, ApplyShift(Inverted(cfg, p, t), s));
    NegatedChecksRead(t);
  }

  lemma NegatedChecksInequality(cfg: Config, p: Prime, t: Term)
    requires NegatedChecks(t) && RangeOf(t).Proper()
    ensures InequalityExact(cfg, p, t)
  {
    NegatedChecksExact(p, t);
    assert t.Sub? && SimplifyTerm(p, t).Sub?;
    hide NegatedChecks, FoldsExactly, RangeOf, Normalisable, Inverted, IsBinary, IsTernary, SimplifyTerm;
    OneMinusExact(p, t);
    SquareExact(p, t);
    NegatedChecksShifted(cfg, p, t);
  }

  // Subtracting 0 from a sum of checks leaves the sum, or the negation of its checks.
  lemma CheckDifference(x: Term)
    requires CheckSum(x)
    ensures Difference(x, Constant(0)) == x || NegatedChecks(Difference(x, Constant(0)))
  {
    hide RangeOf;
    CheckSumLowers(x);
    assert [x, Constant(0)][1..] == [Constant(0)] && [Constant(0)][1..] == [];
    assert RemoveZeros([Constant(0)]) == [];
    assert Subtract([x, Constant(0)]) == x;
    SubtractTwo(Constant(0), x);
  }

  /** Combining checks never stands in the way of lowering. */
  lemma PacketLowerable(cfg: Config, p: Prime, e: Logical, sc: Scope)
    requires IsPacket(e, sc) && sc.p == p
    ensures Lowerable(cfg, p, e) && LogicalShaped(e, sc) && Size(e) == 1 && e.NotEqual?
  {
    var cs: seq<NonZeroCheck> :|
      cs != [] && (forall c :: c in cs ==> Sound(c, sc) && CheckTerm(c.term)) && e == PackedCheck(cs);
    PackedCheckShaped(cs, sc);
    CheckTermsPack(0, cs, sc);
    var x := Sum(CheckTerms(cs));
    SumIsCheckSum(CheckTerms(cs));
    assert e == NotEqual(x, Constant(0));
    hide CheckSum, NegatedChecks, Difference, RangeOf, InequalityExact, Sum, CheckTerms, Sound;
    CheckDifference(x);
    DifferenceShaped(x, Constant(0), sc);
    RangeIsProper(Difference(x, Constant(0)), sc);
    if Difference(x, Constant(0)) == x {
      CheckSumInequality(cfg, p, x);
    } else {
      NegatedChecksInequality(cfg, p, Difference(x, Constant(0)));
    }
  }
}

/** The cross product through which disjunctions of vanishing terms are expressed. */
module CrossProducts {
  import opened Congruence
  import opened PrimeField
  import opened Terms
  import opened Builders
  import opened Simplify
  import opened Packing
  import opened Modules
  import opened ExactFolding

  function Distribute(l: Term, rs: seq<Term>): seq<Term> {
    if rs == [] then [] else [Product([l, rs[0]])] + Distribute(l, rs[1..])
  }

  function DistributeAll(ls: seq<Term>, rs: seq<Term>): seq<Term> {
    if ls == [] then [] else Distribute(ls[0], rs) + DistributeAll(ls[1..], rs)
  }

  /** Terms all of which vanish exactly where, for some list, all of its terms vanish. */
  function DisjunctionOf(tss: seq<seq<Term>>): seq<Term> {
    if |tss| == 0 then [Constant(1)]
    else if |tss| == 1 then tss[0]
    else DistributeAll(tss[0], DisjunctionOf(tss[1..]))
  }

  lemma {:induction false} DistributeMembers(l: Term, rs: seq<Term>)
    ensures forall t :: t in Distribute(l, rs) <==> exists r :: r in rs && t == Product([l, r])
  {
    if rs != [] {
      DistributeMembers(l, rs[1..]);
      assert rs == [rs[0]] + rs[1..];
      assert forall r :: r in rs <==> r == rs[0] || r in rs[1..];
    }
  }

  lemma {:induction false} DistributeAllMembers(ls: seq<Term>, rs: seq<Term>)
    ensures forall t :: t in DistributeAll(ls, rs) <==> exists l, r :: l in ls && r in rs && t == Product([l, r])
  {
    if ls != [] {
      DistributeMembers(ls[0], rs);
      DistributeAllMembers(ls[1..], rs);
      assert ls == [ls[0]] + ls[1..];
      assert forall l :: l in ls <==> l == ls[0] || l in ls[1..];
    }
  }

  lemma ProductVanishes(l: Term, r: Term, sc: Scope, at: Row)
    requires Shaped(l, sc) && Shaped(r, sc) && at.Over(sc)
    ensures Eval(Product([l, r]), at) == 0 <==> Eval(l, at) == 0 || Eval(r, at) == 0
  {
    ProductOfTwo(l, r, sc, at);
    EvalIsElement(l, sc, at);
    EvalIsElement(r, sc, at);
    SmallModulus(at.p, Eval(l, at));
    SmallModulus(at.p, Eval(r, at));
    NoZeroDivisors(at.p, Eval(l, at), Eval(r, at));
  }

  /** Since there are no zero divisors, all pairwise products vanish iff one side does altogether. */
  lemma DistributeAllVanishes(ls: seq<Term>, rs: seq<Term>, sc: Scope, at: Row)
    requires AllShaped(ls, sc) && AllShaped(rs, sc) && at.Over(sc)
    ensures AllVanish(DistributeAll(ls, rs), at) <==> AllVanish(ls, at) || AllVanish(rs, at)
  {
    DistributeAllMembers(ls, rs);
    if AllVanish(ls, at) || AllVanish(rs, at) {
      forall t | t in DistributeAll(ls, rs) ensures Eval(t, at) == 0 {
        var l, r :| l in ls && r in rs && t == Product([l, r]);
        ProductVanishes(l, r, sc, at);
      }
    } else {
      var l :| l in ls && Eval(l, at) != 0;
      var r :| r in rs && Eval(r, at) != 0;
      ProductVanishes(l, r, sc, at);
      assert Product([l, r]) in DistributeAll(ls, rs);
    }
  }

  lemma DistributeAllShaped(ls: seq<Term>, rs: seq<Term>, sc: Scope)
    requires AllShaped(ls, sc) && AllShaped(rs, sc) && AllExact(sc.p, ls) && AllExact(sc.p, rs)
    ensures AllShaped(DistributeAll(ls, rs), sc) && AllExact(sc.p, DistributeAll(ls, rs))
  {
    DistributeAllMembers(ls, rs);
    forall t | t in DistributeAll(ls, rs) ensures Shaped(t, sc) && FoldsExactly(sc.p, t) {
      var l, r :| l in ls && r in rs && t == Product([l, r]);
      ProductShaped([l, r], sc);
      BuiltExact(sc.p, [l, r]);
    }
  }

  ghost predicate AllListsShaped(tss: seq<seq<Term>>, sc: Scope) {
    forall i :: 0 <= i < |tss| ==> AllShaped(tss[i], sc) && AllExact(sc.p, tss[i])
  }

  lemma {:induction false} DisjunctionShaped(tss: seq<seq<Term>>, sc: Scope)
    requires AllListsShaped(tss, sc)
    ensures AllShaped(DisjunctionOf(tss), sc) && AllExact(sc.p, DisjunctionOf(tss))
  {
    if |tss| > 1 {
      assert AllListsShaped(tss[1..], sc);
      DisjunctionShaped(tss[1..], sc);
      DistributeAllShaped(tss[0], DisjunctionOf(tss[1..]), sc);
    }
  }

  /** The cross product expresses a disjunction, where no lists at all amount to failure. */
  lemma {:induction false} DisjunctionVanishes(tss: seq<seq<Term>>, sc: Scope, at: Row)
    requires AllListsShaped(tss, sc) && at.Over(sc)
    ensures AllVanish(DisjunctionOf(tss), at) <==> exists i :: 0 <= i < |tss| && AllVanish(tss[i], at)
  {
    if |tss| == 0 {
      assert Eval(Constant(1), at) == 1;
      assert Constant(1) in DisjunctionOf(tss);
    } else if |tss| > 1 {
      var rest := tss[1..];
      assert AllListsShaped(rest, sc);
      DisjunctionShaped(rest, sc);
      DisjunctionVanishes(rest, sc, at);
      DistributeAllVanishes(tss[0], DisjunctionOf(rest), sc, at);
      if i :| 0 <= i < |rest| && AllVanish(rest[i], at) {
        assert AllVanish(tss[i + 1], at);
      }
      if i :| 0 <= i < |tss| && AllVanish(tss[i], at) {
        assert i > 0 ==> AllVanish(rest[i - 1], at);
      }
    }
  }
}
