// What simplification leaves of terms and constraints.
module NormalForms {
  import opened Options
  import opened Congruence
  import opened PrimeField
  import opened Terms
  import opened Builders
  import opened Simplify
  import opened Logic
  import opened TermLowering
  import opened ExactFolding

  // ---------------------------------------------------------------------------
  // Terms
  // ---------------------------------------------------------------------------

  /**
   * Sums and products have at least two operands, which are not of the same kind; no zero is added or
   * subtracted, and no factor is zero or one.  This is so for terms as they are built.
   */
  predicate Built(t: Term) {
    match t
    case Constant(_) => true
    case RegisterAccess(_, _, _) => true
    case Add(args) => |args| > 1 && forall a :: a in args ==> Built(a) && !a.Add? && !IsZero(a)
    case Sub(args) => (forall a :: a in args ==> Built(a)) && forall i :: 0 < i < |args| ==> !IsZero(args[i])
    case Mul(args) => |args| > 1 && forall a :: a in args ==> Built(a) && !a.Mul? && !IsZero(a) && !IsOne(a)
  }

  /**
   * In terms which have been simplified, no sum is subtracted either, nor from a constant anything which
   * could be without going below zero.
   */
  predicate TidyTerm(t: Term) {
    match t
    case Constant(_) => true
    case RegisterAccess(_, _, _) => true
    case Add(args) => |args| > 1 && forall a :: a in args ==> TidyTerm(a) && !a.Add? && !IsZero(a)
    case Sub(args) =>
      && (forall a :: a in args ==> TidyTerm(a))
      && (forall i :: 0 < i < |args| ==> !args[i].Add? && !IsZero(args[i]))
      && (args != [] && args[0].Constant? && FindConstant(args[1..]).Some? ==>
            args[0].value < FindConstant(args[1..]).value)
    case Mul(args) => |args| > 1 && forall a :: a in args ==> TidyTerm(a) && !a.Mul? && !IsZero(a) && !IsOne(a)
  }

  lemma {:induction false} FlattenBuilt(ts: seq<Term>)
    requires forall t :: t in ts ==> Built(t)
    ensures forall t :: t in FlattenAdd(ts) ==> Built(t) && !t.Add?
    ensures forall t :: t in FlattenMul(ts) ==> Built(t) && !t.Mul?
  {
    if ts != [] {
      assert ts[0] in ts;
      FlattenBuilt(ts[1..]);
    }
  }

  lemma BuiltSum(ts: seq<Term>)
    requires forall t :: t in ts ==> Built(t)
    ensures Built(Sum(ts)) && Built(Product(ts)) && (ts != [] ==> Built(Subtract(ts)))
  {
    FlattenBuilt(ts);
    RemoveMembers(FlattenAdd(ts));
    RemoveMembers(FlattenMul(ts));
    if ts != [] {
      var rest := RemoveZeros(ts[1..]);
      RemoveMembers(ts[1..]);
      assert forall i :: 0 < i < |[ts[0]] + rest| ==> ([ts[0]] + rest)[i] == rest[i - 1];
    }
  }

  /** Lowering rebuilds terms in such a form. */
  lemma {:induction false} LoweredBuilt(t: Term)
    ensures Built(LowerTerm(t))
    decreases t, 0
  {
    match t
    case Constant(_) =>
    case RegisterAccess(_, _, _) =>
    case Add(args) => AllLoweredBuilt(args); BuiltSum(LowerTerms(args));
    case Mul(args) => AllLoweredBuilt(args); BuiltSum(LowerTerms(args));
    case Sub(args) => AllLoweredBuilt(args); BuiltSum(LowerTerms(args));
  }

  lemma {:induction false} AllLoweredBuilt(ts: seq<Term>)
    ensures forall t :: t in LowerTerms(ts) ==> Built(t)
    decreases ts, 1
  {
    if ts != [] {
      LoweredBuilt(ts[0]);
      AllLoweredBuilt(ts[1..]);
    }
  }

  predicate AllTidy(ts: seq<Term>) {
    forall t :: t in ts ==> TidyTerm(t)
  }

  lemma {:induction false} MergeTidy(constant: nat, ts: seq<Term>, first: bool)
    requires AllTidy(ts)
    ensures AllTidy(MergeFrom(constant, ts, first))
  {
    if ts != [] {
      assert ts[0] in ts;
      MergeTidy(constant, ts[1..], first && !ts[0].Constant?);
    }
  }

  lemma {:induction false} FlattenTidy(ts: seq<Term>)
    requires AllTidy(ts)
    ensures forall t :: t in RemoveZeros(FlattenAdd(ts)) ==> TidyTerm(t) && !t.Add? && !IsZero(t)
    ensures forall t :: t in RemoveOnes(FlattenMul(ts)) ==> TidyTerm(t) && !t.Mul? && !IsOne(t)
  {
    RemoveMembers(FlattenAdd(ts));
    RemoveMembers(FlattenMul(ts));
    FlattenMembers(ts);
  }

  lemma {:induction false} FlattenMembers(ts: seq<Term>)
    requires AllTidy(ts)
    ensures forall t :: t in FlattenAdd(ts) ==> TidyTerm(t) && !t.Add?
    ensures forall t :: t in FlattenMul(ts) ==> TidyTerm(t) && !t.Mul?
  {
    if ts != [] {
      assert ts[0] in ts;
      FlattenMembers(ts[1..]);
    }
  }

  lemma {:induction false} RemoveMembers(ts: seq<Term>)
    ensures forall t :: t in RemoveZeros(ts) <==> t in ts && !IsZero(t)
    ensures forall t :: t in RemoveOnes(ts) <==> t in ts && !IsOne(t)
  {
    if ts != [] {
      RemoveMembers(ts[1..]);
    }
  }

  lemma SumTidy(ts: seq<Term>)
    requires AllTidy(ts)
    ensures TidyTerm(Sum(ts))
  {
    FlattenTidy(ts);
  }

  /** Terms are simplified to such a form. */
  lemma {:induction false} SimplifiedTermTidy(p: Prime, t: Term)
    ensures TidyTerm(SimplifyTerm(p, t))
    decreases t, 0
  {
    match t
    case Constant(_) =>
    case RegisterAccess(_, _, _) =>
    case Add(args) => SimplifiedSumTidy(p, args);
    case Mul(args) =>
      var terms := SimplifyAll(p, args);
      SimplifiedTermsTidy(p, args);
      MergeTidy(FoldProduct(p, terms, 1), terms, true);
      var merged := MergeConstants(FoldProduct(p, terms, 1), terms);
      FlattenTidy(merged);
      RemoveMembers(FlattenMul(merged));
    case Sub(args) =>
      if args != [] {
        SimplifiedTermTidy(p, args[0]);
        SimplifiedSumTidy(p, args[1..]);
        DifferenceTidy(p, SimplifyTerm(p, args[0]), SimplifySum(p, args[1..]));
      }
  }

  lemma {:induction false} SimplifiedTermsTidy(p: Prime, ts: seq<Term>)
    ensures AllTidy(SimplifyAll(p, ts))
    decreases ts, 1
  {
    if ts != [] {
      SimplifiedTermTidy(p, ts[0]);
      SimplifiedTermsTidy(p, ts[1..]);
    }
  }

  lemma SimplifiedSumTidy(p: Prime, ts: seq<Term>)
    ensures TidyTerm(SimplifySum(p, ts))
    decreases ts, 2
  {
    var terms := SimplifyAll(p, ts);
    SimplifiedTermsTidy(p, ts);
    MergeTidy(FoldSum(p, terms, 0), terms, true);
    SumTidy(MergeConstants(FoldSum(p, terms, 0), terms));
  }

  lemma {:induction false} MergeTail(constant: nat, ts: seq<Term>)
    requires forall t :: t in ts ==> !t.Add? && !IsZero(t)
    ensures forall t :: t in MergeFrom(constant, ts, false) ==> !t.Add? && !IsZero(t)
    ensures FindConstant(MergeFrom(constant, ts, false)) == None
  {
    if ts != [] {
      assert ts[0] in ts;
      MergeTail(constant, ts[1..]);
      if ts[0].Constant? {
        assert MergeFrom(constant, ts, false) == MergeFrom(constant, ts[1..], false);
      } else {
        assert MergeFrom(constant, ts, false)[1..] == MergeFrom(constant, ts[1..], false);
      }
    }
  }

  lemma DifferenceTidy(p: Prime, lhs: Term, rhs: Term)
    requires TidyTerm(lhs) && TidyTerm(rhs)
    ensures TidyTerm(SimplifySub(p, lhs, rhs))
  {
    if lhs.Constant? && rhs.Sub? && rhs.args != [] && rhs.args[0].Constant? && lhs.value >= rhs.args[0].value {
      SumTidy([Constant(FSub(p, lhs.value, rhs.args[0].value))] + rhs.args[1..]);
    } else if rhs.Constant? {
      assert [lhs, rhs][1..] == [rhs] && [rhs][1..] == [];
    } else if !rhs.Add? {
      assert [lhs, rhs][1..] == [rhs] && [rhs][1..] == [];
    } else {
      var all := [lhs] + rhs.args;
      assert all[1..] == rhs.args;
      if lhs.Constant? && FindConstant(rhs.args).Some? {
        var c := FSub(p, lhs.value, FindConstant(rhs.args).value);
        MergeTidy(c, all, true);
        MergeTail(c, rhs.args);
        assert MergeConstants(c, all) == [Constant(c)] + MergeFrom(c, rhs.args, false);
        assert ([Constant(c)] + MergeFrom(c, rhs.args, false))[1..] == MergeFrom(c, rhs.args, false);
      }
    }
  }

  /** How constants are folded: c + d, c * d, c - d, c - (d - x) and c - (x + d). */
  lemma ConstantsFolded(p: Prime, c: nat, d: nat, x: Term)
    requires x.RegisterAccess? && 0 < d <= c && IsElement(p, c)
    ensures SimplifyTerm(p, Add([Constant(c), Constant(d)])) == Constant((c + d) % p)
    ensures SimplifyTerm(p, Mul([Constant(c), Constant(d)])) == Constant((c * d) % p)
    ensures SimplifyTerm(p, Sub([Constant(c), Constant(d)])) == Constant(c - d)
    ensures SimplifyTerm(p, Sub([Constant(c), Sub([Constant(d), x])]))
         == if c == d then x else Add([Constant(c - d), x])
    ensures SimplifyTerm(p, Sub([Constant(c), Add([x, Constant(d)])])) == Sub([Constant(c - d), x])
  {
    var a, b := Constant(c), Constant(d);
    SmallModulus(p, c);
    SmallModulus(p, d);
    SmallModulus(p, c - d);
    ConstantsMerged(p, c, d);
    assert [a, b][1..] == [b] && [b][1..] == [];
    KeptAlone(p, b);
    KeptAlone(p, x);
    DifferenceKept(p, d, x);
    SumKept(p, x, d);
    hide SimplifySum, SimplifySub;
    DifferencesFolded(p, c, d, x);
    assert [a, Sub([b, x])][1..] == [Sub([b, x])] && [a, Add([x, b])][1..] == [Add([x, b])];
  }

  lemma ConstantsMerged(p: Prime, c: nat, d: nat)
    requires IsElement(p, c) && IsElement(p, d)
    ensures var ts := [Constant(c), Constant(d)];
            SimplifySum(p, ts) == Constant((c + d) % p) && SimplifyTerm(p, Mul(ts)) == Constant((c * d) % p)
  {
    var ts := [Constant(c), Constant(d)];
    ConstantsTotal(p, c, d);
    SingleOperand(Constant((c + d) % p));
    SingleFactor(Constant((c * d) % p));
  }

  lemma ConstantsTotal(p: Prime, c: nat, d: nat)
    requires IsElement(p, c) && IsElement(p, d)
    ensures var ts := [Constant(c), Constant(d)];
      && SimplifyAll(p, ts) == ts
      && MergeConstants(FoldSum(p, ts, 0), ts) == [Constant((c + d) % p)]
      && MergeConstants(FoldProduct(p, ts, 1), ts) == [Constant((c * d) % p)]
  {
    var ts, b := [Constant(c), Constant(d)], Constant(d);
    assert ts[1..] == [b] && [b][1..] == [];
    SmallModulus(p, c);
    assert SimplifyAll(p, [b]) == [b];
    assert FoldSum(p, [b], c) == (c + d) % p && FoldProduct(p, [b], c) == (c * d) % p;
    assert MergeFrom((c + d) % p, [b], false) == [] && MergeFrom((c * d) % p, [b], false) == [];
  }

  lemma SingleFactor(t: Term)
    requires t.Constant?
    ensures FlattenMul([t]) == [t] && RemoveOnes([t]) == if IsOne(t) then [] else [t]
  {
    assert [t][1..] == [];
  }

  // An operand which is simplified already and is no sum stays what it is.
  lemma KeptAlone(p: Prime, t: Term)
    requires SimplifyTerm(p, t) == t && !t.Add? && (t.Constant? ==> IsElement(p, t.value))
    ensures SimplifySum(p, [t]) == t
  {
    assert [t][1..] == [];
    assert SimplifyAll(p, [t]) == [t];
    if t.Constant? {
      SmallModulus(p, t.value);
    }
    assert FoldSum(p, [t], 0) == if t.Constant? then t.value else 0;
    MergeSingle(FoldSum(p, [t], 0), t);
    SingleOperand(t);
  }

  lemma PairOperands(x: Term, y: Term)
    requires !x.Add? && !y.Add?
    ensures FlattenAdd([x, y]) == [x, y]
    ensures RemoveZeros([x, y]) == (if IsZero(x) then [] else [x]) + (if IsZero(y) then [] else [y])
  {
    SingleOperand(y);
    assert [x, y][1..] == [y];
  }

  lemma DifferenceKept(p: Prime, d: nat, x: Term)
    requires x.RegisterAccess? && IsElement(p, d)
    ensures SimplifyTerm(p, Sub([Constant(d), x])) == Sub([Constant(d), x])
    ensures SimplifySum(p, [Sub([Constant(d), x])]) == Sub([Constant(d), x])
  {
    assert [Constant(d), x][1..] == [x];
    KeptAlone(p, x);
    KeptAlone(p, Sub([Constant(d), x]));
  }

  lemma SumKept(p: Prime, x: Term, d: nat)
    requires x.RegisterAccess? && IsElement(p, d) && d > 0
    ensures SimplifySum(p, [x, Constant(d)]) == Add([x, Constant(d)])
    ensures SimplifySum(p, [Add([x, Constant(d)])]) == Add([x, Constant(d)])
  {
    var b := Constant(d);
    var s := Add([x, b]);
    assert [x, b][1..] == [b] && [b][1..] == [] && [s][1..] == [];
    assert SimplifyAll(p, [b]) == [b] && SimplifyAll(p, [x, b]) == [x, b];
    SmallModulus(p, d);
    MergeSingle(d, b);
    assert MergeConstants(d, [x, b]) == [x, b];
    assert FoldSum(p, [x, b], 0) == FoldSum(p, [b], 0) == d;
    PairOperands(x, b);
    assert SimplifyTerm(p, s) == s;
    assert SimplifyAll(p, [s]) == [s];
    MergeSingle(FoldSum(p, [s], 0), s);
    FlattenSingle(s);
  }

  lemma DifferencesFolded(p: Prime, c: nat, d: nat, x: Term)
    requires x.RegisterAccess? && 0 < d <= c && IsElement(p, c)
    ensures SimplifySub(p, Constant(c), Constant(d)) == Constant(c - d)
    ensures SimplifySub(p, Constant(c), Sub([Constant(d), x])) == if c == d then x else Add([Constant(c - d), x])
    ensures SimplifySub(p, Constant(c), Add([x, Constant(d)])) == Sub([Constant(c - d), x])
  {
    var b, e := Constant(d), Constant(c - d);
    SmallModulus(p, c - d);
    assert [b, x][1..] == [x] && [x, b][1..] == [b] && [b][1..] == [] && [x][1..] == [];
    assert [e] + [x] == [e, x] && [e, x][1..] == [x];
    PairOperands(e, x);
    var all := [Constant(c), x, b];
    assert [Constant(c)] + [x, b] == all && all[1..] == [x, b];
    assert MergeFrom(c - d, [b], false) == [] && MergeFrom(c - d, [x, b], false) == [x];
    assert MergeConstants(c - d, all) == [e, x];
    assert FindConstant([x, b]) == Some(d);
  }

  // ---------------------------------------------------------------------------
  // Constraints
  // ---------------------------------------------------------------------------

  /**
   * No comparison is between constants; no junction has a single operand, one of its own kind, or one
   * which is trivial; no conditional has a trivial condition, no branch worth keeping, or one which would
   * do as a condition.
   */
  predicate Tidy(e: Logical) {
    match e
    case Equal(l, r) => TidyTerm(l) && TidyTerm(r) && !(l.Constant? && r.Constant?)
    case NotEqual(l, r) => TidyTerm(l) && TidyTerm(r) && !(l.Constant? && r.Constant?)
    case Conjunct(args) => |args| != 1 && forall a :: a in args ==> Tidy(a) && !a.Conjunct? && !IsFalse(a)
    case Disjunct(args) => |args| != 1 && forall a :: a in args ==> Tidy(a) && !a.Disjunct? && !IsTrue(a)
    case Negate(_) => false
    case Ite(c, t, f) =>
      && Tidy(c) && !IsTrue(c) && !IsFalse(c)
      && (t.Some? ==> Tidy(t.value) && !IsTrue(t.value)) && (f.Some? ==> Tidy(f.value) && !IsTrue(f.value))
      && (t.None? ==> f.Some? && !IsFalse(f.value)) && (f.None? ==> t.Some? && !IsFalse(t.value))
  }

  lemma {:induction false} RemovedAll(es: seq<Logical>, e: Logical)
    ensures forall a :: a in RemoveAll(es, e) <==> a in es && a != e
  {
    if es != [] {
      RemovedAll(es[1..], e);
    }
  }

  lemma {:induction false} FlattenedJunctions(es: seq<Logical>)
    requires forall e :: e in es ==> Tidy(e)
    ensures forall a :: a in FlattenConjuncts(es) ==> Tidy(a) && (a.Conjunct? ==> a == TRUE)
    ensures forall a :: a in FlattenDisjuncts(es) ==> Tidy(a) && (a.Disjunct? ==> a == FALSE)
  {
    if es != [] {
      assert es[0] in es;
      FlattenedJunctions(es[1..]);
    }
  }

  lemma JunctionsTidy(es: seq<Logical>)
    requires forall e :: e in es ==> Tidy(e)
    ensures Tidy(MakeConjunct(FlattenConjuncts(es))) && Tidy(MakeDisjunct(FlattenDisjuncts(es)))
  {
    var cs, ds := FlattenConjuncts(es), FlattenDisjuncts(es);
    FlattenedJunctions(es);
    RemovedAll(cs, TRUE);
    RemovedAll(ds, FALSE);
  }

  /** Constraints are simplified to such a form, so one which has become trivial is recognised as such. */
  lemma {:induction false} SimplifiedTidy(p: Prime, e: Logical)
    ensures Tidy(SimplifyLogical(p, e))
    decreases Size(e), 0
  {
    match e
    case Equal(l, r) => SimplifiedTermTidy(p, l); SimplifiedTermTidy(p, r);
    case NotEqual(l, r) => SimplifiedTermTidy(p, l); SimplifiedTermTidy(p, r);
    case Conjunct(args) =>
      AllSimplifiedTidy(p, args);
      JunctionsTidy(SimplifyLogicals(p, args));
    case Disjunct(args) =>
      AllSimplifiedTidy(p, args);
      JunctionsTidy(SimplifyLogicals(p, args));
    case Negate(arg) =>
      NegatedSize(arg);
      SimplifiedTidy(p, Negated(arg));
    case Ite(c, t, f) =>
      SimplifiedTidy(p, c);
      if t.Some? { SimplifiedTidy(p, t.value); }
      if f.Some? { SimplifiedTidy(p, f.value); }
      NegatedSize(SimplifyLogical(p, c));
      SimplifiedTidy(p, Negated(SimplifyLogical(p, c)));
  }

  lemma {:induction false} AllSimplifiedTidy(p: Prime, es: seq<Logical>)
    ensures forall r :: r in SimplifyLogicals(p, es) ==> Tidy(r)
    decreases SizeOfAll(es), 1
  {
    if es != [] {
      SimplifiedTidy(p, es[0]);
      AllSimplifiedTidy(p, es[1..]);
    }
  }
}
