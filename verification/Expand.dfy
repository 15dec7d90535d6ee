// What simplification and expansion of logical constraints preserve.
module LogicProperties {
  import opened Options
  import opened PrimeField
  import opened Terms
  import opened Simplify
  import opened Logic

  /**
   * Whether every arithmetic simplification carried out whilst simplifying a constraint is exact.
   * This follows the simplification itself, since a condition can end up being simplified twice.
   */
  predicate LogicalFoldsExactly(p: Prime, e: Logical)
    decreases Size(e), 0
  {
    match e
    case Equal(l, r) => FoldsExactly(p, l) && FoldsExactly(p, r)
    case NotEqual(l, r) => FoldsExactly(p, l) && FoldsExactly(p, r)
    case Conjunct(args) => AllFoldExactly(p, args)
    case Disjunct(args) => AllFoldExactly(p, args)
    case Negate(arg) =>
      NegatedSize(arg);
      LogicalFoldsExactly(p, Negated(arg))
    case Ite(c, t, f) =>
      var cond := SimplifyLogical(p, c);
      NegatedSize(cond);
      && LogicalFoldsExactly(p, c)
      && (t.Some? ==> LogicalFoldsExactly(p, t.value))
      && (f.Some? ==> LogicalFoldsExactly(p, f.value))
      && (SimplifyBranch(p, t) == Some(FALSE) && SimplifyBranch(p, f).None? ==> LogicalFoldsExactly(p, Negated(cond)))
  }

  predicate AllFoldExactly(p: Prime, es: seq<Logical>)
    decreases SizeOfAll(es), 1
  {
    es == [] || (LogicalFoldsExactly(p, es[0]) && AllFoldExactly(p, es[1..]))
  }

  // ---------------------------------------------------------------------------
  // Flattening and removal
  // ---------------------------------------------------------------------------

  lemma {:induction false} FlattenConjunctsHold(es: seq<Logical>, at: Row)
    ensures AllHold(FlattenConjuncts(es), at) <==> AllHold(es, at)
  {
    if es != [] {
      FlattenConjunctsHold(es[1..], at);
      assert es == [es[0]] + es[1..];
      if es[0].Conjunct? && es[0].args != [] {
        assert FlattenConjuncts(es) == es[0].args + FlattenConjuncts(es[1..]);
        assert Holds(es[0], at) <==> AllHold(es[0].args, at);
        assert AllHold(es[0].args + FlattenConjuncts(es[1..]), at)
          <==> AllHold(es[0].args, at) && AllHold(FlattenConjuncts(es[1..]), at);
      } else {
        assert FlattenConjuncts(es) == [es[0]] + FlattenConjuncts(es[1..]);
      }
    }
  }

  lemma {:induction false} FlattenDisjunctsHold(es: seq<Logical>, at: Row)
    ensures AnyHolds(FlattenDisjuncts(es), at) <==> AnyHolds(es, at)
  {
    if es != [] {
      FlattenDisjunctsHold(es[1..], at);
      var rest := FlattenDisjuncts(es[1..]);
      AnyHoldsConcat([es[0]], es[1..], at);
      assert es == [es[0]] + es[1..];
      if es[0].Disjunct? && es[0].args != [] {
        assert FlattenDisjuncts(es) == es[0].args + rest;
        AnyHoldsConcat(es[0].args, rest, at);
        assert Holds(es[0], at) <==> AnyHolds(es[0].args, at);
      } else {
        assert FlattenDisjuncts(es) == [es[0]] + rest;
        AnyHoldsConcat([es[0]], rest, at);
      }
    }
  }

  lemma AnyHoldsConcat(xs: seq<Logical>, ys: seq<Logical>, at: Row)
    ensures AnyHolds(xs + ys, at) <==> AnyHolds(xs, at) || AnyHolds(ys, at)
  {
  }

  lemma {:induction false} RemoveAllMembers(es: seq<Logical>, e: Logical)
    ensures forall x :: x in RemoveAll(es, e) <==> x in es && x != e
  {
    if es != [] {
      RemoveAllMembers(es[1..], e);
      assert es == [es[0]] + es[1..];
    }
  }

  /** Flattening conjuncts, stopping at falsehood and removing truths keeps a conjunction. */
  lemma MakeConjunctHolds(es: seq<Logical>, at: Row)
    ensures Holds(MakeConjunct(FlattenConjuncts(es)), at) <==> AllHold(es, at)
  {
    var cs := FlattenConjuncts(es);
    FlattenConjunctsHold(es, at);
    RemoveAllMembers(cs, TRUE);
    ConjunctionHolds(RemoveAll(cs, TRUE), at);
  }

  /** Flattening disjuncts, stopping at truth and removing falsehoods keeps a disjunction. */
  lemma MakeDisjunctHolds(es: seq<Logical>, at: Row)
    ensures Holds(MakeDisjunct(FlattenDisjuncts(es)), at) <==> AnyHolds(es, at)
  {
    var ds := FlattenDisjuncts(es);
    FlattenDisjunctsHold(es, at);
    RemoveAllMembers(ds, FALSE);
    DisjunctionHolds(RemoveAll(ds, FALSE), at);
  }

  // A property of constraints which the logical operators pass on to their operands and back.
  lemma {:induction false} JunctionsShaped(es: seq<Logical>, sc: Scope)
    requires AllLogicalShaped(es, sc)
    ensures LogicalShaped(MakeConjunct(FlattenConjuncts(es)), sc)
    ensures LogicalShaped(MakeDisjunct(FlattenDisjuncts(es)), sc)
  {
    FlattenShaped(es, sc);
    RemoveAllMembers(FlattenConjuncts(es), TRUE);
    RemoveAllMembers(FlattenDisjuncts(es), FALSE);
  }

  lemma {:induction false} FlattenShaped(es: seq<Logical>, sc: Scope)
    requires AllLogicalShaped(es, sc)
    ensures AllLogicalShaped(FlattenConjuncts(es), sc) && AllLogicalShaped(FlattenDisjuncts(es), sc)
  {
    if es != [] {
      assert LogicalShaped(es[0], sc);
      FlattenShaped(es[1..], sc);
    }
  }

  // ---------------------------------------------------------------------------
  // Simplification
  // ---------------------------------------------------------------------------

  lemma {:induction false} SimplifyLogicalShaped(e: Logical, sc: Scope)
    requires LogicalShaped(e, sc)
    ensures LogicalShaped(SimplifyLogical(sc.p, e), sc)
    decreases Size(e), 0
  {
    match e
    case Equal(l, r) => SimplifyShaped(l, sc); SimplifyShaped(r, sc);
    case NotEqual(l, r) => SimplifyShaped(l, sc); SimplifyShaped(r, sc);
    case Conjunct(args) => SimplifyLogicalsShaped(args, sc); JunctionsShaped(SimplifyLogicals(sc.p, args), sc);
    case Disjunct(args) => SimplifyLogicalsShaped(args, sc); JunctionsShaped(SimplifyLogicals(sc.p, args), sc);
    case Negate(arg) =>
      NegatedSize(arg);
      NegatedShaped(arg, sc);
      SimplifyLogicalShaped(Negated(arg), sc);
    case Ite(c, t, f) =>
      var cond := SimplifyLogical(sc.p, c);
      SimplifyLogicalShaped(c, sc);
      if t.Some? { SimplifyLogicalShaped(t.value, sc); }
      if f.Some? { SimplifyLogicalShaped(f.value, sc); }
      NegatedSize(cond);
      NegatedShaped(cond, sc);
      SimplifyLogicalShaped(Negated(cond), sc);
  }

  lemma {:induction false} SimplifyLogicalsShaped(es: seq<Logical>, sc: Scope)
    requires AllLogicalShaped(es, sc)
    ensures AllLogicalShaped(SimplifyLogicals(sc.p, es), sc)
    decreases SizeOfAll(es), 1
  {
    if es != [] {
      SimplifyLogicalShaped(es[0], sc);
      SimplifyLogicalsShaped(es[1..], sc);
    }
  }

  /** Simplifying a constraint preserves whether it holds, on every row. */
  lemma {:induction false} SimplifyLogicalHolds(e: Logical, sc: Scope, at: Row)
    requires LogicalShaped(e, sc) && at.Over(sc) && LogicalFoldsExactly(at.p, e)
    ensures Holds(SimplifyLogical(at.p, e), at) <==> Holds(e, at)
    decreases Size(e), 0
  {
    match e
    case Equal(l, r) => SimplifyEval(l, sc, at); SimplifyEval(r, sc, at);
    case NotEqual(l, r) => SimplifyEval(l, sc, at); SimplifyEval(r, sc, at);
    case Conjunct(args) => SimplifyLogicalsHold(args, sc, at); MakeConjunctHolds(SimplifyLogicals(at.p, args), at);
    case Disjunct(args) => SimplifyLogicalsHold(args, sc, at); MakeDisjunctHolds(SimplifyLogicals(at.p, args), at);
    case Negate(arg) =>
      NegatedSize(arg);
      NegatedShaped(arg, sc);
      NegatedHolds(arg, at);
      SimplifyLogicalHolds(Negated(arg), sc, at);
    case Ite(c, t, f) =>
      var cond := SimplifyLogical(at.p, c);
      SimplifyLogicalHolds(c, sc, at);
      if t.Some? { SimplifyLogicalHolds(t.value, sc, at); }
      if f.Some? { SimplifyLogicalHolds(f.value, sc, at); }
      NegatedSize(cond);
      if SimplifyBranch(at.p, t) == Some(FALSE) && SimplifyBranch(at.p, f).None? {
        SimplifyLogicalShaped(c, sc);
        NegatedShaped(cond, sc);
        NegatedHolds(cond, at);
        SimplifyLogicalHolds(Negated(cond), sc, at);
      }
      SimplifyIteHolds(c, t, f, at);
  }

  lemma SimplifyIteHolds(c: Logical, t: Option<Logical>, f: Option<Logical>, at: Row)
    requires Holds(SimplifyLogical(at.p, c), at) <==> Holds(c, at)
    requires t.Some? ==> (Holds(SimplifyLogical(at.p, t.value), at) <==> Holds(t.value, at))
    requires f.Some? ==> (Holds(SimplifyLogical(at.p, f.value), at) <==> Holds(f.value, at))
    requires SimplifyBranch(at.p, t) == Some(FALSE) && SimplifyBranch(at.p, f).None? ==>
      (Holds(SimplifyLogical(at.p, Negated(SimplifyLogical(at.p, c))), at) <==> !Holds(c, at))
    ensures Holds(SimplifyLogical(at.p, Ite(c, t, f)), at) <==> Holds(Ite(c, t, f), at)
  {
    var cond := SimplifyLogical(at.p, c);
    if !IsTrue(cond) && !IsFalse(cond) {
      BranchHolds(t, at);
      BranchHolds(f, at);
    }
  }

  // A dropped branch holds anyway.
  lemma BranchHolds(b: Option<Logical>, at: Row)
    requires b.Some? ==> (Holds(SimplifyLogical(at.p, b.value), at) <==> Holds(b.value, at))
    ensures var s := SimplifyBranch(at.p, b);
            (b.Some? ==> Holds(b.value, at)) <==> (s.Some? ==> Holds(s.value, at))
  {
  }

  lemma {:induction false} SimplifyLogicalsHold(es: seq<Logical>, sc: Scope, at: Row)
    requires AllLogicalShaped(es, sc) && at.Over(sc) && AllFoldExactly(at.p, es)
    ensures AllHold(SimplifyLogicals(at.p, es), at) <==> AllHold(es, at)
    ensures AnyHolds(SimplifyLogicals(at.p, es), at) <==> AnyHolds(es, at)
    decreases SizeOfAll(es), 1
  {
    if es != [] {
      SimplifyLogicalHolds(es[0], sc, at);
      SimplifyLogicalsHold(es[1..], sc, at);
      var s, rest := SimplifyLogical(at.p, es[0]), SimplifyLogicals(at.p, es[1..]);
      assert es == [es[0]] + es[1..];
      AnyHoldsConcat([es[0]], es[1..], at);
      AnyHoldsConcat([s], rest, at);
      assert s in [s] + rest;
    }
  }

  // ---------------------------------------------------------------------------
  // The core language, on which lowering is defined
  // ---------------------------------------------------------------------------

  /** Constraints without conditionals or negations. */
  predicate Core(e: Logical) {
    match e
    case Equal(_, _) => true
    case NotEqual(_, _) => true
    case Conjunct(args) => forall a :: a in args ==> Core(a)
    case Disjunct(args) => forall a :: a in args ==> Core(a)
    case Negate(_) => false
    case Ite(_, _, _) => false
  }

  lemma {:induction false} FlattenCore(es: seq<Logical>)
    requires forall e :: e in es ==> Core(e)
    ensures forall e :: e in FlattenConjuncts(es) ==> Core(e)
    ensures forall e :: e in FlattenDisjuncts(es) ==> Core(e)
  {
    if es != [] {
      assert Core(es[0]);
      FlattenCore(es[1..]);
    }
  }

  /** Simplification never reintroduces conditionals or negations. */
  lemma {:induction false} SimplifyLogicalCore(p: Prime, e: Logical)
    requires Core(e)
    ensures Core(SimplifyLogical(p, e))
    decreases Size(e), 0
  {
    if e.Conjunct? || e.Disjunct? {
      var terms := SimplifyLogicals(p, e.args);
      SimplifyLogicalsCore(p, e.args);
      FlattenCore(terms);
      RemoveAllMembers(FlattenConjuncts(terms), TRUE);
      RemoveAllMembers(FlattenDisjuncts(terms), FALSE);
    }
  }

  lemma {:induction false} SimplifyLogicalsCore(p: Prime, es: seq<Logical>)
    requires forall e :: e in es ==> Core(e)
    ensures forall e :: e in SimplifyLogicals(p, es) ==> Core(e)
    decreases SizeOfAll(es), 1
  {
    if es != [] {
      SimplifyLogicalCore(p, es[0]);
      SimplifyLogicalsCore(p, es[1..]);
    }
  }
}

/** Removing conditionals and negations, by pushing a sign down to the equalities. */
module Expansion {
  import opened Options
  import opened Terms
  import opened Logic
  import opened LogicProperties

  function Expand(sign: bool, e: Logical): Logical
    decreases e, 0
  {
    match e
    case Conjunct(args) =>
      if sign then Conjunction(ExpandAll(sign, args)) else Disjunction(ExpandAll(sign, args))
    case Disjunct(args) =>
      if sign then Disjunction(ExpandAll(sign, args)) else Conjunction(ExpandAll(sign, args))
    case Equal(l, r) => ExpandEquality(sign, l, r)
    case NotEqual(l, r) => ExpandEquality(!sign, l, r)
    case Negate(arg) => Expand(!sign, arg)
    case Ite(c, t, f) =>
      if sign then
        Conjunction(
          (if t.Some? then [Disjunction([Expand(false, c), Expand(true, t.value)])] else []) +
          (if f.Some? then [Disjunction([Expand(true, c), Expand(true, f.value)])] else []))
      else
        Disjunction(
          (if t.Some? then [Conjunction([Expand(true, c), Expand(false, t.value)])] else []) +
          (if f.Some? then [Conjunction([Expand(false, c), Expand(false, f.value)])] else []))
  }

  function ExpandAll(sign: bool, es: seq<Logical>): seq<Logical>
    decreases es, 1
  {
    if es == [] then [] else [Expand(sign, es[0])] + ExpandAll(sign, es[1..])
  }

  function ExpandEquality(sign: bool, l: Term, r: Term): Logical {
    if sign then Equal(l, r) else NotEqual(l, r)
  }

  /** Expansion yields the constraint itself or its negation, depending on the sign. */
  lemma {:induction false} ExpandHolds(sign: bool, e: Logical, at: Row)
    ensures Holds(Expand(sign, e), at) <==> (Holds(e, at) == sign)
    decreases e, 0
  {
    match e
    case Conjunct(args) =>
      ExpandAllHold(sign, args, at);
      ConjunctionHolds(ExpandAll(sign, args), at);
      DisjunctionHolds(ExpandAll(sign, args), at);
    case Disjunct(args) =>
      ExpandAllHold(sign, args, at);
      ConjunctionHolds(ExpandAll(sign, args), at);
      DisjunctionHolds(ExpandAll(sign, args), at);
    case Equal(_, _) =>
    case NotEqual(_, _) =>
    case Negate(arg) => ExpandHolds(!sign, arg, at);
    case Ite(c, t, f) =>
      ExpandHolds(true, c, at);
      ExpandHolds(false, c, at);
      if t.Some? { ExpandHolds(sign, t.value, at); }
      if f.Some? { ExpandHolds(sign, f.value, at); }
      ExpandIteHolds(sign, c, t, f, at);
  }

  lemma TwoHold(a: Logical, b: Logical, at: Row)
    ensures Holds(Disjunction([a, b]), at) <==> Holds(a, at) || Holds(b, at)
    ensures Holds(Conjunction([a, b]), at) <==> Holds(a, at) && Holds(b, at)
  {
    DisjunctionHolds([a, b], at);
    ConjunctionHolds([a, b], at);
    assert a in [a, b] && b in [a, b];
  }

  lemma ExpandIteHolds(sign: bool, c: Logical, t: Option<Logical>, f: Option<Logical>, at: Row)
    requires Holds(Expand(true, c), at) <==> Holds(c, at)
    requires Holds(Expand(false, c), at) <==> !Holds(c, at)
    requires t.Some? ==> (Holds(Expand(sign, t.value), at) <==> (Holds(t.value, at) == sign))
    requires f.Some? ==> (Holds(Expand(sign, f.value), at) <==> (Holds(f.value, at) == sign))
    ensures Holds(Expand(sign, Ite(c, t, f)), at) <==> (Holds(Ite(c, t, f), at) == sign)
  {
    if sign {
      var ts := if t.Some? then [Disjunction([Expand(false, c), Expand(true, t.value)])] else [];
      var fs := if f.Some? then [Disjunction([Expand(true, c), Expand(true, f.value)])] else [];
      if t.Some? { TwoHold(Expand(false, c), Expand(true, t.value), at); assert ts[0] in ts + fs; }
      if f.Some? { TwoHold(Expand(true, c), Expand(true, f.value), at); assert fs[0] in ts + fs; }
      ConjunctionHolds(ts + fs, at);
    } else {
      var ts := if t.Some? then [Conjunction([Expand(true, c), Expand(false, t.value)])] else [];
      var fs := if f.Some? then [Conjunction([Expand(false, c), Expand(false, f.value)])] else [];
      if t.Some? { TwoHold(Expand(true, c), Expand(false, t.value), at); assert ts[0] in ts + fs; }
      if f.Some? { TwoHold(Expand(false, c), Expand(false, f.value), at); assert fs[0] in ts + fs; }
      DisjunctionHolds(ts + fs, at);
    }
  }

  lemma {:induction false} ExpandAllHold(sign: bool, es: seq<Logical>, at: Row)
    ensures AllHold(ExpandAll(sign, es), at) <==> (if sign then AllHold(es, at) else !AnyHolds(es, at))
    ensures AnyHolds(ExpandAll(sign, es), at) <==> (if sign then AnyHolds(es, at) else !AllHold(es, at))
    decreases es, 1
  {
    if es != [] {
      ExpandHolds(sign, es[0], at);
      ExpandAllHold(sign, es[1..], at);
      var s, rest := Expand(sign, es[0]), ExpandAll(sign, es[1..]);
      assert es == [es[0]] + es[1..];
      AnyHoldsConcat([es[0]], es[1..], at);
      AnyHoldsConcat([s], rest, at);
      assert s in [s] + rest;
    }
  }

  /** Expansion leaves nothing behind but equalities under conjunctions and disjunctions. */
  lemma {:induction false} ExpandCore(sign: bool, e: Logical)
    ensures Core(Expand(sign, e))
    decreases e, 0
  {
    match e
    case Conjunct(args) => ExpandAllCore(sign, args);
    case Disjunct(args) => ExpandAllCore(sign, args);
    case Equal(_, _) =>
    case NotEqual(_, _) =>
    case Negate(arg) => ExpandCore(!sign, arg);
    case Ite(c, t, f) =>
      ExpandCore(true, c);
      ExpandCore(false, c);
      if t.Some? { ExpandCore(sign, t.value); }
      if f.Some? { ExpandCore(sign, f.value); }
  }

  lemma {:induction false} ExpandAllCore(sign: bool, es: seq<Logical>)
    ensures forall e :: e in ExpandAll(sign, es) ==> Core(e)
    decreases es, 1
  {
    if es != [] {
      ExpandCore(sign, es[0]);
      ExpandAllCore(sign, es[1..]);
    }
  }

  lemma {:induction false} ExpandShaped(sign: bool, e: Logical, sc: Scope)
    requires LogicalShaped(e, sc)
    ensures LogicalShaped(Expand(sign, e), sc)
    decreases e, 0
  {
    match e
    case Conjunct(args) => ExpandAllShaped(sign, args, sc);
    case Disjunct(args) => ExpandAllShaped(sign, args, sc);
    case Equal(_, _) =>
    case NotEqual(_, _) =>
    case Negate(arg) => ExpandShaped(!sign, arg, sc);
    case Ite(c, t, f) =>
      ExpandShaped(true, c, sc);
      ExpandShaped(false, c, sc);
      if t.Some? { ExpandShaped(sign, t.value, sc); }
      if f.Some? { ExpandShaped(sign, f.value, sc); }
  }

  lemma {:induction false} ExpandAllShaped(sign: bool, es: seq<Logical>, sc: Scope)
    requires AllLogicalShaped(es, sc)
    ensures AllLogicalShaped(ExpandAll(sign, es), sc)
    decreases es, 1
  {
    if es != [] {
      ExpandShaped(sign, es[0], sc);
      ExpandAllShaped(sign, es[1..], sc);
    }
  }
}
