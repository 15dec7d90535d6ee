// Logical constraints over arithmetic terms: their meaning, negation, simplification and expansion.
module Logic {
  import opened Options
  import opened PrimeField
  import opened Tables
  import opened Terms
  import opened Simplify

  datatype Logical =
    | Equal(lhs: Term, rhs: Term)
    | NotEqual(lhs: Term, rhs: Term)
    | Conjunct(args: seq<Logical>)
    | Disjunct(args: seq<Logical>)
    | Negate(arg: Logical)
    | Ite(condition: Logical, trueBranch: Option<Logical>, falseBranch: Option<Logical>)

  /** Truth is the empty conjunct. */
  const TRUE := Conjunct([])
  /** Falsehood is the empty disjunct. */
  const FALSE := Disjunct([])

  predicate IsTrue(e: Logical) {
    e == TRUE
  }

  predicate IsFalse(e: Logical) {
    e == FALSE
  }

  function Conjunction(es: seq<Logical>): Logical {
    if |es| == 1 then es[0] else Conjunct(es)
  }

  function Disjunction(es: seq<Logical>): Logical {
    if |es| == 1 then es[0] else Disjunct(es)
  }

  // ---------------------------------------------------------------------------
  // Meaning
  // ---------------------------------------------------------------------------

  /** Whether a constraint holds on a given row. */
  ghost predicate Holds(e: Logical, at: Row) {
    match e
    case Equal(l, r) => Eval(l, at) == Eval(r, at)
    case NotEqual(l, r) => Eval(l, at) != Eval(r, at)
    case Conjunct(args) => forall a :: a in args ==> Holds(a, at)
    case Disjunct(args) => exists a :: a in args && Holds(a, at)
    case Negate(arg) => !Holds(arg, at)
    case Ite(c, t, f) =>
      if Holds(c, at) then (t.Some? ==> Holds(t.value, at)) else (f.Some? ==> Holds(f.value, at))
  }

  ghost predicate AllHold(es: seq<Logical>, at: Row) {
    forall e :: e in es ==> Holds(e, at)
  }

  ghost predicate AnyHolds(es: seq<Logical>, at: Row) {
    exists e :: e in es && Holds(e, at)
  }

  lemma ConjunctionHolds(es: seq<Logical>, at: Row)
    ensures Holds(Conjunction(es), at) <==> AllHold(es, at)
  {
    assert |es| == 1 ==> es[0] in es;
  }

  lemma DisjunctionHolds(es: seq<Logical>, at: Row)
    ensures Holds(Disjunction(es), at) <==> AnyHolds(es, at)
  {
    assert |es| == 1 ==> es[0] in es;
  }

  /** A constraint whose terms are all shaped. */
  predicate LogicalShaped(e: Logical, sc: Scope) {
    match e
    case Equal(l, r) => Shaped(l, sc) && Shaped(r, sc)
    case NotEqual(l, r) => Shaped(l, sc) && Shaped(r, sc)
    case Conjunct(args) => forall a :: a in args ==> LogicalShaped(a, sc)
    case Disjunct(args) => forall a :: a in args ==> LogicalShaped(a, sc)
    case Negate(arg) => LogicalShaped(arg, sc)
    case Ite(c, t, f) =>
      && LogicalShaped(c, sc)
      && (t.Some? ==> LogicalShaped(t.value, sc))
      && (f.Some? ==> LogicalShaped(f.value, sc))
  }

  predicate AllLogicalShaped(es: seq<Logical>, sc: Scope) {
    forall e :: e in es ==> LogicalShaped(e, sc)
  }

  /** Testing a constraint as it is carried out: left to right, stopping at the first operand which decides. */
  method TestAt(e: Logical, ghost sc: Scope, at: Row) returns (val: bool)
    requires LogicalShaped(e, sc) && at.Over(sc)
    ensures val <==> Holds(e, at)
    decreases e
  {
    match e {
      case Equal(l, r) =>
        var lhs := EvalAt(l, sc, at);
        var rhs := EvalAt(r, sc, at);
        return lhs == rhs;
      case NotEqual(l, r) =>
        var lhs := EvalAt(l, sc, at);
        var rhs := EvalAt(r, sc, at);
        return lhs != rhs;
      case Conjunct(args) =>
        for i := 0 to |args|
          invariant forall j :: 0 <= j < i ==> Holds(args[j], at)
        {
          var ith := TestAt(args[i], sc, at);
          if !ith {
            return false;
          }
        }
        return true;
      case Disjunct(args) =>
        for i := 0 to |args|
          invariant forall j :: 0 <= j < i ==> !Holds(args[j], at)
        {
          var ith := TestAt(args[i], sc, at);
          if ith {
            return true;
          }
        }
        return false;
      case Negate(arg) =>
        var inner := TestAt(arg, sc, at);
        return !inner;
      case Ite(c, t, f) =>
        var cond := TestAt(c, sc, at);
        if cond && t.Some? {
          val := TestAt(t.value, sc, at);
        } else if !cond && f.Some? {
          val := TestAt(f.value, sc, at);
        } else {
          val := true;
        }
    }
  }

  /** The rows on which a constraint is defined. */
  function BoundsOfLogical(e: Logical): Bounds
    decreases e, 0
  {
    match e
    case Equal(l, r) => BoundsOf(l).Union(BoundsOf(r))
    case NotEqual(l, r) => BoundsOf(l).Union(BoundsOf(r))
    case Conjunct(args) => BoundsOfLogicals(args)
    case Disjunct(args) => BoundsOfLogicals(args)
    case Negate(arg) => BoundsOfLogical(arg)
    case Ite(c, t, f) =>
      BoundsOfLogical(c)
        .Union(if t.Some? then BoundsOfLogical(t.value) else EMPTY_BOUND)
        .Union(if f.Some? then BoundsOfLogical(f.value) else EMPTY_BOUND)
  }

  function BoundsOfLogicals(es: seq<Logical>): Bounds
    decreases es, 1
  {
    if es == [] then EMPTY_BOUND else BoundsOfLogical(es[0]).Union(BoundsOfLogicals(es[1..]))
  }

  lemma {:induction false} LogicalShapedWiden(e: Logical, sc: Scope, wide: Scope)
    requires LogicalShaped(e, sc) && sc.Within(wide)
    ensures LogicalShaped(e, wide)
  {
    match e
    case Equal(l, r) => ShapedWiden(l, sc, wide); ShapedWiden(r, sc, wide);
    case NotEqual(l, r) => ShapedWiden(l, sc, wide); ShapedWiden(r, sc, wide);
    case Conjunct(args) =>
      forall a | a in args ensures LogicalShaped(a, wide) { LogicalShapedWiden(a, sc, wide); }
    case Disjunct(args) =>
      forall a | a in args ensures LogicalShaped(a, wide) { LogicalShapedWiden(a, sc, wide); }
    case Negate(arg) => LogicalShapedWiden(arg, sc, wide);
    case Ite(c, t, f) =>
      LogicalShapedWiden(c, sc, wide);
      if t.Some? { LogicalShapedWiden(t.value, sc, wide); }
      if f.Some? { LogicalShapedWiden(f.value, sc, wide); }
  }

  /** The bounds of a constraint admit all of its accesses. */
  lemma {:induction false} LogicalShapedBounds(e: Logical, sc: Scope)
    requires LogicalShaped(e, sc)
    ensures LogicalShaped(e, sc.(bounds := BoundsOfLogical(e))) && BoundsOfLogical(e).AtMost(sc.bounds)
    decreases e, 0
  {
    var tight := sc.(bounds := BoundsOfLogical(e));
    match e
    case Equal(l, r) => SidesShapedBounds(l, r, sc);
    case NotEqual(l, r) => SidesShapedBounds(l, r, sc);
    case Conjunct(args) => LogicalsShapedBounds(args, sc);
    case Disjunct(args) => LogicalsShapedBounds(args, sc);
    case Negate(arg) => LogicalShapedBounds(arg, sc);
    case Ite(c, t, f) =>
      LogicalShapedBounds(c, sc);
      LogicalShapedWiden(c, sc.(bounds := BoundsOfLogical(c)), tight);
      if t.Some? {
        LogicalShapedBounds(t.value, sc);
        LogicalShapedWiden(t.value, sc.(bounds := BoundsOfLogical(t.value)), tight);
      }
      if f.Some? {
        LogicalShapedBounds(f.value, sc);
        LogicalShapedWiden(f.value, sc.(bounds := BoundsOfLogical(f.value)), tight);
      }
  }

  lemma SidesShapedBounds(l: Term, r: Term, sc: Scope)
    requires Shaped(l, sc) && Shaped(r, sc)
    ensures var b := BoundsOf(l).Union(BoundsOf(r));
            b.AtMost(sc.bounds) && Shaped(l, sc.(bounds := b)) && Shaped(r, sc.(bounds := b))
  {
    var b := BoundsOf(l).Union(BoundsOf(r));
    ShapedBounds(l, sc);
    ShapedBounds(r, sc);
    ShapedWiden(l, sc.(bounds := BoundsOf(l)), sc.(bounds := b));
    ShapedWiden(r, sc.(bounds := BoundsOf(r)), sc.(bounds := b));
  }

  lemma {:induction false} LogicalsShapedBounds(es: seq<Logical>, sc: Scope)
    requires AllLogicalShaped(es, sc)
    ensures AllLogicalShaped(es, sc.(bounds := BoundsOfLogicals(es))) && BoundsOfLogicals(es).AtMost(sc.bounds)
    decreases es, 1
  {
    if es != [] {
      var tight := sc.(bounds := BoundsOfLogicals(es));
      LogicalShapedBounds(es[0], sc);
      LogicalsShapedBounds(es[1..], sc);
      LogicalShapedWiden(es[0], sc.(bounds := BoundsOfLogical(es[0])), tight);
      forall e | e in es[1..] ensures LogicalShaped(e, tight) {
        LogicalShapedWiden(e, sc.(bounds := BoundsOfLogicals(es[1..])), tight);
      }
    }
  }

  // ---------------------------------------------------------------------------
  // Negation
  // ---------------------------------------------------------------------------

  /** The negation of a constraint, which introduces no Negate of its own. */
  function Negated(e: Logical): Logical
    decreases e, 0
  {
    match e
    case Equal(l, r) => NotEqual(l, r)
    case NotEqual(l, r) => Equal(l, r)
    case Conjunct(args) => Disjunction(NegatedAll(args))
    case Disjunct(args) => Conjunction(NegatedAll(args))
    case Negate(arg) => arg
    case Ite(c, t, f) =>
      Ite(c, Some(if t.Some? then Negated(t.value) else FALSE), Some(if f.Some? then Negated(f.value) else FALSE))
  }

  function NegatedAll(es: seq<Logical>): seq<Logical>
    decreases es, 1
  {
    if es == [] then [] else [Negated(es[0])] + NegatedAll(es[1..])
  }

  lemma {:induction false} NegatedHolds(e: Logical, at: Row)
    ensures Holds(Negated(e), at) <==> !Holds(e, at)
    decreases e, 0
  {
    match e
    case Equal(_, _) =>
    case NotEqual(_, _) =>
    case Conjunct(args) => NegatedAllHold(args, at); DisjunctionHolds(NegatedAll(args), at);
    case Disjunct(args) => NegatedAllHold(args, at); ConjunctionHolds(NegatedAll(args), at);
    case Negate(_) =>
    case Ite(c, t, f) =>
      if t.Some? { NegatedHolds(t.value, at); }
      if f.Some? { NegatedHolds(f.value, at); }
  }

  lemma {:induction false} NegatedAllHold(es: seq<Logical>, at: Row)
    ensures AnyHolds(NegatedAll(es), at) <==> !AllHold(es, at)
    ensures AllHold(NegatedAll(es), at) <==> !AnyHolds(es, at)
    decreases es, 1
  {
    if es != [] {
      NegatedHolds(es[0], at);
      NegatedAllHold(es[1..], at);
      assert es == [es[0]] + es[1..];
      assert Negated(es[0]) in NegatedAll(es);
    }
  }

  lemma {:induction false} NegatedShaped(e: Logical, sc: Scope)
    requires LogicalShaped(e, sc)
    ensures LogicalShaped(Negated(e), sc)
    decreases e, 0
  {
    match e
    case Equal(_, _) =>
    case NotEqual(_, _) =>
    case Conjunct(args) => NegatedAllShaped(args, sc);
    case Disjunct(args) => NegatedAllShaped(args, sc);
    case Negate(_) =>
    case Ite(c, t, f) =>
      if t.Some? { NegatedShaped(t.value, sc); }
      if f.Some? { NegatedShaped(f.value, sc); }
  }

  lemma {:induction false} NegatedAllShaped(es: seq<Logical>, sc: Scope)
    requires AllLogicalShaped(es, sc)
    ensures AllLogicalShaped(NegatedAll(es), sc)
    decreases es, 1
  {
    if es != [] {
      NegatedShaped(es[0], sc);
      NegatedAllShaped(es[1..], sc);
    }
  }

  // ---------------------------------------------------------------------------
  // Size, which neither negation nor simplification increases
  // ---------------------------------------------------------------------------

  /** The number of logical operators, where an absent branch counts as one. */
  function Size(e: Logical): (n: nat)
    ensures n > 0
    decreases e, 0
  {
    match e
    case Equal(_, _) => 1
    case NotEqual(_, _) => 1
    case Conjunct(args) => 1 + SizeOfAll(args)
    case Disjunct(args) => 1 + SizeOfAll(args)
    case Negate(arg) => 1 + Size(arg)
    case Ite(c, t, f) =>
      1 + Size(c) + (if t.Some? then Size(t.value) else 1) + (if f.Some? then Size(f.value) else 1)
  }

  function SizeOfAll(es: seq<Logical>): nat
    decreases es, 1
  {
    if es == [] then 0 else Size(es[0]) + SizeOfAll(es[1..])
  }

  lemma SizeOfConcat(xs: seq<Logical>, ys: seq<Logical>)
    ensures SizeOfAll(xs + ys) == SizeOfAll(xs) + SizeOfAll(ys)
  {
    if xs == [] {
      assert xs + ys == ys;
    } else {
      assert (xs + ys)[1..] == xs[1..] + ys;
      SizeOfConcat(xs[1..], ys);
    }
  }

  lemma SizeOfSingle(e: Logical)
    ensures SizeOfAll([e]) == Size(e)
  {
    assert [e][1..] == [];
  }

  lemma SizeOfJunction(es: seq<Logical>)
    ensures Size(Conjunction(es)) <= 1 + SizeOfAll(es) && Size(Disjunction(es)) <= 1 + SizeOfAll(es)
  {
    if |es| == 1 {
      assert es == [es[0]];
      SizeOfSingle(es[0]);
    }
  }

  /** Negation never makes a constraint larger. */
  lemma {:induction false} NegatedSize(e: Logical)
    ensures Size(Negated(e)) <= Size(e)
    decreases e, 0
  {
    match e
    case Equal(_, _) =>
    case NotEqual(_, _) =>
    case Conjunct(args) => NegatedAllSize(args); SizeOfJunction(NegatedAll(args));
    case Disjunct(args) => NegatedAllSize(args); SizeOfJunction(NegatedAll(args));
    case Negate(_) =>
    case Ite(c, t, f) =>
      if t.Some? { NegatedSize(t.value); }
      if f.Some? { NegatedSize(f.value); }
  }

  lemma {:induction false} NegatedAllSize(es: seq<Logical>)
    ensures SizeOfAll(NegatedAll(es)) <= SizeOfAll(es)
    decreases es, 1
  {
    if es != [] {
      NegatedSize(es[0]);
      NegatedAllSize(es[1..]);
      assert NegatedAll(es)[1..] == NegatedAll(es[1..]);
    }
  }

  // ---------------------------------------------------------------------------
  // Simplification
  // ---------------------------------------------------------------------------

  function FlattenConjuncts(es: seq<Logical>): seq<Logical> {
    if es == [] then []
    else (if es[0].Conjunct? && es[0].args != [] then es[0].args else [es[0]]) + FlattenConjuncts(es[1..])
  }

  function FlattenDisjuncts(es: seq<Logical>): seq<Logical> {
    if es == [] then []
    else (if es[0].Disjunct? && es[0].args != [] then es[0].args else [es[0]]) + FlattenDisjuncts(es[1..])
  }

  function RemoveAll(es: seq<Logical>, e: Logical): seq<Logical> {
    if es == [] then [] else (if es[0] == e then [] else [es[0]]) + RemoveAll(es[1..], e)
  }

  function MakeConjunct(es: seq<Logical>): Logical {
    if exists e :: e in es && IsFalse(e) then FALSE else Conjunction(RemoveAll(es, TRUE))
  }

  function MakeDisjunct(es: seq<Logical>): Logical {
    if exists e :: e in es && IsTrue(e) then TRUE else Disjunction(RemoveAll(es, FALSE))
  }

  lemma {:induction false} JunctionSizes(es: seq<Logical>)
    ensures Size(MakeConjunct(FlattenConjuncts(es))) <= 1 + SizeOfAll(es)
    ensures Size(MakeDisjunct(FlattenDisjuncts(es))) <= 1 + SizeOfAll(es)
  {
    var cs, ds := FlattenConjuncts(es), FlattenDisjuncts(es);
    FlattenSizes(es);
    RemoveAllSize(cs, TRUE);
    RemoveAllSize(ds, FALSE);
    SizeOfJunction(RemoveAll(cs, TRUE));
    SizeOfJunction(RemoveAll(ds, FALSE));
  }

  lemma {:induction false} FlattenSizes(es: seq<Logical>)
    ensures SizeOfAll(FlattenConjuncts(es)) <= SizeOfAll(es)
    ensures SizeOfAll(FlattenDisjuncts(es)) <= SizeOfAll(es)
  {
    if es != [] {
      FlattenSizes(es[1..]);
      SizeOfSingle(es[0]);
      SizeOfConcat(if es[0].Conjunct? && es[0].args != [] then es[0].args else [es[0]], FlattenConjuncts(es[1..]));
      SizeOfConcat(if es[0].Disjunct? && es[0].args != [] then es[0].args else [es[0]], FlattenDisjuncts(es[1..]));
    }
  }

  lemma {:induction false} RemoveAllSize(es: seq<Logical>, e: Logical)
    ensures SizeOfAll(RemoveAll(es, e)) <= SizeOfAll(es)
  {
    if es != [] {
      RemoveAllSize(es[1..], e);
      SizeOfSingle(es[0]);
      SizeOfConcat(if es[0] == e then [] else [es[0]], RemoveAll(es[1..], e));
    }
  }

  /** Simplify a constraint; the result is never larger, hence may itself be simplified again. */
  function SimplifyLogical(p: Prime, e: Logical): (r: Logical)
    ensures Size(r) <= Size(e)
    decreases Size(e), 0
  {
    match e
    case Equal(l, r) =>
      var (ls, rs) := (SimplifyTerm(p, l), SimplifyTerm(p, r));
      if ls.Constant? && rs.Constant? then (if ls.value == rs.value then TRUE else FALSE)
      else Equal(ls, rs)
    case NotEqual(l, r) =>
      var (ls, rs) := (SimplifyTerm(p, l), SimplifyTerm(p, r));
      if ls.Constant? && rs.Constant? then (if ls.value == rs.value then FALSE else TRUE)
      else NotEqual(ls, rs)
    case Conjunct(args) =>
      var terms := SimplifyLogicals(p, args);
      JunctionSizes(terms);
      MakeConjunct(FlattenConjuncts(terms))
    case Disjunct(args) =>
      var terms := SimplifyLogicals(p, args);
      JunctionSizes(terms);
      MakeDisjunct(FlattenDisjuncts(terms))
    case Negate(arg) =>
      NegatedSize(arg);
      SimplifyLogical(p, Negated(arg))
    case Ite(c, t, f) =>
      var cond := SimplifyLogical(p, c);
      if IsTrue(cond) then (if t.Some? then SimplifyLogical(p, t.value) else TRUE)
      else if IsFalse(cond) then (if f.Some? then SimplifyLogical(p, f.value) else TRUE)
      else
        var tb := SimplifyBranch(p, t);
        var fb := SimplifyBranch(p, f);
        if tb.None? && fb.None? then TRUE
        else if tb.None? && IsFalse(fb.value) then cond
        else if fb.None? && IsFalse(tb.value) then
          NegatedSize(cond);
          SimplifyLogical(p, Negated(cond))
        else Ite(cond, tb, fb)
  }

  /** Simplify an optional branch, dropping it when it became trivially true. */
  function SimplifyBranch(p: Prime, b: Option<Logical>): (r: Option<Logical>)
    ensures r.Some? ==> b.Some? && Size(r.value) <= Size(b.value)
    decreases if b.Some? then Size(b.value) else 0, 1
  {
    if b.None? then None
    else
      var s := SimplifyLogical(p, b.value);
      if IsTrue(s) then None else Some(s)
  }

  function SimplifyLogicals(p: Prime, es: seq<Logical>): (rs: seq<Logical>)
    ensures SizeOfAll(rs) <= SizeOfAll(es)
    decreases SizeOfAll(es), 1
  {
    if es == [] then []
    else
      var r := [SimplifyLogical(p, es[0])] + SimplifyLogicals(p, es[1..]);
      assert r[1..] == SimplifyLogicals(p, es[1..]);
      r
  }
}
