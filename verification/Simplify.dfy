// Constant propagation through arithmetic terms.
module Simplify {
  import opened Options
  import opened Congruence
  import opened PrimeField
  import opened Terms
  import opened Builders

  // ---------------------------------------------------------------------------
  // Merging constants
  // ---------------------------------------------------------------------------

  /** Fold all constants of a list into an accumulator, by field addition. */
  function FoldSum(p: Prime, ts: seq<Term>, acc: nat): nat {
    if ts == [] then acc
    else FoldSum(p, ts[1..], if ts[0].Constant? then FAdd(p, acc, ts[0].value) else acc)
  }

  /** Fold all constants of a list into an accumulator, by field multiplication. */
  function FoldProduct(p: Prime, ts: seq<Term>, acc: nat): nat {
    if ts == [] then acc
    else FoldProduct(p, ts[1..], if ts[0].Constant? then FMul(p, acc, ts[0].value) else acc)
  }

  /** Put a constant where the first one was (if first is set), and drop all others. */
  function MergeFrom(constant: nat, ts: seq<Term>, first: bool): seq<Term> {
    if ts == [] then []
    else if ts[0].Constant? then (if first then [Constant(constant)] else []) + MergeFrom(constant, ts[1..], false)
    else [ts[0]] + MergeFrom(constant, ts[1..], first)
  }

  function MergeConstants(constant: nat, ts: seq<Term>): seq<Term> {
    MergeFrom(constant, ts, true)
  }

  predicate HasConstant(ts: seq<Term>) {
    exists t :: t in ts && t.Constant?
  }

  /** The first constant of a list. */
  function FindConstant(ts: seq<Term>): Option<nat> {
    if ts == [] then None
    else if ts[0].Constant? then Some(ts[0].value)
    else FindConstant(ts[1..])
  }

  /** The integer sum of all constants in a list. */
  function ConstantSum(ts: seq<Term>): int {
    if ts == [] then 0 else (if ts[0].Constant? then ts[0].value else 0) + ConstantSum(ts[1..])
  }

  function ConstantProduct(ts: seq<Term>): int {
    if ts == [] then 1 else (if ts[0].Constant? then ts[0].value else 1) * ConstantProduct(ts[1..])
  }

  // What is left of a list without its constants.
  function NonConstants(ts: seq<Term>): seq<Term> {
    if ts == [] then [] else (if ts[0].Constant? then [] else [ts[0]]) + NonConstants(ts[1..])
  }

  lemma {:induction false} SplitSum(ts: seq<Term>, at: Row)
    ensures SumOf(ts, at) == ConstantSum(ts) + SumOf(NonConstants(ts), at)
  {
    if ts != [] {
      SplitSum(ts[1..], at);
      SumOfConcat(if ts[0].Constant? then [] else [ts[0]], NonConstants(ts[1..]), at);
      SumOfSingle(ts[0], at);
    }
  }

  lemma {:induction false} SplitProduct(ts: seq<Term>, at: Row)
    ensures ProductOf(ts, at) == ConstantProduct(ts) * ProductOf(NonConstants(ts), at)
  {
    if ts != [] {
      SplitProduct(ts[1..], at);
      ProductOfConcat(if ts[0].Constant? then [] else [ts[0]], NonConstants(ts[1..]), at);
      ProductOfSingle(ts[0], at);
      var c, r, v := ConstantProduct(ts[1..]), ProductOf(NonConstants(ts[1..]), at), Eval(ts[0], at);
      MulAssociates(v, c, r);
      MulAssociates(c, v, r);
      assert v * c == c * v;
    }
  }

  lemma {:induction false} MergeRest(constant: nat, ts: seq<Term>)
    ensures MergeFrom(constant, ts, false) == NonConstants(ts)
  {
    if ts != [] {
      MergeRest(constant, ts[1..]);
    }
  }

  lemma {:induction false} MergeSum(constant: nat, ts: seq<Term>, at: Row)
    ensures SumOf(MergeConstants(constant, ts), at)
         == (if HasConstant(ts) then constant else 0) + SumOf(NonConstants(ts), at)
  {
    if ts != [] {
      assert ts == [ts[0]] + ts[1..];
      if ts[0].Constant? {
        assert HasConstant(ts) by { assert ts[0] in ts; }
        assert NonConstants(ts) == NonConstants(ts[1..]);
        MergeRest(constant, ts[1..]);
        SumOfConcat([Constant(constant)], NonConstants(ts[1..]), at);
        SumOfSingle(Constant(constant), at);
      } else {
        MergeSum(constant, ts[1..], at);
        SumOfConcat([ts[0]], MergeConstants(constant, ts[1..]), at);
        SumOfConcat([ts[0]], NonConstants(ts[1..]), at);
      }
    }
  }

  lemma {:induction false} MergeProduct(constant: nat, ts: seq<Term>, at: Row)
    ensures ProductOf(MergeConstants(constant, ts), at)
         == (if HasConstant(ts) then constant else 1) * ProductOf(NonConstants(ts), at)
  {
    if ts != [] {
      assert ts == [ts[0]] + ts[1..];
      if ts[0].Constant? {
        assert HasConstant(ts) by { assert ts[0] in ts; }
        assert NonConstants(ts) == NonConstants(ts[1..]);
        MergeRest(constant, ts[1..]);
        ProductOfConcat([Constant(constant)], NonConstants(ts[1..]), at);
        ProductOfSingle(Constant(constant), at);
      } else {
        MergeProduct(constant, ts[1..], at);
        ProductOfConcat([ts[0]], MergeConstants(constant, ts[1..]), at);
        ProductOfConcat([ts[0]], NonConstants(ts[1..]), at);
        ProductOfSingle(ts[0], at);
        var c := if HasConstant(ts) then constant else 1;
        var v, r := Eval(ts[0], at), ProductOf(NonConstants(ts[1..]), at);
        MulAssociates(v, c, r);
        MulAssociates(c, v, r);
        assert v * c == c * v;
      }
    }
  }

  lemma {:induction false} FoldSumIsSum(p: Prime, ts: seq<Term>, acc: nat)
    ensures Same(p, FoldSum(p, ts, acc), acc + ConstantSum(ts))
    ensures IsElement(p, acc) ==> IsElement(p, FoldSum(p, ts, acc))
  {
    if ts != [] {
      if ts[0].Constant? {
        var next := FAdd(p, acc, ts[0].value);
        FoldSumIsSum(p, ts[1..], next);
        SameMod(p, acc + ts[0].value);
        SameAdd(p, next, acc + ts[0].value, ConstantSum(ts[1..]), ConstantSum(ts[1..]));
      } else {
        FoldSumIsSum(p, ts[1..], acc);
      }
    }
  }

  lemma {:induction false} FoldProductIsProduct(p: Prime, ts: seq<Term>, acc: nat)
    ensures Same(p, FoldProduct(p, ts, acc), acc * ConstantProduct(ts))
    ensures IsElement(p, acc) ==> IsElement(p, FoldProduct(p, ts, acc))
  {
    if ts != [] {
      if ts[0].Constant? {
        var next := FMul(p, acc, ts[0].value);
        FoldProductIsProduct(p, ts[1..], next);
        SameMod(p, acc * ts[0].value);
        SameMul(p, next, acc * ts[0].value, ConstantProduct(ts[1..]), ConstantProduct(ts[1..]));
        MulAssociates(acc, ts[0].value, ConstantProduct(ts[1..]));
      } else {
        FoldProductIsProduct(p, ts[1..], acc);
      }
    }
  }

  /** Merging keeps all other terms in their order, next to no more than one constant. */
  lemma {:induction false} MergedOnce(constant: nat, ts: seq<Term>, first: bool)
    ensures var rs := MergeFrom(constant, ts, first);
            NonConstants(rs) == NonConstants(ts) && |rs| <= |NonConstants(ts)| + (if first then 1 else 0)
  {
    if ts != [] {
      MergedOnce(constant, ts[1..], first && !ts[0].Constant?);
      var rs := MergeFrom(constant, ts, first);
      if !ts[0].Constant? || first {
        assert rs[1..] == MergeFrom(constant, ts[1..], first && !ts[0].Constant?);
      } else {
        assert rs == MergeFrom(constant, ts[1..], false);
      }
    }
  }

  lemma MergeSingle(constant: nat, t: Term)
    ensures MergeConstants(constant, [t]) == [if t.Constant? then Constant(constant) else t]
  {
    var rest := [t][1..];
    assert rest == [] && MergeFrom(constant, rest, true) == [] && MergeFrom(constant, rest, false) == [];
  }

  lemma {:induction false} NoConstants(ts: seq<Term>)
    requires !HasConstant(ts)
    ensures ConstantSum(ts) == 0 && ConstantProduct(ts) == 1 && FindConstant(ts) == None
  {
    if ts != [] {
      assert ts[0] in ts;
      NoConstants(ts[1..]);
    }
  }

  lemma {:induction false} MergeShaped(constant: nat, ts: seq<Term>, first: bool, sc: Scope)
    requires AllShaped(ts, sc) && IsElement(sc.p, constant)
    ensures AllShaped(MergeFrom(constant, ts, first), sc)
  {
    if ts != [] {
      assert Shaped(ts[0], sc);
      MergeShaped(constant, ts[1..], if ts[0].Constant? then false else first, sc);
    }
  }

  /** Merging all constants of a sum into one keeps the sum. */
  lemma MergedSum(ts: seq<Term>, sc: Scope, at: Row)
    requires at.Over(sc) && AllShaped(ts, sc)
    ensures AllShaped(MergeConstants(FoldSum(at.p, ts, 0), ts), sc)
    ensures Same(at.p, SumOf(MergeConstants(FoldSum(at.p, ts, 0), ts), at), SumOf(ts, at))
  {
    var acc := FoldSum(at.p, ts, 0);
    FoldSumIsSum(at.p, ts, 0);
    MergeSum(acc, ts, at);
    SplitSum(ts, at);
    MergeShaped(acc, ts, true, sc);
    var rest := SumOf(NonConstants(ts), at);
    if HasConstant(ts) {
      SameAdd(at.p, acc, ConstantSum(ts), rest, rest);
    } else {
      NoConstants(ts);
    }
  }

  /** Merging all constants of a product into one keeps the product. */
  lemma MergedProduct(ts: seq<Term>, sc: Scope, at: Row)
    requires at.Over(sc) && AllShaped(ts, sc)
    ensures AllShaped(MergeConstants(FoldProduct(at.p, ts, 1), ts), sc)
    ensures Same(at.p, ProductOf(MergeConstants(FoldProduct(at.p, ts, 1), ts), at), ProductOf(ts, at))
  {
    var acc := FoldProduct(at.p, ts, 1);
    FoldProductIsProduct(at.p, ts, 1);
    MergeProduct(acc, ts, at);
    SplitProduct(ts, at);
    MergeShaped(acc, ts, true, sc);
    var rest := ProductOf(NonConstants(ts), at);
    if HasConstant(ts) {
      SameMul(at.p, acc, ConstantProduct(ts), rest, rest);
    } else {
      NoConstants(ts);
    }
  }

  // ---------------------------------------------------------------------------
  // Simplification
  // ---------------------------------------------------------------------------

  function SimplifyTerm(p: Prime, t: Term): Term
    decreases t, 0
  {
    match t
    case Constant(_) => t
    case RegisterAccess(_, _, _) => t
    case Add(args) => SimplifySum(p, args)
    case Mul(args) =>
      var terms := SimplifyAll(p, args);
      var fs := FlattenMul(MergeConstants(FoldProduct(p, terms, 1), terms));
      if exists f :: f in fs && IsZero(f) then Constant(0) else MakeProduct(RemoveOnes(fs))
    case Sub(args) =>
      if args == [] then t else SimplifySub(p, SimplifyTerm(p, args[0]), SimplifySum(p, args[1..]))
  }

  function SimplifyAll(p: Prime, ts: seq<Term>): (rs: seq<Term>)
    ensures |rs| == |ts|
    decreases ts, 1
  {
    if ts == [] then [] else [SimplifyTerm(p, ts[0])] + SimplifyAll(p, ts[1..])
  }

  function SimplifySum(p: Prime, ts: seq<Term>): Term
    decreases ts, 2
  {
    var terms := SimplifyAll(p, ts);
    Sum(MergeConstants(FoldSum(p, terms, 0), terms))
  }

  /** Simplify a - (b + c + ...), given the simplified minuend and the simplified sum of the rest. */
  function SimplifySub(p: Prime, lhs: Term, rhs: Term): Term {
    if IsZero(rhs) then lhs
    else if lhs.Constant? && rhs.Constant? && lhs.value >= rhs.value then
      Constant(FSub(p, lhs.value, rhs.value))
    else if lhs.Constant? && rhs.Sub? then
      if rhs.args != [] && rhs.args[0].Constant? && lhs.value >= rhs.args[0].value then
        Sum([Constant(FSub(p, lhs.value, rhs.args[0].value))] + rhs.args[1..])
      else
        Sub([lhs, rhs])
    else if lhs.Constant? && rhs.Add? then
      var first := FindConstant(rhs.args);
      if first.Some? && lhs.value >= first.value then
        Sub(MergeConstants(FSub(p, lhs.value, first.value), [lhs] + rhs.args))
      else
        Sub([lhs] + rhs.args)
    else if rhs.Add? then
      Sub([lhs] + rhs.args)
    else
      Sub([lhs, rhs])
  }

  /**
   * When the first constant of a flattened subtrahend is folded into a constant minuend, all its
   * other constants are dropped.  This holds when those do not cancel out.
   */
  predicate DropsConstants(p: Prime, lhs: Term, rhs: Term) {
    && lhs.Constant? && rhs.Add?
    && FindConstant(rhs.args).Some?
    && lhs.value >= FindConstant(rhs.args).value
    && (ConstantSum(rhs.args) - FindConstant(rhs.args).value) % p != 0
  }

  /** Whether no difference within a term drops constants as it is simplified. */
  predicate FoldsExactly(p: Prime, t: Term) {
    match t
    case Constant(_) => true
    case RegisterAccess(_, _, _) => true
    case Add(args) => forall a :: a in args ==> FoldsExactly(p, a)
    case Mul(args) => forall a :: a in args ==> FoldsExactly(p, a)
    case Sub(args) =>
      && (forall a :: a in args ==> FoldsExactly(p, a))
      && (args != [] ==> !DropsConstants(p, SimplifyTerm(p, args[0]), SimplifySum(p, args[1..])))
  }

  // The five ways in which a difference is rebuilt.

  lemma PrependEval(lhs: Term, ts: seq<Term>, at: Row)
    ensures Eval(Sub([lhs] + ts), at) == (Eval(lhs, at) - SumOf(ts, at)) % at.p
  {
    assert ([lhs] + ts)[1..] == ts;
  }

  // c - (d - xs) = (c - d) + xs
  lemma NestedDifference(c: nat, d: nat, xs: seq<Term>, sc: Scope, at: Row)
    requires at.Over(sc) && AllShaped(xs, sc) && IsElement(at.p, c) && IsElement(at.p, d)
    ensures Eval(Sum([Constant(FSub(at.p, c, d))] + xs), at)
         == FSub(at.p, c, Eval(Sub([Constant(d)] + xs), at))
  {
    var e := Constant(FSub(at.p, c, d));
    var s := SumOf(xs, at);
    SumEval([e] + xs, sc, at);
    SumOfConcat([e], xs, at);
    SumOfSingle(e, at);
    PrependEval(Constant(d), xs, at);
    SameMod(at.p, c - d);
    SameAdd(at.p, e.value, c - d, s, s);
    SameMod(at.p, d - s);
    SameSub(at.p, c, c, (d - s) % at.p, d - s);
  }

  // Folding the first constant k of as into c leaves out all others.
  lemma FoldedDifference(c: nat, k: nat, xs: seq<Term>, at: Row)
    requires IsElement(at.p, c) && k <= c && FindConstant(xs) == Some(k)
    ensures Eval(Sub(MergeConstants(FSub(at.p, c, k), [Constant(c)] + xs)), at)
         == (c - k - SumOf(NonConstants(xs), at)) % at.p
  {
    SmallModulus(at.p, c - k);
    var all := [Constant(c)] + xs;
    assert all[1..] == xs;
    MergeRest(c - k, xs);
    PrependEval(Constant(c - k), NonConstants(xs), at);
  }

  lemma SubtrahendIsElement(t: Term, xs: seq<Term>, sc: Scope, at: Row)
    requires at.Over(sc) && t == Add(xs)
    ensures FSub(at.p, 0, Eval(t, at)) == (0 - SumOf(xs, at)) % at.p
    ensures forall v: int :: FSub(at.p, v, Eval(t, at)) == (v - SumOf(xs, at)) % at.p
  {
    SameMod(at.p, SumOf(xs, at));
    forall v: int ensures FSub(at.p, v, Eval(t, at)) == (v - SumOf(xs, at)) % at.p {
      SameSub(at.p, v, v, Eval(t, at), SumOf(xs, at));
    }
  }

  /** Simplifying a difference is exact if, and only if, no constants are dropped. */
  lemma SimplifySubExact(lhs: Term, rhs: Term, sc: Scope, at: Row)
    requires Shaped(lhs, sc) && Shaped(rhs, sc) && at.Over(sc)
    ensures Eval(SimplifySub(at.p, lhs, rhs), at) == FSub(at.p, Eval(lhs, at), Eval(rhs, at))
       <==> !DropsConstants(at.p, lhs, rhs)
  {
    var l, r := Eval(lhs, at), Eval(rhs, at);
    EvalIsElement(lhs, sc, at);
    EvalIsElement(rhs, sc, at);
    assert [lhs, rhs] == [lhs] + [rhs];
    PrependEval(lhs, [rhs], at);
    SumOfSingle(rhs, at);
    if IsZero(rhs) {
      SmallModulus(at.p, l);
    } else if lhs.Constant? && rhs.Constant? && lhs.value >= rhs.value {
    } else if lhs.Constant? && rhs.Sub? {
      if rhs.args[0].Constant? && lhs.value >= rhs.args[0].value {
        assert Shaped(rhs.args[0], sc);
        assert rhs.args == [Constant(rhs.args[0].value)] + rhs.args[1..];
        NestedDifference(lhs.value, rhs.args[0].value, rhs.args[1..], sc, at);
      }
    } else if rhs.Add? {
      SubtrahendIsElement(rhs, rhs.args, sc, at);
      PrependEval(lhs, rhs.args, at);
      if lhs.Constant? && FindConstant(rhs.args).Some? && lhs.value >= FindConstant(rhs.args).value {
        var k := FindConstant(rhs.args).value;
        FoldedDifference(lhs.value, k, rhs.args, at);
        SplitSum(rhs.args, at);
        var rest := SumOf(NonConstants(rhs.args), at);
        SameIffDifferenceVanishes(at.p, l - k - rest, l - (ConstantSum(rhs.args) + rest));
      }
    }
  }

  lemma SimplifySubShaped(lhs: Term, rhs: Term, sc: Scope)
    requires Shaped(lhs, sc) && Shaped(rhs, sc)
    ensures Shaped(SimplifySub(sc.p, lhs, rhs), sc)
  {
    if lhs.Constant? && rhs.Sub? && rhs.args[0].Constant? {
      SumShaped([Constant(FSub(sc.p, lhs.value, rhs.args[0].value))] + rhs.args[1..], sc);
    } else if lhs.Constant? && rhs.Add? && FindConstant(rhs.args).Some? {
      var c := FSub(sc.p, lhs.value, FindConstant(rhs.args).value);
      MergeShaped(c, [lhs] + rhs.args, true, sc);
    }
  }

  lemma ZeroCheckCommutes(fs: seq<Term>)
    ensures (exists f :: f in fs && IsZero(f)) <==> (exists f :: f in RemoveOnes(fs) && IsZero(f))
  {
    if fs != [] {
      ZeroCheckCommutes(fs[1..]);
      assert fs == [fs[0]] + fs[1..];
    }
  }

  lemma {:induction false} SimplifyShaped(t: Term, sc: Scope)
    requires Shaped(t, sc)
    ensures Shaped(SimplifyTerm(sc.p, t), sc)
    decreases t, 0
  {
    match t
    case Constant(_) =>
    case RegisterAccess(_, _, _) =>
    case Add(args) => SimplifySumShaped(args, sc);
    case Mul(args) =>
      var terms := SimplifyAll(sc.p, args);
      SimplifyAllShaped(args, sc);
      FoldProductIsProduct(sc.p, terms, 1);
      MergeShaped(FoldProduct(sc.p, terms, 1), terms, true, sc);
      ZeroCheckCommutes(FlattenMul(MergeConstants(FoldProduct(sc.p, terms, 1), terms)));
      ProductShaped(MergeConstants(FoldProduct(sc.p, terms, 1), terms), sc);
    case Sub(args) =>
      SimplifyShaped(args[0], sc);
      SimplifySumShaped(args[1..], sc);
      SimplifySubShaped(SimplifyTerm(sc.p, args[0]), SimplifySum(sc.p, args[1..]), sc);
  }

  lemma {:induction false} SimplifyAllShaped(ts: seq<Term>, sc: Scope)
    requires AllShaped(ts, sc)
    ensures AllShaped(SimplifyAll(sc.p, ts), sc)
    decreases ts, 1
  {
    if ts != [] {
      SimplifyShaped(ts[0], sc);
      SimplifyAllShaped(ts[1..], sc);
    }
  }

  lemma {:induction false} SimplifySumShaped(ts: seq<Term>, sc: Scope)
    requires AllShaped(ts, sc)
    ensures Shaped(SimplifySum(sc.p, ts), sc)
    decreases ts, 2
  {
    var terms := SimplifyAll(sc.p, ts);
    SimplifyAllShaped(ts, sc);
    FoldSumIsSum(sc.p, terms, 0);
    MergeShaped(FoldSum(sc.p, terms, 0), terms, true, sc);
    SumShaped(MergeConstants(FoldSum(sc.p, terms, 0), terms), sc);
  }

  /** Simplification preserves meaning on every row. */
  lemma {:induction false} SimplifyEval(t: Term, sc: Scope, at: Row)
    requires Shaped(t, sc) && at.Over(sc) && FoldsExactly(at.p, t)
    ensures Eval(SimplifyTerm(at.p, t), at) == Eval(t, at)
    decreases t, 0
  {
    match t
    case Constant(_) =>
    case RegisterAccess(_, _, _) =>
    case Add(args) => SimplifySumEval(args, sc, at);
    case Mul(args) =>
      var terms := SimplifyAll(at.p, args);
      var merged := MergeConstants(FoldProduct(at.p, terms, 1), terms);
      SimplifyAllEval(args, sc, at);
      SimplifyAllShaped(args, sc);
      MergedProduct(terms, sc, at);
      ZeroCheckCommutes(FlattenMul(merged));
      ProductEval(merged, sc, at);
    case Sub(args) =>
      var lhs, rhs := SimplifyTerm(at.p, args[0]), SimplifySum(at.p, args[1..]);
      SimplifyEval(args[0], sc, at);
      SimplifySumEval(args[1..], sc, at);
      SimplifyShaped(args[0], sc);
      SimplifySumShaped(args[1..], sc);
      SimplifySubExact(lhs, rhs, sc, at);
      SameMod(at.p, SumOf(args[1..], at));
      SameSub(at.p, Eval(args[0], at), Eval(args[0], at), Eval(rhs, at), SumOf(args[1..], at));
  }

  lemma {:induction false} SimplifyAllEval(ts: seq<Term>, sc: Scope, at: Row)
    requires AllShaped(ts, sc) && at.Over(sc) && (forall t :: t in ts ==> FoldsExactly(at.p, t))
    ensures SumOf(SimplifyAll(at.p, ts), at) == SumOf(ts, at)
    ensures ProductOf(SimplifyAll(at.p, ts), at) == ProductOf(ts, at)
    decreases ts, 1
  {
    if ts != [] {
      SimplifyEval(ts[0], sc, at);
      SimplifyAllEval(ts[1..], sc, at);
      assert SimplifyAll(at.p, ts)[1..] == SimplifyAll(at.p, ts[1..]);
    }
  }

  lemma {:induction false} SimplifySumEval(ts: seq<Term>, sc: Scope, at: Row)
    requires AllShaped(ts, sc) && at.Over(sc) && (forall t :: t in ts ==> FoldsExactly(at.p, t))
    ensures Eval(SimplifySum(at.p, ts), at) == SumOf(ts, at) % at.p
    decreases ts, 2
  {
    var terms := SimplifyAll(at.p, ts);
    SimplifyAllEval(ts, sc, at);
    SimplifyAllShaped(ts, sc);
    MergedSum(terms, sc, at);
    SumEval(MergeConstants(FoldSum(at.p, terms, 0), terms), sc, at);
  }

  /**
   * Simplification does not preserve meaning in general: in 5 - (x + 1) - 2 the flattened subtrahend
   * holds two constants of which one is lost, leaving 4 - x in place of 2 - x.
   */
  lemma SimplifyLosesConstant(p: Prime, x: Term, at: Row)
    requires p > 5 && x.RegisterAccess? && at.p == p
    ensures var t := Sub([Constant(5), Add([x, Constant(1)]), Constant(2)]);
      && !FoldsExactly(p, t) && SimplifyTerm(p, t) == Sub([Constant(4), x])
      && Eval(t, at) == FSub(p, 2, Eval(x, at)) && Eval(SimplifyTerm(p, t), at) == FSub(p, 4, Eval(x, at))
      && Eval(SimplifyTerm(p, t), at) != Eval(t, at)
  {
    var inner := Add([x, Constant(1)]);
    var t := Sub([Constant(5), inner, Constant(2)]);
    SmallModulus(p, 4);
    SimplifiedSubtrahend(p, x);
    SimplifiesToItself(p, Constant(5));
    assert [Constant(5), inner, Constant(2)][1..] == [inner, Constant(2)];
    var xs := [x, Constant(1), Constant(2)];
    TwoConstants(x, xs);
    SmallModulus(p, 2);
    MergeRest(4, xs);
    assert ([Constant(5)] + xs)[1..] == xs;
    assert MergeConstants(4, [Constant(5)] + xs) == [Constant(4), x];
    LostValues(p, x, at);
  }

  lemma LostValues(p: Prime, x: Term, at: Row)
    requires p > 5 && at.p == p
    ensures Eval(Sub([Constant(5), Add([x, Constant(1)]), Constant(2)]), at) == FSub(p, 2, Eval(x, at))
    ensures Eval(Sub([Constant(4), x]), at) == FSub(p, 4, Eval(x, at)) != FSub(p, 2, Eval(x, at))
  {
    var v, inner := Eval(x, at), Add([x, Constant(1)]);
    TwoOperands(x, Constant(1), at);
    TwoOperands(inner, Constant(2), at);
    assert [Constant(5), inner, Constant(2)][1..] == [inner, Constant(2)] && [Constant(4), x][1..] == [x];
    SumOfSingle(x, at);
    DifferentRemainders(p, v);
  }

  lemma DifferentRemainders(p: Prime, v: int)
    requires p > 5
    ensures (5 - ((v + 1) % p + 2)) % p == (2 - v) % p && (4 - v) % p != (2 - v) % p
  {
    SameMod(p, v + 1);
    SameSub(p, 3, 3, (v + 1) % p, v + 1);
    SameIffDifferenceVanishes(p, 4 - v, 2 - v);
    SmallModulus(p, 2);
  }

  lemma TwoOperands(x: Term, y: Term, at: Row)
    ensures SumOf([x, y], at) == Eval(x, at) + Eval(y, at)
  {
    assert [x, y] == [x] + [y];
    SumOfConcat([x], [y], at);
    SumOfSingle(x, at);
    SumOfSingle(y, at);
  }

  lemma TwoConstants(x: Term, xs: seq<Term>)
    requires x.RegisterAccess? && xs == [x, Constant(1), Constant(2)]
    ensures FindConstant(xs) == Some(1) && ConstantSum(xs) == 3 && NonConstants(xs) == [x]
  {
    var ys, zs := xs[1..], xs[1..][1..];
    assert ys == [Constant(1), Constant(2)] && zs == [Constant(2)] && zs[1..] == [];
    assert ConstantSum(zs) == 2 && NonConstants(zs) == [];
    assert ConstantSum(ys) == 3 && NonConstants(ys) == [];
    assert FindConstant(ys) == Some(1);
  }

  lemma SimplifiedSubtrahend(p: Prime, x: Term)
    requires p > 5 && x.RegisterAccess?
    ensures SimplifySum(p, [Add([x, Constant(1)]), Constant(2)]) == Add([x, Constant(1), Constant(2)])
  {
    var inner := Add([x, Constant(1)]);
    assert SimplifyTerm(p, inner) == inner by {
      SimplifiesToItself(p, x);
      SimplifyTwo(p, x, Constant(1));
      FlattenTwo(x, Constant(1));
      RemoveZerosNone([x, Constant(1)]);
    }
    SimplifyTwo(p, inner, Constant(2));
    FlattenTwo(inner, Constant(2));
    assert [x, Constant(1)] + [Constant(2)] == [x, Constant(1), Constant(2)];
    RemoveZerosNone([x, Constant(1), Constant(2)]);
  }

  lemma SimplifiesToItself(p: Prime, t: Term)
    requires t.Constant? || t.RegisterAccess?
    ensures SimplifyTerm(p, t) == t
  {
  }

  // The operands of a simplified sum of two terms, the second of which is a constant.
  lemma SimplifyTwo(p: Prime, t: Term, c: Term)
    requires c.Constant? && IsElement(p, c.value) && !SimplifyTerm(p, t).Constant?
    ensures SimplifySum(p, [t, c]) == Sum([SimplifyTerm(p, t), c])
  {
    var s := SimplifyTerm(p, t);
    assert [t, c][1..] == [c] && [c][1..] == [] && [s, c][1..] == [c];
    assert SimplifyAll(p, [c]) == [c];
    assert SimplifyAll(p, [t, c]) == [s, c];
    SmallModulus(p, c.value);
    assert FoldSum(p, [c], 0) == c.value;
    assert FoldSum(p, [s, c], 0) == c.value;
    assert MergeFrom(c.value, [c], true) == [c];
    assert MergeConstants(c.value, [s, c]) == [s, c];
  }

  lemma FlattenTwo(t: Term, c: Term)
    requires c.Constant?
    ensures FlattenAdd([t, c]) == (if t.Add? then t.args else [t]) + [c]
  {
    assert [t, c][1..] == [c] && [c][1..] == [];
    assert FlattenAdd([c]) == [c];
  }

  lemma RemoveZerosNone(ts: seq<Term>)
    requires forall t :: t in ts ==> !IsZero(t)
    ensures RemoveZeros(ts) == ts
  {
  }

  // ---------------------------------------------------------------------------
  // The loops which carry this out
  // ---------------------------------------------------------------------------

  lemma {:induction false} MergeSnoc(constant: nat, ts: seq<Term>, i: nat, first: bool)
    requires i < |ts|
    ensures MergeFrom(constant, ts[..i + 1], first) == MergeFrom(constant, ts[..i], first) +
              (if !ts[i].Constant? then [ts[i]]
               else if first && !HasConstant(ts[..i]) then [Constant(constant)] else [])
  {
    if i == 0 {
      assert ts[..1][1..] == [] && ts[..0] == [];
    } else {
      assert ts[..i + 1][1..] == ts[1..][..i] && ts[..i][1..] == ts[1..][..i - 1];
      assert ts[..i] == [ts[0]] + ts[1..][..i - 1];
      MergeSnoc(constant, ts[1..], i - 1, if ts[0].Constant? then false else first);
    }
  }

  /** Merge constants by compacting a slice in place, returning the length of what remains. */
  method MergeConstantsInPlace(constant: nat, terms: array<Term>) returns (j: nat)
    modifies terms
    ensures j <= terms.Length
    ensures terms[..j] == MergeConstants(constant, old(terms[..]))
  {
    j := 0;
    var first := true;
    ghost var was := terms[..];
    for i := 0 to terms.Length
      invariant j <= i
      invariant first == !HasConstant(was[..i])
      invariant terms[i..] == was[i..]
      invariant terms[..j] == MergeConstants(constant, was[..i])
    {
      MergeSnoc(constant, was, i, true);
      assert was[..i + 1] == was[..i] + [was[i]] && terms[i] == terms[i..][0] == was[i];
      if terms[i].Constant? && first {
        terms[j] := Constant(constant);
        first := false;
        j := j + 1;
      } else if !terms[i].Constant? {
        terms[j] := terms[i];
        j := j + 1;
      }
    }
    assert was[..terms.Length] == was;
  }

  lemma {:induction false} FoldSnoc(p: Prime, ts: seq<Term>, i: nat, acc: nat)
    requires i < |ts|
    ensures FoldSum(p, ts[..i + 1], acc) == var f := FoldSum(p, ts[..i], acc);
              if ts[i].Constant? then FAdd(p, f, ts[i].value) else f
    ensures FoldProduct(p, ts[..i + 1], acc) == var f := FoldProduct(p, ts[..i], acc);
              if ts[i].Constant? then FMul(p, f, ts[i].value) else f
  {
    if i == 0 {
      assert ts[..1][1..] == [] && ts[..0] == [];
    } else {
      assert ts[..i + 1][1..] == ts[1..][..i] && ts[..i][1..] == ts[1..][..i - 1];
      if ts[0].Constant? {
        FoldSnoc(p, ts[1..], i - 1, FAdd(p, acc, ts[0].value));
        FoldSnoc(p, ts[1..], i - 1, FMul(p, acc, ts[0].value));
      } else {
        FoldSnoc(p, ts[1..], i - 1, acc);
      }
    }
  }

  lemma SimplifyAllAt(p: Prime, ts: seq<Term>, i: nat)
    requires i < |ts|
    ensures SimplifyAll(p, ts)[i] == SimplifyTerm(p, ts[i])
  {
    if i > 0 {
      SimplifyAllAt(p, ts[1..], i - 1);
    }
  }

  /** Simplify all operands of a sum (respectively product) and merge the constants which result. */
  method SimplifyTerms(p: Prime, terms: seq<Term>, sum: bool) returns (r: seq<Term>)
    ensures sum ==> r == MergeConstants(FoldSum(p, SimplifyAll(p, terms), 0), SimplifyAll(p, terms))
    ensures !sum ==> r == MergeConstants(FoldProduct(p, SimplifyAll(p, terms), 1), SimplifyAll(p, terms))
  {
    var acc := if sum then 0 else 1;
    var nterms := new Term[|terms|](_ => Constant(0));
    ghost var all := SimplifyAll(p, terms);
    for i := 0 to |terms|
      invariant nterms[..i] == all[..i]
      invariant acc == if sum then FoldSum(p, all[..i], 0) else FoldProduct(p, all[..i], 1)
    {
      SimplifyAllAt(p, terms, i);
      nterms[i] := SimplifyTerm(p, terms[i]);
      FoldSnoc(p, all, i, if sum then 0 else 1);
      if nterms[i].Constant? {
        acc := if sum then FAdd(p, acc, nterms[i].value) else FMul(p, acc, nterms[i].value);
      }
    }
    assert all[..|terms|] == all && nterms[..] == all;
    var j := MergeConstantsInPlace(acc, nterms);
    r := nterms[..j];
  }
}
