// What is known of a lowered term before it has been lowered: its outline, and how far it reaches.

/** Terms apart from which registers they read, on which nothing but their values depends. */
module Outlines {
  import opened Options
  import opened PrimeField
  import opened Intervals
  import opened Tables
  import opened Terms
  import opened Builders
  import opened Ranges
  import opened Simplify

  /** The register which stands for all those of a given width. */
  function Standin(width: Option<nat>): nat {
    if width.None? then 0 else width.value + 1
  }

  /** A term with each of its accesses redirected to a register which stands for all of the same width. */
  function Outline(t: Term): Term
    decreases t, 0
  {
    match t
    case Constant(_) => t
    case RegisterAccess(_, width, shift) => RegisterAccess(Standin(width), width, shift)
    case Add(args) => Add(OutlineAll(args))
    case Sub(args) => Sub(OutlineAll(args))
    case Mul(args) => Mul(OutlineAll(args))
  }

  function OutlineAll(ts: seq<Term>): (rs: seq<Term>)
    ensures |rs| == |ts| && forall i :: 0 <= i < |ts| ==> rs[i] == Outline(ts[i])
    decreases ts, 1
  {
    if ts == [] then [] else [Outline(ts[0])] + OutlineAll(ts[1..])
  }

  /** An outline has the bounds and the range of its term. */
  lemma {:induction false} OutlineBounds(t: Term)
    ensures BoundsOf(Outline(t)) == BoundsOf(t)
    decreases t, 0
  {
    if t.Add? || t.Sub? || t.Mul? {
      OutlineAllBounds(t.args);
    }
  }

  lemma {:induction false} OutlineAllBounds(ts: seq<Term>)
    ensures BoundsOfAll(OutlineAll(ts)) == BoundsOfAll(ts)
    decreases ts, 1
  {
    if ts != [] {
      OutlineBounds(ts[0]);
      OutlineAllBounds(ts[1..]);
    }
  }

  lemma {:induction false} OutlineRange(t: Term)
    ensures RangeOf(Outline(t)) == RangeOf(t)
    decreases t, 0
  {
    if (t.Add? || t.Sub? || t.Mul?) && t.args != [] {
      OutlineRange(t.args[0]);
      OutlineAllRange(RangeOf(t.args[0]), t.args[1..]);
    }
  }

  lemma {:induction false} OutlineAllRange(acc: Range, ts: seq<Term>)
    ensures SumRange(acc, OutlineAll(ts)) == SumRange(acc, ts)
    ensures DifferenceRange(acc, OutlineAll(ts)) == DifferenceRange(acc, ts)
    ensures ProductRange(acc, OutlineAll(ts)) == ProductRange(acc, ts)
    decreases ts, 1
  {
    if ts != [] {
      var r := RangeOf(ts[0]);
      OutlineRange(ts[0]);
      OutlineAllRange(acc.Plus(r), ts[1..]);
      OutlineAllRange(acc.Minus(r), ts[1..]);
      OutlineAllRange(acc.Times(r), ts[1..]);
    }
  }

  /** One register for each width below n, preceded by a native one. */
  function Standins(n: nat): seq<Register> {
    seq(n + 1, i => Register(if i <= 0 then None else Some(i - 1), 0, false))
  }

  predicate WidthsBelow(n: nat, regs: seq<Register>) {
    forall r :: r in regs && r.width.Some? ==> r.width.value < n
  }

  /** An outline is a term like any other, over registers which stand for all those of their width. */
  lemma {:induction false} OutlineShaped(t: Term, sc: Scope, n: nat)
    requires Shaped(t, sc) && WidthsBelow(n, sc.regs)
    ensures Shaped(Outline(t), sc.(regs := Standins(n)))
    decreases t, 0
  {
    if t.Add? || t.Sub? || t.Mul? {
      OutlineAllShaped(t.args, sc, n);
    } else if t.RegisterAccess? {
      assert sc.regs[t.register] in sc.regs;
    }
  }

  lemma {:induction false} OutlineAllShaped(ts: seq<Term>, sc: Scope, n: nat)
    requires AllShaped(ts, sc) && WidthsBelow(n, sc.regs)
    ensures AllShaped(OutlineAll(ts), sc.(regs := Standins(n)))
    decreases ts, 1
  {
    if ts != [] {
      OutlineShaped(ts[0], sc, n);
      OutlineAllShaped(ts[1..], sc, n);
    }
  }

  // Outlines of what is built are built from outlines.

  lemma OutlineConcat(xs: seq<Term>, ys: seq<Term>)
    ensures OutlineAll(xs + ys) == OutlineAll(xs) + OutlineAll(ys)
  {
  }

  lemma {:induction false} OutlineFlattened(ts: seq<Term>)
    ensures OutlineAll(FlattenAdd(ts)) == FlattenAdd(OutlineAll(ts))
    ensures OutlineAll(FlattenMul(ts)) == FlattenMul(OutlineAll(ts))
  {
    if ts != [] {
      OutlineFlattened(ts[1..]);
      assert OutlineAll(ts)[1..] == OutlineAll(ts[1..]);
      OutlineConcat(if ts[0].Add? then ts[0].args else [ts[0]], FlattenAdd(ts[1..]));
      OutlineConcat(if ts[0].Mul? then ts[0].args else [ts[0]], FlattenMul(ts[1..]));
      assert OutlineAll([ts[0]]) == [Outline(ts[0])];
    }
  }

  lemma {:induction false} OutlineStripped(ts: seq<Term>)
    ensures OutlineAll(RemoveZeros(ts)) == RemoveZeros(OutlineAll(ts))
    ensures OutlineAll(RemoveOnes(ts)) == RemoveOnes(OutlineAll(ts))
  {
    if ts != [] {
      OutlineStripped(ts[1..]);
      assert OutlineAll(ts)[1..] == OutlineAll(ts[1..]);
    }
  }

  lemma OutlineSum(ts: seq<Term>)
    ensures Outline(Sum(ts)) == Sum(OutlineAll(ts))
  {
    OutlineFlattened(ts);
    OutlineStripped(FlattenAdd(ts));
  }

  lemma OutlineZeros(ts: seq<Term>)
    ensures (exists t :: t in OutlineAll(ts) && IsZero(t)) <==> (exists t :: t in ts && IsZero(t))
  {
    var os := OutlineAll(ts);
    if t :| t in os && IsZero(t) {
      var i :| 0 <= i < |ts| && os[i] == t;
      assert ts[i] in ts && IsZero(ts[i]);
    }
    if t :| t in ts && IsZero(t) {
      var i :| 0 <= i < |ts| && ts[i] == t;
      assert os[i] in os;
    }
  }

  lemma OutlineProduct(ts: seq<Term>)
    ensures Outline(Product(ts)) == Product(OutlineAll(ts))
  {
    OutlineFlattened(ts);
    OutlineStripped(FlattenMul(ts));
    OutlineZeros(RemoveOnes(FlattenMul(ts)));
  }

  lemma OutlineSubtract(ts: seq<Term>)
    requires ts != []
    ensures Outline(Subtract(ts)) == Subtract(OutlineAll(ts))
  {
    OutlineStripped(ts[1..]);
    assert OutlineAll(ts)[1..] == OutlineAll(ts[1..]);
  }

  lemma {:induction false} OutlineShifted(t: Term, shift: int)
    ensures Outline(ApplyShift(t, shift)) == ApplyShift(Outline(t), shift)
    decreases t, 0
  {
    if t.Add? || t.Sub? || t.Mul? {
      OutlineAllShifted(t.args, shift);
    }
  }

  lemma {:induction false} OutlineAllShifted(ts: seq<Term>, shift: int)
    ensures OutlineAll(ApplyShiftAll(ts, shift)) == ApplyShiftAll(OutlineAll(ts), shift)
    decreases ts, 1
  {
    if ts != [] {
      OutlineShifted(ts[0], shift);
      OutlineAllShifted(ts[1..], shift);
      assert ApplyShiftAll(ts, shift)[1..] == ApplyShiftAll(ts[1..], shift);
    }
  }

  // So do outlines of what is simplified.

  lemma {:induction false} OutlineMerged(c: nat, ts: seq<Term>, first: bool)
    ensures OutlineAll(MergeFrom(c, ts, first)) == MergeFrom(c, OutlineAll(ts), first)
    ensures FindConstant(OutlineAll(ts)) == FindConstant(ts)
  {
    if ts != [] {
      OutlineMerged(c, ts[1..], if ts[0].Constant? then false else first);
      assert OutlineAll(ts)[1..] == OutlineAll(ts[1..]);
    }
  }

  lemma {:induction false} OutlineFolded(p: Prime, ts: seq<Term>, acc: nat)
    ensures FoldSum(p, OutlineAll(ts), acc) == FoldSum(p, ts, acc)
    ensures FoldProduct(p, OutlineAll(ts), acc) == FoldProduct(p, ts, acc)
  {
    if ts != [] {
      if ts[0].Constant? {
        OutlineFolded(p, ts[1..], FAdd(p, acc, ts[0].value));
        OutlineFolded(p, ts[1..], FMul(p, acc, ts[0].value));
      } else {
        OutlineFolded(p, ts[1..], acc);
      }
    }
  }

  lemma {:induction false} OutlineSimplified(p: Prime, t: Term)
    ensures Outline(SimplifyTerm(p, t)) == SimplifyTerm(p, Outline(t))
    decreases t, 0
  {
    match t
    case Constant(_) =>
    case RegisterAccess(_, _, _) =>
    case Add(args) => OutlineSimplifiedSum(p, args);
    case Mul(args) =>
      OutlineAllSimplified(p, args);
      OutlineMergedProduct(p, SimplifyAll(p, args));
    case Sub(args) =>
      if args != [] {
        OutlineSimplified(p, args[0]);
        OutlineSimplifiedSum(p, args[1..]);
        OutlineSimplifiedSub(p, SimplifyTerm(p, args[0]), SimplifySum(p, args[1..]));
      }
  }

  lemma OutlineMergedProduct(p: Prime, terms: seq<Term>)
    ensures var fs, os := FlattenMul(MergeConstants(FoldProduct(p, terms, 1), terms)),
                          FlattenMul(MergeConstants(FoldProduct(p, OutlineAll(terms), 1), OutlineAll(terms)));
            && ((exists f :: f in os && IsZero(f)) <==> (exists f :: f in fs && IsZero(f)))
            && Outline(MakeProduct(RemoveOnes(fs))) == MakeProduct(RemoveOnes(os))
  {
    OutlineFolded(p, terms, 1);
    var merged := MergeConstants(FoldProduct(p, terms, 1), terms);
    OutlineMerged(FoldProduct(p, terms, 1), terms, true);
    OutlineFlattened(merged);
    OutlineZeros(FlattenMul(merged));
    OutlineStripped(FlattenMul(merged));
  }

  lemma {:induction false} OutlineAllSimplified(p: Prime, ts: seq<Term>)
    ensures OutlineAll(SimplifyAll(p, ts)) == SimplifyAll(p, OutlineAll(ts))
    decreases ts, 1
  {
    if ts != [] {
      OutlineSimplified(p, ts[0]);
      OutlineAllSimplified(p, ts[1..]);
      assert SimplifyAll(p, ts)[1..] == SimplifyAll(p, ts[1..]);
    }
  }

  lemma {:induction false} OutlineSimplifiedSum(p: Prime, ts: seq<Term>)
    ensures Outline(SimplifySum(p, ts)) == SimplifySum(p, OutlineAll(ts))
    decreases ts, 2
  {
    var terms := SimplifyAll(p, ts);
    OutlineAllSimplified(p, ts);
    OutlineFolded(p, terms, 0);
    OutlineMerged(FoldSum(p, terms, 0), terms, true);
    OutlineSum(MergeConstants(FoldSum(p, terms, 0), terms));
  }

  lemma OutlineSimplifiedSub(p: Prime, lhs: Term, rhs: Term)
    ensures Outline(SimplifySub(p, lhs, rhs)) == SimplifySub(p, Outline(lhs), Outline(rhs))
  {
    hide Sum, FSub;
    if lhs.Constant? && rhs.Sub? && rhs.args != [] && rhs.args[0].Constant? {
      var sum := [Constant(FSub(p, lhs.value, rhs.args[0].value))] + rhs.args[1..];
      OutlineSum(sum);
      assert OutlineAll(sum) == [sum[0]] + OutlineAll(rhs.args)[1..];
    } else if rhs.Add? {
      var all := [lhs] + rhs.args;
      assert OutlineAll(all) == [Outline(lhs)] + OutlineAll(rhs.args);
      OutlineMerged(0, rhs.args, true);
      if lhs.Constant? && FindConstant(rhs.args).Some? {
        OutlineMerged(FSub(p, lhs.value, FindConstant(rhs.args).value), all, true);
      }
    } else {
      assert OutlineAll([lhs, rhs]) == [Outline(lhs), Outline(rhs)];
    }
  }
}

/** On how many rows a term is still defined once it has been simplified. */
module Reaches {
  import opened Congruence
  import opened PrimeField
  import opened Tables
  import opened Terms
  import opened Builders
  import opened Simplify
  import opened Outlines

  function Reach(p: Prime, t: Term): Bounds {
    BoundsOf(SimplifyTerm(p, t))
  }

  function ReachAll(p: Prime, ts: seq<Term>): Bounds {
    BoundsOfAll(SimplifyAll(p, ts))
  }

  /** Whether simplification recognises a term as zero, and so drops whatever it reads. */
  predicate Zero(p: Prime, t: Term) {
    IsZero(SimplifyTerm(p, t))
  }

  predicate AnyZero(p: Prime, ts: seq<Term>) {
    exists t :: t in ts && Zero(p, t)
  }

  lemma OutlineReach(p: Prime, t: Term)
    ensures Reach(p, Outline(t)) == Reach(p, t)
  {
    OutlineSimplified(p, t);
    OutlineBounds(SimplifyTerm(p, t));
  }

  lemma SimplifyAllConcat(p: Prime, xs: seq<Term>, ys: seq<Term>)
    ensures SimplifyAll(p, xs + ys) == SimplifyAll(p, xs) + SimplifyAll(p, ys)
  {
    if xs == [] {
      assert xs + ys == ys;
    } else {
      assert (xs + ys)[1..] == xs[1..] + ys;
      SimplifyAllConcat(p, xs[1..], ys);
    }
  }

  lemma ReachConcat(p: Prime, xs: seq<Term>, ys: seq<Term>)
    ensures ReachAll(p, xs + ys) == ReachAll(p, xs).Union(ReachAll(p, ys))
    ensures AnyZero(p, xs + ys) <==> AnyZero(p, xs) || AnyZero(p, ys)
  {
    SimplifyAllConcat(p, xs, ys);
    BoundsOfConcat(SimplifyAll(p, xs), SimplifyAll(p, ys));
  }

  lemma BoundsOfSingle(t: Term)
    ensures BoundsOfAll([t]) == BoundsOf(t)
  {
    assert [t][1..] == [];
  }

  lemma ReachSingle(p: Prime, t: Term)
    ensures ReachAll(p, [t]) == Reach(p, t)
    ensures AnyZero(p, [t]) <==> Zero(p, t)
  {
    assert [t][1..] == [] && t in [t];
    assert SimplifyAll(p, [t]) == [SimplifyTerm(p, t)];
    BoundsOfSingle(SimplifyTerm(p, t));
  }

  lemma {:induction false} ReachMember(p: Prime, ts: seq<Term>, t: Term)
    requires t in ts
    ensures Reach(p, t).AtMost(ReachAll(p, ts))
  {
    assert SimplifyAll(p, ts)[1..] == SimplifyAll(p, ts[1..]);
    if t != ts[0] {
      ReachMember(p, ts[1..], t);
    }
  }

  // ---------------------------------------------------------------------------
  // Sums and differences
  // ---------------------------------------------------------------------------

  lemma {:induction false} MergeBounds(c: nat, ts: seq<Term>, first: bool)
    ensures BoundsOfAll(MergeFrom(c, ts, first)) == BoundsOfAll(ts)
  {
    if ts != [] {
      MergeBounds(c, ts[1..], if ts[0].Constant? then false else first);
      var head := if !ts[0].Constant? then [ts[0]] else if first then [Constant(c)] else [];
      var rest := MergeFrom(c, ts[1..], if ts[0].Constant? then false else first);
      assert MergeFrom(c, ts, first) == head + rest;
      assert head != [] ==> head[1..] == [];
      BoundsOfConcat(head, rest);
    }
  }

  lemma SimplifySumBounds(p: Prime, ts: seq<Term>)
    ensures BoundsOf(SimplifySum(p, ts)) == ReachAll(p, ts)
  {
    var terms := SimplifyAll(p, ts);
    MergeBounds(FoldSum(p, terms, 0), terms, true);
    SumBounds(MergeConstants(FoldSum(p, terms, 0), terms));
  }

  lemma {:induction false} FlattenAddReach(p: Prime, ts: seq<Term>)
    ensures ReachAll(p, FlattenAdd(ts)) == ReachAll(p, ts)
  {
    if ts != [] {
      var head := if ts[0].Add? then ts[0].args else [ts[0]];
      FlattenAddReach(p, ts[1..]);
      ReachConcat(p, head, FlattenAdd(ts[1..]));
      ReachConcat(p, [ts[0]], ts[1..]);
      assert [ts[0]] + ts[1..] == ts;
      ReachSingle(p, ts[0]);
      if ts[0].Add? {
        SimplifySumBounds(p, ts[0].args);
      }
    }
  }

  lemma {:induction false} RemoveZerosReach(p: Prime, ts: seq<Term>)
    ensures ReachAll(p, RemoveZeros(ts)) == ReachAll(p, ts)
  {
    if ts != [] {
      RemoveZerosReach(p, ts[1..]);
      ReachConcat(p, if IsZero(ts[0]) then [] else [ts[0]], RemoveZeros(ts[1..]));
      ReachConcat(p, [ts[0]], ts[1..]);
      assert [ts[0]] + ts[1..] == ts;
      ReachSingle(p, ts[0]);
    }
  }

  /** A sum reaches as far as any of its terms. */
  lemma SumReach(p: Prime, ts: seq<Term>)
    ensures Reach(p, Sum(ts)) == ReachAll(p, ts)
  {
    var fs := RemoveZeros(FlattenAdd(ts));
    FlattenAddReach(p, ts);
    RemoveZerosReach(p, FlattenAdd(ts));
    if |fs| == 1 {
      assert fs == [fs[0]];
      ReachSingle(p, fs[0]);
    } else if |fs| > 1 {
      SimplifySumBounds(p, fs);
    }
  }

  lemma PairBounds(l: Term, r: Term)
    ensures BoundsOfAll([l, r]) == BoundsOf(l).Union(BoundsOf(r))
  {
    assert [l, r][1..] == [r];
    BoundsOfSingle(r);
  }

  lemma TailBounds(ts: seq<Term>)
    requires ts != [] && ts[0].Constant?
    ensures BoundsOfAll(ts) == BoundsOfAll(ts[1..])
  {
    assert BoundsOf(ts[0]) == EMPTY_BOUND;
  }

  lemma NestedBounds(c: nat, rest: seq<Term>)
    ensures BoundsOf(Sum([Constant(c)] + rest)) == BoundsOfAll(rest)
  {
    SumBounds([Constant(c)] + rest);
    TailBounds([Constant(c)] + rest);
    assert ([Constant(c)] + rest)[1..] == rest;
  }

  lemma PrependBounds(c: nat, lhs: Term, ts: seq<Term>)
    ensures BoundsOf(Sub([lhs] + ts)) == BoundsOf(lhs).Union(BoundsOfAll(ts))
    ensures BoundsOf(Sub(MergeConstants(c, [lhs] + ts))) == BoundsOf(lhs).Union(BoundsOfAll(ts))
  {
    assert ([lhs] + ts)[1..] == ts;
    MergeBounds(c, [lhs] + ts, true);
  }

  lemma SimplifySubBounds(p: Prime, lhs: Term, rhs: Term)
    ensures BoundsOf(SimplifySub(p, lhs, rhs)) == BoundsOf(lhs).Union(BoundsOf(rhs))
  {
    PairBounds(lhs, rhs);
    if lhs.Constant? && rhs.Sub? && rhs.args != [] && rhs.args[0].Constant? {
      NestedBounds(FSub(p, lhs.value, rhs.args[0].value), rhs.args[1..]);
      TailBounds(rhs.args);
    } else if rhs.Add? {
      var first := FindConstant(rhs.args);
      PrependBounds(if lhs.Constant? && first.Some? then FSub(p, lhs.value, first.value) else 0, lhs, rhs.args);
    }
    hide Sum, FSub, MergeConstants, BoundsOfAll;
  }

  /** A difference reaches as far as either side. */
  lemma SubtractReach(p: Prime, l: Term, r: Term)
    ensures Reach(p, Subtract([l, r])) == Reach(p, l).Union(Reach(p, r))
  {
    assert [l, r][1..] == [r];
    if IsZero(r) {
      assert [r][1..] == [] && RemoveZeros([r]) == [];
    } else {
      SubtractTwo(l, r);
      SimplifySubBounds(p, SimplifyTerm(p, l), SimplifySum(p, [r]));
      SimplifySumBounds(p, [r]);
      ReachSingle(p, r);
    }
  }

  // ---------------------------------------------------------------------------
  // Products
  // ---------------------------------------------------------------------------

  /** Whether no product within a term has the factor 0. */
  predicate NoZeroFactors(t: Term) {
    match t
    case Constant(_) => true
    case RegisterAccess(_, _, _) => true
    case Add(args) => forall a :: a in args ==> NoZeroFactors(a)
    case Sub(args) => forall a :: a in args ==> NoZeroFactors(a)
    case Mul(args) => forall a :: a in args ==> NoZeroFactors(a) && !IsZero(a)
  }

  predicate AllNoZeroFactors(ts: seq<Term>) {
    forall t :: t in ts ==> NoZeroFactors(t)
  }

  lemma {:induction false} MergeFactors(c: nat, ts: seq<Term>, first: bool)
    requires AllNoZeroFactors(ts)
    ensures AllNoZeroFactors(MergeFrom(c, ts, first))
  {
    if ts != [] {
      assert NoZeroFactors(ts[0]);
      MergeFactors(c, ts[1..], if ts[0].Constant? then false else first);
    }
  }

  lemma {:induction false} FlattenFactors(ts: seq<Term>)
    requires AllNoZeroFactors(ts)
    ensures AllNoZeroFactors(FlattenAdd(ts)) && AllNoZeroFactors(FlattenMul(ts))
    ensures (forall t :: t in ts ==> !IsZero(t)) ==> forall t :: t in FlattenMul(ts) ==> !IsZero(t)
  {
    if ts != [] {
      assert NoZeroFactors(ts[0]);
      FlattenFactors(ts[1..]);
      assert ts == [ts[0]] + ts[1..];
    }
  }

  lemma {:induction false} StripFactors(ts: seq<Term>)
    ensures forall t :: t in RemoveZeros(ts) ==> t in ts
    ensures forall t :: t in RemoveOnes(ts) ==> t in ts
  {
    if ts != [] {
      StripFactors(ts[1..]);
    }
  }

  lemma SumFactors(ts: seq<Term>)
    requires AllNoZeroFactors(ts)
    ensures NoZeroFactors(Sum(ts))
  {
    FlattenFactors(ts);
    StripFactors(FlattenAdd(ts));
  }

  /** What has been simplified has no zero factors left. */
  lemma {:induction false} SimplifiedFactors(p: Prime, t: Term)
    ensures NoZeroFactors(SimplifyTerm(p, t))
    decreases t, 0
  {
    match t
    case Constant(_) =>
    case RegisterAccess(_, _, _) =>
    case Add(args) => SimplifiedSumFactors(p, args);
    case Mul(args) =>
      var terms := SimplifyAll(p, args);
      SimplifiedAllFactors(p, args);
      MergeFactors(FoldProduct(p, terms, 1), terms, true);
      FlattenFactors(MergeConstants(FoldProduct(p, terms, 1), terms));
      StripFactors(FlattenMul(MergeConstants(FoldProduct(p, terms, 1), terms)));
    case Sub(args) =>
      if args != [] {
        SimplifiedFactors(p, args[0]);
        SimplifiedSumFactors(p, args[1..]);
        SimplifiedSubFactors(p, SimplifyTerm(p, args[0]), SimplifySum(p, args[1..]));
      }
  }

  lemma {:induction false} SimplifiedAllFactors(p: Prime, ts: seq<Term>)
    ensures AllNoZeroFactors(SimplifyAll(p, ts))
    decreases ts, 1
  {
    if ts != [] {
      SimplifiedFactors(p, ts[0]);
      SimplifiedAllFactors(p, ts[1..]);
    }
  }

  lemma {:induction false} SimplifiedSumFactors(p: Prime, ts: seq<Term>)
    ensures NoZeroFactors(SimplifySum(p, ts))
    decreases ts, 2
  {
    var terms := SimplifyAll(p, ts);
    SimplifiedAllFactors(p, ts);
    MergeFactors(FoldSum(p, terms, 0), terms, true);
    SumFactors(MergeConstants(FoldSum(p, terms, 0), terms));
  }

  lemma SimplifiedSubFactors(p: Prime, lhs: Term, rhs: Term)
    requires NoZeroFactors(lhs) && NoZeroFactors(rhs)
    ensures NoZeroFactors(SimplifySub(p, lhs, rhs))
  {
    hide Sum, FSub;
    if lhs.Constant? && rhs.Sub? && rhs.args != [] && rhs.args[0].Constant? {
      SumFactors([Constant(FSub(p, lhs.value, rhs.args[0].value))] + rhs.args[1..]);
    } else if rhs.Add? && lhs.Constant? && FindConstant(rhs.args).Some? {
      MergeFactors(FSub(p, lhs.value, FindConstant(rhs.args).value), [lhs] + rhs.args, true);
    }
  }

  predicate HasZero(ts: seq<Term>) {
    exists t :: t in ts && IsZero(t)
  }

  lemma HasZeroConcat(xs: seq<Term>, ys: seq<Term>)
    ensures HasZero(xs + ys) <==> HasZero(xs) || HasZero(ys)
    ensures HasConstant(xs + ys) <==> HasConstant(xs) || HasConstant(ys)
  {
    assert forall t :: t in xs + ys <==> t in xs || t in ys;
  }

  lemma SingleZero(t: Term)
    ensures HasZero([t]) <==> IsZero(t)
    ensures HasConstant([t]) <==> t.Constant?
  {
    assert t in [t];
  }

  // Constants other than 0 do not multiply to 0.
  lemma {:induction false} ConstantFactors(p: Prime, ts: seq<Term>)
    requires forall t :: t in ts && t.Constant? ==> IsElement(p, t.value)
    ensures ConstantProduct(ts) % p == 0 <==> HasZero(ts)
  {
    if ts == [] {
      SmallModulus(p, 1);
    } else {
      ConstantFactors(p, ts[1..]);
      assert ts == [ts[0]] + ts[1..];
      HasZeroConcat([ts[0]], ts[1..]);
      SingleZero(ts[0]);
      var v := if ts[0].Constant? then ts[0].value else 1;
      assert ConstantProduct(ts) == v * ConstantProduct(ts[1..]);
      SmallModulus(p, v);
      NoZeroDivisors(p, v, ConstantProduct(ts[1..]));
    }
  }

  lemma {:induction false} MergedZero(c: nat, ts: seq<Term>, first: bool)
    ensures HasZero(MergeFrom(c, ts, first)) <==> c == 0 && first && HasConstant(ts)
  {
    if ts != [] {
      var rest := MergeFrom(c, ts[1..], if ts[0].Constant? then false else first);
      MergedZero(c, ts[1..], if ts[0].Constant? then false else first);
      assert ts == [ts[0]] + ts[1..];
      HasZeroConcat([ts[0]], ts[1..]);
      SingleZero(ts[0]);
      SingleZero(Constant(c));
      HasZeroConcat(if !ts[0].Constant? then [ts[0]] else if first then [Constant(c)] else [], rest);
    }
  }

  lemma {:induction false} FlattenMulZero(ts: seq<Term>)
    requires HasZero(ts)
    ensures HasZero(FlattenMul(ts))
  {
    assert ts == [ts[0]] + ts[1..];
    HasZeroConcat([ts[0]], ts[1..]);
    SingleZero(ts[0]);
    HasZeroConcat(if ts[0].Mul? then ts[0].args else [ts[0]], FlattenMul(ts[1..]));
    if !IsZero(ts[0]) {
      FlattenMulZero(ts[1..]);
    }
  }

  lemma {:induction false} FlattenMulBounds(ts: seq<Term>)
    ensures BoundsOfAll(FlattenMul(ts)) == BoundsOfAll(ts)
  {
    if ts != [] {
      FlattenMulBounds(ts[1..]);
      assert [ts[0]][1..] == [];
      BoundsOfConcat(if ts[0].Mul? then ts[0].args else [ts[0]], FlattenMul(ts[1..]));
    }
  }

  lemma {:induction false} RemoveOnesBounds(ts: seq<Term>)
    ensures BoundsOfAll(RemoveOnes(ts)) == BoundsOfAll(ts)
  {
    if ts != [] {
      RemoveOnesBounds(ts[1..]);
      assert [ts[0]][1..] == [];
      BoundsOfConcat(if IsOne(ts[0]) then [] else [ts[0]], RemoveOnes(ts[1..]));
    }
  }

  lemma MakeProductBounds(ts: seq<Term>)
    ensures BoundsOf(MakeProduct(ts)) == BoundsOfAll(ts)
    ensures (forall t :: t in ts ==> !IsZero(t)) ==> !IsZero(MakeProduct(ts))
  {
    if |ts| == 1 {
      assert ts[1..] == [];
      assert ts[0] in ts;
    }
  }

  lemma SimplifyAllMembers(p: Prime, ts: seq<Term>)
    ensures AnyZero(p, ts) <==> HasZero(SimplifyAll(p, ts))
  {
    if t :| t in ts && Zero(p, t) {
      var i :| 0 <= i < |ts| && ts[i] == t;
      SimplifyAllAt(p, ts, i);
      assert SimplifyAll(p, ts)[i] in SimplifyAll(p, ts);
    }
    if s :| s in SimplifyAll(p, ts) && IsZero(s) {
      var i :| 0 <= i < |ts| && SimplifyAll(p, ts)[i] == s;
      SimplifyAllAt(p, ts, i);
      assert ts[i] in ts;
    }
  }

  /** A product simplifies to zero only if a factor does, and otherwise reaches as far as any factor. */
  lemma MulReach(ts: seq<Term>, sc: Scope)
    requires AllShaped(ts, sc)
    ensures Zero(sc.p, Mul(ts)) <==> AnyZero(sc.p, ts)
    ensures !AnyZero(sc.p, ts) ==> Reach(sc.p, Mul(ts)) == ReachAll(sc.p, ts)
  {
    hide NoZeroFactors, FlattenMul, RemoveOnes, MergeFrom, FoldProduct;
    var p, terms := sc.p, SimplifyAll(sc.p, ts);
    var acc := FoldProduct(p, terms, 1);
    var merged := MergeConstants(acc, terms);
    var fs := FlattenMul(merged);
    SimplifyAllMembers(p, ts);
    SimplifyAllShaped(ts, sc);
    assert forall t :: t in terms && t.Constant? ==> Shaped(t, sc);
    ConstantFactors(p, terms);
    FoldProductIsProduct(p, terms, 1);
    assert acc == 0 <==> AnyZero(p, ts) by { SmallModulus(p, acc); }
    MergedZero(acc, terms, true);
    assert AnyZero(p, ts) <==> HasZero(merged);
    if AnyZero(p, ts) {
      FlattenMulZero(merged);
    } else {
      SimplifiedAllFactors(p, ts);
      MergeFactors(acc, terms, true);
      FlattenFactors(merged);
      StripFactors(fs);
      MergeBounds(acc, terms, true);
      FlattenMulBounds(merged);
      RemoveOnesBounds(fs);
      MakeProductBounds(RemoveOnes(fs));
    }
  }

  lemma {:induction false} FlattenMulReach(ts: seq<Term>, sc: Scope)
    requires AllShaped(ts, sc)
    ensures AnyZero(sc.p, FlattenMul(ts)) <==> AnyZero(sc.p, ts)
    ensures !AnyZero(sc.p, ts) ==> ReachAll(sc.p, FlattenMul(ts)) == ReachAll(sc.p, ts)
  {
    if ts != [] {
      var p := sc.p;
      assert Shaped(ts[0], sc);
      var head := if ts[0].Mul? then ts[0].args else [ts[0]];
      FlattenMulReach(ts[1..], sc);
      ReachConcat(p, head, FlattenMul(ts[1..]));
      ReachConcat(p, [ts[0]], ts[1..]);
      assert [ts[0]] + ts[1..] == ts;
      ReachSingle(p, ts[0]);
      if ts[0].Mul? {
        MulReach(ts[0].args, sc);
      }
    }
  }

  lemma {:induction false} RemoveOnesReach(p: Prime, ts: seq<Term>)
    ensures ReachAll(p, RemoveOnes(ts)) == ReachAll(p, ts)
    ensures AnyZero(p, RemoveOnes(ts)) <==> AnyZero(p, ts)
  {
    if ts != [] {
      RemoveOnesReach(p, ts[1..]);
      ReachConcat(p, if IsOne(ts[0]) then [] else [ts[0]], RemoveOnes(ts[1..]));
      ReachConcat(p, [ts[0]], ts[1..]);
      assert [ts[0]] + ts[1..] == ts;
      ReachSingle(p, ts[0]);
    }
  }

  /** The same for products as they are built, with nested ones flattened and ones left out. */
  lemma ProductReach(ts: seq<Term>, sc: Scope)
    requires AllShaped(ts, sc)
    ensures Zero(sc.p, Product(ts)) <==> AnyZero(sc.p, ts)
    ensures !AnyZero(sc.p, ts) ==> Reach(sc.p, Product(ts)) == ReachAll(sc.p, ts)
  {
    var p, fs := sc.p, RemoveOnes(FlattenMul(ts));
    FlattenMulShaped(ts, sc);
    RemoveOnesShaped(FlattenMul(ts), sc);
    FlattenMulReach(ts, sc);
    RemoveOnesReach(p, FlattenMul(ts));
    if t :| t in fs && IsZero(t) {
      assert Zero(p, t);
    } else if |fs| == 1 {
      assert fs == [fs[0]];
      ReachSingle(p, fs[0]);
    } else if |fs| > 1 {
      MulReach(fs, sc);
    }
  }

  // ---------------------------------------------------------------------------
  // Shifted products
  // ---------------------------------------------------------------------------

  lemma ShiftConcat(xs: seq<Term>, ys: seq<Term>, shift: int)
    ensures ApplyShiftAll(xs + ys, shift) == ApplyShiftAll(xs, shift) + ApplyShiftAll(ys, shift)
  {
    if xs == [] {
      assert xs + ys == ys;
    } else {
      assert (xs + ys)[1..] == xs[1..] + ys;
      ShiftConcat(xs[1..], ys, shift);
    }
  }

  lemma {:induction false} ShiftFlattened(ts: seq<Term>, shift: int)
    ensures ApplyShiftAll(FlattenMul(ts), shift) == FlattenMul(ApplyShiftAll(ts, shift))
  {
    if ts != [] {
      ShiftFlattened(ts[1..], shift);
      ShiftConcat(if ts[0].Mul? then ts[0].args else [ts[0]], FlattenMul(ts[1..]), shift);
      assert ApplyShiftAll(ts, shift)[1..] == ApplyShiftAll(ts[1..], shift);
      assert [ts[0]][1..] == [] && ApplyShiftAll([ts[0]], shift) == [ApplyShift(ts[0], shift)];
    }
  }

  lemma {:induction false} ShiftStripped(ts: seq<Term>, shift: int)
    ensures ApplyShiftAll(RemoveOnes(ts), shift) == RemoveOnes(ApplyShiftAll(ts, shift))
    ensures HasZero(ApplyShiftAll(ts, shift)) <==> HasZero(ts)
  {
    if ts != [] {
      ShiftStripped(ts[1..], shift);
      ShiftConcat(if IsOne(ts[0]) then [] else [ts[0]], RemoveOnes(ts[1..]), shift);
      assert ApplyShiftAll(ts, shift)[1..] == ApplyShiftAll(ts[1..], shift);
      assert [ts[0]][1..] == [] && ApplyShiftAll([ts[0]], shift) == [ApplyShift(ts[0], shift)];
      assert ts == [ts[0]] + ts[1..];
      SingleZero(ts[0]);
      SingleZero(ApplyShift(ts[0], shift));
      HasZeroConcat([ts[0]], ts[1..]);
      HasZeroConcat([ApplyShift(ts[0], shift)], ApplyShiftAll(ts[1..], shift));
    }
  }

  lemma ShiftProduct(ts: seq<Term>, shift: int)
    ensures ApplyShift(Product(ts), shift) == Product(ApplyShiftAll(ts, shift))
  {
    hide FlattenMul, RemoveOnes;
    var fs := RemoveOnes(FlattenMul(ts));
    ShiftFlattened(ts, shift);
    ShiftStripped(FlattenMul(ts), shift);
    ShiftStripped(fs, shift);
    if |fs| == 1 {
      assert fs == [fs[0]] && fs[1..] == [];
    }
  }

  /** Unless its other factor vanishes, a product with an access reaches as far as that access. */
  lemma AccessReach(e: Term, access: Term, sc: Scope)
    requires Shaped(e, sc) && Shaped(access, sc) && access.RegisterAccess?
    ensures Zero(sc.p, Product([e, access])) <==> Zero(sc.p, e)
    ensures !Zero(sc.p, e) ==> BoundsOf(access).AtMost(Reach(sc.p, Product([e, access])))
    ensures !Zero(sc.p, e) ==> Reach(sc.p, e).AtMost(Reach(sc.p, Product([e, access])))
  {
    ProductReach([e, access], sc);
    ReachConcat(sc.p, [e], [access]);
    assert [e, access] == [e] + [access];
    ReachSingle(sc.p, e);
    ReachSingle(sc.p, access);
  }
}
