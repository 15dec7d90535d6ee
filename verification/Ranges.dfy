// Range analysis of terms: which integers a term can evaluate to before reduction modulo p.
module Ranges {
  import opened Options
  import opened Congruence
  import opened Intervals
  import opened Tables
  import opened Terms

  /** The integer a term denotes when nothing is ever reduced modulo p. */
  function IntEval(t: Term, at: Row): int
    decreases t, 0
  {
    match t
    case Constant(v) => v
    case RegisterAccess(_, _, _) => Eval(t, at)
    case Add(args) => IntSum(args, at)
    case Sub(args) => if args == [] then 0 else IntEval(args[0], at) - IntSum(args[1..], at)
    case Mul(args) => IntProduct(args, at)
  }

  function IntSum(ts: seq<Term>, at: Row): int
    decreases ts, 1
  {
    if ts == [] then 0 else IntEval(ts[0], at) + IntSum(ts[1..], at)
  }

  function IntProduct(ts: seq<Term>, at: Row): int
    decreases ts, 1
  {
    if ts == [] then 1 else IntEval(ts[0], at) * IntProduct(ts[1..], at)
  }

  /** Field evaluation is integer evaluation modulo p. */
  lemma {:induction false} EvalIsIntEval(t: Term, sc: Scope, at: Row)
    requires Shaped(t, sc) && at.Over(sc)
    ensures Eval(t, at) == IntEval(t, at) % at.p
    decreases t, 0
  {
    EvalIsElement(t, sc, at);
    SmallModulus(at.p, Eval(t, at));
    match t
    case Constant(_) =>
    case RegisterAccess(_, _, _) =>
    case Add(args) => SumIsIntSum(args, sc, at);
    case Mul(args) => ProductIsIntProduct(args, sc, at);
    case Sub(args) =>
      EvalIsIntEval(args[0], sc, at);
      SumIsIntSum(args[1..], sc, at);
      SameMod(at.p, IntEval(args[0], at));
      SameSub(at.p, Eval(args[0], at), IntEval(args[0], at), SumOf(args[1..], at), IntSum(args[1..], at));
  }

  lemma {:induction false} SumIsIntSum(ts: seq<Term>, sc: Scope, at: Row)
    requires AllShaped(ts, sc) && at.Over(sc)
    ensures Same(at.p, SumOf(ts, at), IntSum(ts, at))
    decreases ts, 1
  {
    if ts != [] {
      EvalIsIntEval(ts[0], sc, at);
      SumIsIntSum(ts[1..], sc, at);
      SameMod(at.p, IntEval(ts[0], at));
      SameAdd(at.p, Eval(ts[0], at), IntEval(ts[0], at), SumOf(ts[1..], at), IntSum(ts[1..], at));
    }
  }

  lemma {:induction false} ProductIsIntProduct(ts: seq<Term>, sc: Scope, at: Row)
    requires AllShaped(ts, sc) && at.Over(sc)
    ensures Same(at.p, ProductOf(ts, at), IntProduct(ts, at))
    decreases ts, 1
  {
    if ts != [] {
      EvalIsIntEval(ts[0], sc, at);
      ProductIsIntProduct(ts[1..], sc, at);
      SameMod(at.p, IntEval(ts[0], at));
      SameMul(at.p, Eval(ts[0], at), IntEval(ts[0], at), ProductOf(ts[1..], at), IntProduct(ts[1..], at));
    }
  }

  // ---------------------------------------------------------------------------
  // Ranges
  // ---------------------------------------------------------------------------

  function RangeOfBits(width: Option<nat>): Range {
    match width
    case None => EVERYTHING
    case Some(w) => Range(Finite(0), Finite(Pow2(w) - 1))
  }

  /** The range of values a term can take, given the declared widths of what it accesses. */
  function RangeOf(t: Term): Range
    decreases t, 0
  {
    match t
    case Constant(v) => Exactly(v)
    case RegisterAccess(_, width, _) => RangeOfBits(width)
    case Add(args) => if args == [] then Exactly(0) else SumRange(RangeOf(args[0]), args[1..])
    case Sub(args) => if args == [] then Exactly(0) else DifferenceRange(RangeOf(args[0]), args[1..])
    case Mul(args) => if args == [] then Exactly(0) else ProductRange(RangeOf(args[0]), args[1..])
  }

  function SumRange(acc: Range, ts: seq<Term>): Range
    decreases ts, 1
  {
    if ts == [] then acc else SumRange(acc.Plus(RangeOf(ts[0])), ts[1..])
  }

  function DifferenceRange(acc: Range, ts: seq<Term>): Range
    decreases ts, 1
  {
    if ts == [] then acc else DifferenceRange(acc.Minus(RangeOf(ts[0])), ts[1..])
  }

  function ProductRange(acc: Range, ts: seq<Term>): Range
    decreases ts, 1
  {
    if ts == [] then acc else ProductRange(acc.Times(RangeOf(ts[0])), ts[1..])
  }

  /**
   * What range analysis yields: a constant is in a range of its own, an access in that of its declared
   * width, and each further operand has its range worked in.
   */
  lemma RangeOfOperators(ts: seq<Term>, t: Term, v: nat, r: nat, shift: int, width: nat, x: int)
    ensures RangeOf(Constant(v)).Contains(x) <==> x == v
    ensures RangeOf(RegisterAccess(r, Some(width), shift)).Contains(x) <==> 0 <= x < Pow2(width)
    ensures RangeOf(RegisterAccess(r, None, shift)).Contains(x)
    ensures RangeOf(Add([t])) == RangeOf(Sub([t])) == RangeOf(Mul([t])) == RangeOf(t)
    ensures ts != [] ==>
      && RangeOf(Add(ts + [t])) == RangeOf(Add(ts)).Plus(RangeOf(t))
      && RangeOf(Sub(ts + [t])) == RangeOf(Sub(ts)).Minus(RangeOf(t))
      && RangeOf(Mul(ts + [t])) == RangeOf(Mul(ts)).Times(RangeOf(t))
  {
    if ts != [] {
      assert (ts + [t])[1..] == ts[1..] + [t];
      RangesSnoc(RangeOf(ts[0]), ts[1..], t);
    }
  }

  lemma {:induction false} RangesSnoc(acc: Range, ts: seq<Term>, t: Term)
    ensures SumRange(acc, ts + [t]) == SumRange(acc, ts).Plus(RangeOf(t))
    ensures DifferenceRange(acc, ts + [t]) == DifferenceRange(acc, ts).Minus(RangeOf(t))
    ensures ProductRange(acc, ts + [t]) == ProductRange(acc, ts).Times(RangeOf(t))
    decreases ts
  {
    if ts == [] {
      assert [] + [t] == [t] && [t][1..] == [];
    } else {
      assert (ts + [t])[1..] == ts[1..] + [t];
      RangesSnoc(acc.Plus(RangeOf(ts[0])), ts[1..], t);
      RangesSnoc(acc.Minus(RangeOf(ts[0])), ts[1..], t);
      RangesSnoc(acc.Times(RangeOf(ts[0])), ts[1..], t);
    }
  }

  /** Range analysis is sound: every term evaluates to an integer within its range. */
  lemma {:induction false} RangeSound(t: Term, sc: Scope, at: Row)
    requires Shaped(t, sc) && at.Over(sc)
    ensures RangeOf(t).Proper() && RangeOf(t).Contains(IntEval(t, at))
    decreases t, 0
  {
    match t
    case Constant(_) =>
    case RegisterAccess(r, _, shift) => at.tb.ReadInWidth(at.p, r, at.k + shift);
    case Add(args) =>
      RangeSound(args[0], sc, at);
      SumRangeSound(RangeOf(args[0]), IntEval(args[0], at), args[1..], sc, at);
    case Sub(args) =>
      RangeSound(args[0], sc, at);
      DifferenceRangeSound(RangeOf(args[0]), IntEval(args[0], at), args[1..], sc, at);
    case Mul(args) =>
      RangeSound(args[0], sc, at);
      ProductRangeSound(RangeOf(args[0]), IntEval(args[0], at), args[1..], sc, at);
  }

  lemma {:induction false} SumRangeSound(acc: Range, v: int, ts: seq<Term>, sc: Scope, at: Row)
    requires AllShaped(ts, sc) && at.Over(sc) && acc.Proper() && acc.Contains(v)
    ensures SumRange(acc, ts).Proper() && SumRange(acc, ts).Contains(v + IntSum(ts, at))
    decreases ts, 1
  {
    if ts != [] {
      RangeSound(ts[0], sc, at);
      PlusSound(acc, RangeOf(ts[0]), v, IntEval(ts[0], at));
      SumRangeSound(acc.Plus(RangeOf(ts[0])), v + IntEval(ts[0], at), ts[1..], sc, at);
    }
  }

  lemma {:induction false} DifferenceRangeSound(acc: Range, v: int, ts: seq<Term>, sc: Scope, at: Row)
    requires AllShaped(ts, sc) && at.Over(sc) && acc.Proper() && acc.Contains(v)
    ensures DifferenceRange(acc, ts).Proper() && DifferenceRange(acc, ts).Contains(v - IntSum(ts, at))
    decreases ts, 1
  {
    if ts != [] {
      RangeSound(ts[0], sc, at);
      MinusSound(acc, RangeOf(ts[0]), v, IntEval(ts[0], at));
      DifferenceRangeSound(acc.Minus(RangeOf(ts[0])), v - IntEval(ts[0], at), ts[1..], sc, at);
    }
  }

  lemma {:induction false} ProductRangeSound(acc: Range, v: int, ts: seq<Term>, sc: Scope, at: Row)
    requires AllShaped(ts, sc) && at.Over(sc) && acc.Proper() && acc.Contains(v)
    ensures ProductRange(acc, ts).Proper() && ProductRange(acc, ts).Contains(v * IntProduct(ts, at))
    decreases ts, 1
  {
    if ts != [] {
      RangeSound(ts[0], sc, at);
      TimesSound(acc, RangeOf(ts[0]), v, IntEval(ts[0], at));
      ProductRangeSound(acc.Times(RangeOf(ts[0])), v * IntEval(ts[0], at), ts[1..], sc, at);
      MulAssociates(v, IntEval(ts[0], at), IntProduct(ts[1..], at));
    }
  }

  /** Whatever the registers hold, analysis ends in a finite interval or in all integers. */
  lemma {:induction false} RangeIsProper(t: Term, sc: Scope)
    requires Shaped(t, sc)
    ensures RangeOf(t).Proper()
    decreases t, 0
  {
    match t
    case Constant(_) =>
    case RegisterAccess(_, _, _) =>
    case Add(args) =>
      RangeIsProper(args[0], sc);
      RangesAreProper(args[1..], RangeOf(args[0]), sc);
    case Sub(args) =>
      RangeIsProper(args[0], sc);
      RangesAreProper(args[1..], RangeOf(args[0]), sc);
    case Mul(args) =>
      RangeIsProper(args[0], sc);
      RangesAreProper(args[1..], RangeOf(args[0]), sc);
  }

  lemma {:induction false} RangesAreProper(ts: seq<Term>, acc: Range, sc: Scope)
    requires AllShaped(ts, sc) && acc.Proper()
    ensures SumRange(acc, ts).Proper() && DifferenceRange(acc, ts).Proper() && ProductRange(acc, ts).Proper()
    decreases ts, 1
  {
    if ts != [] {
      var r := RangeOf(ts[0]);
      RangeIsProper(ts[0], sc);
      ProperIsInhabited(acc);
      ProperIsInhabited(r);
      var v: int :| acc.Contains(v);
      var w: int :| r.Contains(w);
      PlusSound(acc, r, v, w);
      MinusSound(acc, r, v, w);
      TimesSound(acc, r, v, w);
      RangesAreProper(ts[1..], acc.Plus(r), sc);
      RangesAreProper(ts[1..], acc.Minus(r), sc);
      RangesAreProper(ts[1..], acc.Times(r), sc);
    }
  }

  lemma ProperIsInhabited(r: Range)
    requires r.Proper()
    ensures exists v: int :: r.Contains(v)
  {
    assert r.Contains(if r.min.Finite? then r.min.val else 0);
  }

  lemma RangeOfDifference(l: Term, r: Term)
    ensures RangeOf(Sub([l, r])) == RangeOf(l).Minus(RangeOf(r))
  {
    var rest := [l, r][1..];
    assert rest == [r];
    calc {
      RangeOf(Sub([l, r]));
      DifferenceRange(RangeOf(l), rest);
      { assert rest[1..] == []; }
      DifferenceRange(RangeOf(l).Minus(RangeOf(r)), rest[1..]);
    }
  }

  /** Range analysis as it is carried out, reading widths from the registers themselves. */
  method ValueRangeOf(t: Term, regs: seq<Register>, ghost sc: Scope) returns (res: Interval)
    requires Shaped(t, sc) && regs == sc.regs
    ensures fresh(res) && res.Value() == RangeOf(t)
    decreases t
  {
    match t {
      case Constant(v) =>
        res := new Interval(Exactly(v));
      case RegisterAccess(r, _, _) =>
        res := new Interval(RangeOfBits(regs[r].width));
      case Add(args) =>
        res := new Interval(Exactly(0));
        for i := 0 to |args|
          invariant fresh(res)
          invariant i > 0 ==> SumRange(res.Value(), args[i..]) == RangeOf(t)
        {
          var ith := ValueRangeOf(args[i], regs, sc);
          assert args[i..][0] == args[i] && args[i..][1..] == args[i + 1..];
          if i == 0 {
            res.Set(ith);
          } else {
            res.Add(ith);
          }
        }
      case Mul(args) =>
        res := new Interval(Exactly(0));
        for i := 0 to |args|
          invariant fresh(res)
          invariant i > 0 ==> ProductRange(res.Value(), args[i..]) == RangeOf(t)
        {
          var ith := ValueRangeOf(args[i], regs, sc);
          assert args[i..][0] == args[i] && args[i..][1..] == args[i + 1..];
          if i == 0 {
            res.Set(ith);
          } else {
            res.Mul(ith);
          }
        }
      case Sub(args) =>
        res := new Interval(Exactly(0));
        for i := 0 to |args|
          invariant fresh(res)
          invariant i > 0 ==> DifferenceRange(res.Value(), args[i..]) == RangeOf(t)
        {
          var ith := ValueRangeOf(args[i], regs, sc);
          assert args[i..][0] == args[i] && args[i..][1..] == args[i + 1..];
          if i == 0 {
            res.Set(ith);
          } else {
            res.Sub(ith);
          }
        }
    }
  }
}
