// The constructors through which terms are built, and shifting of terms between rows.
module Builders {
  import opened Congruence
  import opened PrimeField
  import opened Intervals
  import opened Tables
  import opened Terms

  predicate IsZero(t: Term) {
    t == Constant(0)
  }

  predicate IsOne(t: Term) {
    t == Constant(1)
  }

  /** Splice the operands of nested sums into their parent. */
  function FlattenAdd(ts: seq<Term>): seq<Term> {
    if ts == [] then []
    else (if ts[0].Add? then ts[0].args else [ts[0]]) + FlattenAdd(ts[1..])
  }

  /** Splice the operands of nested products into their parent. */
  function FlattenMul(ts: seq<Term>): seq<Term> {
    if ts == [] then []
    else (if ts[0].Mul? then ts[0].args else [ts[0]]) + FlattenMul(ts[1..])
  }

  function RemoveZeros(ts: seq<Term>): seq<Term> {
    if ts == [] then []
    else (if IsZero(ts[0]) then [] else [ts[0]]) + RemoveZeros(ts[1..])
  }

  function RemoveOnes(ts: seq<Term>): seq<Term> {
    if ts == [] then []
    else (if IsOne(ts[0]) then [] else [ts[0]]) + RemoveOnes(ts[1..])
  }

  lemma SingleOperand(t: Term)
    ensures RemoveZeros([t]) == (if IsZero(t) then [] else [t]) && (!t.Add? ==> FlattenAdd([t]) == [t])
  {
    var rest := [t][1..];
    assert rest == [] && RemoveZeros(rest) == [] && FlattenAdd(rest) == [];
  }

  function MakeSum(ts: seq<Term>): Term {
    if |ts| == 0 then Constant(0) else if |ts| == 1 then ts[0] else Add(ts)
  }

  function MakeProduct(ts: seq<Term>): Term {
    if |ts| == 0 then Constant(1) else if |ts| == 1 then ts[0] else Mul(ts)
  }

  /** The sum of zero or more terms. */
  function Sum(ts: seq<Term>): Term {
    MakeSum(RemoveZeros(FlattenAdd(ts)))
  }

  /** The product of zero or more terms. */
  function Product(ts: seq<Term>): Term {
    var fs := RemoveOnes(FlattenMul(ts));
    if exists t :: t in fs && IsZero(t) then Constant(0) else MakeProduct(fs)
  }

  /** The difference between the first term and all others. */
  function Subtract(ts: seq<Term>): Term
    requires ts != []
  {
    var fs := [ts[0]] + RemoveZeros(ts[1..]);
    if |fs| == 1 then fs[0] else Sub(fs)
  }

  // ---------------------------------------------------------------------------
  // Sums
  // ---------------------------------------------------------------------------

  lemma {:induction false} FlattenAddKeepsSum(ts: seq<Term>, at: Row)
    ensures Same(at.p, SumOf(FlattenAdd(ts), at), SumOf(ts, at))
  {
    if ts != [] {
      var head := if ts[0].Add? then ts[0].args else [ts[0]];
      FlattenAddKeepsSum(ts[1..], at);
      SumOfConcat(head, FlattenAdd(ts[1..]), at);
      SumOfSingle(ts[0], at);
      SameMod(at.p, SumOf(head, at));
      SameAdd(at.p, SumOf(head, at), Eval(ts[0], at), SumOf(FlattenAdd(ts[1..]), at), SumOf(ts[1..], at));
    }
  }

  lemma SumOfSingle(t: Term, at: Row)
    ensures SumOf([t], at) == Eval(t, at)
  {
    assert [t][1..] == [];
  }

  lemma {:induction false} RemoveZerosKeepsSum(ts: seq<Term>, at: Row)
    ensures SumOf(RemoveZeros(ts), at) == SumOf(ts, at)
  {
    if ts != [] {
      RemoveZerosKeepsSum(ts[1..], at);
      SumOfConcat(if IsZero(ts[0]) then [] else [ts[0]], RemoveZeros(ts[1..]), at);
      SumOfSingle(ts[0], at);
    }
  }

  lemma {:induction false} FlattenAddShaped(ts: seq<Term>, sc: Scope)
    requires AllShaped(ts, sc)
    ensures AllShaped(FlattenAdd(ts), sc)
  {
    if ts != [] {
      assert Shaped(ts[0], sc);
      FlattenAddShaped(ts[1..], sc);
    }
  }

  lemma {:induction false} RemoveZerosShaped(ts: seq<Term>, sc: Scope)
    requires AllShaped(ts, sc)
    ensures AllShaped(RemoveZeros(ts), sc)
  {
    if ts != [] {
      RemoveZerosShaped(ts[1..], sc);
    }
  }

  lemma MakeSumEval(ts: seq<Term>, sc: Scope, at: Row)
    requires AllShaped(ts, sc) && at.Over(sc)
    ensures Shaped(MakeSum(ts), sc)
    ensures Eval(MakeSum(ts), at) == SumOf(ts, at) % at.p
  {
    if |ts| == 0 {
      SmallModulus(at.p, 0);
    } else if |ts| == 1 {
      assert ts == [ts[0]];
      SumOfSingle(ts[0], at);
      EvalIsElement(ts[0], sc, at);
      SmallModulus(at.p, Eval(ts[0], at));
    }
  }

  /** However it is flattened and stripped, a sum denotes the sum of the given terms. */
  lemma SumEval(ts: seq<Term>, sc: Scope, at: Row)
    requires AllShaped(ts, sc) && at.Over(sc)
    ensures Eval(Sum(ts), at) == SumOf(ts, at) % at.p
  {
    FlattenAddKeepsSum(ts, at);
    RemoveZerosKeepsSum(FlattenAdd(ts), at);
    FlattenAddShaped(ts, sc);
    RemoveZerosShaped(FlattenAdd(ts), sc);
    MakeSumEval(RemoveZeros(FlattenAdd(ts)), sc, at);
  }

  lemma SumShaped(ts: seq<Term>, sc: Scope)
    requires AllShaped(ts, sc)
    ensures Shaped(Sum(ts), sc)
  {
    FlattenAddShaped(ts, sc);
    RemoveZerosShaped(FlattenAdd(ts), sc);
  }

  lemma BoundsOfConcat(xs: seq<Term>, ys: seq<Term>)
    ensures BoundsOfAll(xs + ys) == BoundsOfAll(xs).Union(BoundsOfAll(ys))
  {
    if xs == [] {
      assert xs + ys == ys;
    } else {
      assert (xs + ys)[1..] == xs[1..] + ys;
      BoundsOfConcat(xs[1..], ys);
    }
  }

  lemma {:induction false} FlattenAddBounds(ts: seq<Term>)
    ensures BoundsOfAll(FlattenAdd(ts)) == BoundsOfAll(ts)
  {
    if ts != [] {
      FlattenAddBounds(ts[1..]);
      var head := if ts[0].Add? then ts[0].args else [ts[0]];
      assert [ts[0]][1..] == [];
      BoundsOfConcat(head, FlattenAdd(ts[1..]));
    }
  }

  lemma {:induction false} RemoveZerosBounds(ts: seq<Term>)
    ensures BoundsOfAll(RemoveZeros(ts)) == BoundsOfAll(ts)
  {
    if ts != [] {
      RemoveZerosBounds(ts[1..]);
      assert [ts[0]][1..] == [];
      BoundsOfConcat(if IsZero(ts[0]) then [] else [ts[0]], RemoveZeros(ts[1..]));
    }
  }

  /** Building a sum neither loses nor gains any rows. */
  lemma SumBounds(ts: seq<Term>)
    ensures BoundsOf(Sum(ts)) == BoundsOfAll(ts)
  {
    FlattenAddBounds(ts);
    RemoveZerosBounds(FlattenAdd(ts));
    var fs := RemoveZeros(FlattenAdd(ts));
    if |fs| == 1 {
      assert fs[1..] == [];
    }
  }

  // ---------------------------------------------------------------------------
  // Products
  // ---------------------------------------------------------------------------

  lemma ProductOfSingle(t: Term, at: Row)
    ensures ProductOf([t], at) == Eval(t, at)
  {
    assert [t][1..] == [];
  }

  lemma {:induction false} FlattenMulKeepsProduct(ts: seq<Term>, at: Row)
    ensures Same(at.p, ProductOf(FlattenMul(ts), at), ProductOf(ts, at))
  {
    if ts != [] {
      var head := if ts[0].Mul? then ts[0].args else [ts[0]];
      FlattenMulKeepsProduct(ts[1..], at);
      ProductOfConcat(head, FlattenMul(ts[1..]), at);
      ProductOfSingle(ts[0], at);
      SameMod(at.p, ProductOf(head, at));
      SameMul(at.p, ProductOf(head, at), Eval(ts[0], at), ProductOf(FlattenMul(ts[1..]), at), ProductOf(ts[1..], at));
    }
  }

  lemma {:induction false} RemoveOnesKeepsProduct(ts: seq<Term>, at: Row)
    ensures ProductOf(RemoveOnes(ts), at) == ProductOf(ts, at)
  {
    if ts != [] {
      RemoveOnesKeepsProduct(ts[1..], at);
      ProductOfConcat(if IsOne(ts[0]) then [] else [ts[0]], RemoveOnes(ts[1..]), at);
      ProductOfSingle(ts[0], at);
    }
  }

  lemma ProductWithZero(ts: seq<Term>, t: Term, at: Row)
    requires t in ts && IsZero(t)
    ensures ProductOf(ts, at) == 0
  {
    if ts[0] != t {
      ProductWithZero(ts[1..], t, at);
    }
  }

  lemma {:induction false} FlattenMulShaped(ts: seq<Term>, sc: Scope)
    requires AllShaped(ts, sc)
    ensures AllShaped(FlattenMul(ts), sc)
  {
    if ts != [] {
      assert Shaped(ts[0], sc);
      FlattenMulShaped(ts[1..], sc);
    }
  }

  lemma {:induction false} RemoveOnesShaped(ts: seq<Term>, sc: Scope)
    requires AllShaped(ts, sc)
    ensures AllShaped(RemoveOnes(ts), sc)
  {
    if ts != [] {
      RemoveOnesShaped(ts[1..], sc);
    }
  }

  lemma MakeProductEval(ts: seq<Term>, sc: Scope, at: Row)
    requires AllShaped(ts, sc) && at.Over(sc)
    ensures Shaped(MakeProduct(ts), sc)
    ensures Eval(MakeProduct(ts), at) == ProductOf(ts, at) % at.p
  {
    if |ts| == 0 {
      SmallModulus(at.p, 1);
    } else if |ts| == 1 {
      assert ts == [ts[0]];
      ProductOfSingle(ts[0], at);
      EvalIsElement(ts[0], sc, at);
      SmallModulus(at.p, Eval(ts[0], at));
    }
  }

  /** However it is flattened and stripped, a product denotes the product of the given terms. */
  lemma ProductEval(ts: seq<Term>, sc: Scope, at: Row)
    requires AllShaped(ts, sc) && at.Over(sc)
    ensures Eval(Product(ts), at) == ProductOf(ts, at) % at.p
  {
    var fs := RemoveOnes(FlattenMul(ts));
    FlattenMulKeepsProduct(ts, at);
    RemoveOnesKeepsProduct(FlattenMul(ts), at);
    FlattenMulShaped(ts, sc);
    RemoveOnesShaped(FlattenMul(ts), sc);
    if t :| t in fs && IsZero(t) {
      ProductWithZero(fs, t, at);
      SmallModulus(at.p, 0);
    } else {
      MakeProductEval(fs, sc, at);
    }
  }

  lemma ProductShaped(ts: seq<Term>, sc: Scope)
    requires AllShaped(ts, sc)
    ensures Shaped(Product(ts), sc)
  {
    FlattenMulShaped(ts, sc);
    RemoveOnesShaped(FlattenMul(ts), sc);
  }

  // ---------------------------------------------------------------------------
  // Differences
  // ---------------------------------------------------------------------------

  lemma SubtractEval(ts: seq<Term>, sc: Scope, at: Row)
    requires ts != [] && AllShaped(ts, sc) && at.Over(sc)
    ensures Eval(Subtract(ts), at) == (Eval(ts[0], at) - SumOf(ts[1..], at)) % at.p
  {
    var rest := RemoveZeros(ts[1..]);
    RemoveZerosKeepsSum(ts[1..], at);
    assert ([ts[0]] + rest)[1..] == rest;
    EvalIsElement(ts[0], sc, at);
    SmallModulus(at.p, Eval(ts[0], at));
  }

  lemma SubtractShaped(ts: seq<Term>, sc: Scope)
    requires ts != [] && AllShaped(ts, sc)
    ensures Shaped(Subtract(ts), sc)
  {
    RemoveZerosShaped(ts[1..], sc);
  }

  lemma SubtractTwo(l: Term, r: Term)
    requires !IsZero(r)
    ensures Subtract([l, r]) == Sub([l, r])
  {
    assert [l, r][1..] == [r] && [r][1..] == [];
    assert RemoveZeros([r]) == [r];
  }

  /** The difference of two terms vanishes exactly where they agree. */
  lemma SubtractVanishes(l: Term, r: Term, sc: Scope, at: Row)
    requires Shaped(l, sc) && Shaped(r, sc) && at.Over(sc)
    ensures Shaped(Subtract([l, r]), sc)
    ensures Eval(Subtract([l, r]), at) == FSub(at.p, Eval(l, at), Eval(r, at))
    ensures Eval(Subtract([l, r]), at) == 0 <==> Eval(l, at) == Eval(r, at)
  {
    SubtractShaped([l, r], sc);
    SubtractEval([l, r], sc, at);
    assert [l, r][1..] == [r];
    SumOfSingle(r, at);
    EvalIsElement(l, sc, at);
    EvalIsElement(r, sc, at);
    SmallModulus(at.p, Eval(l, at));
    SmallModulus(at.p, Eval(r, at));
    SameIffDifferenceVanishes(at.p, Eval(l, at), Eval(r, at));
  }

  // ---------------------------------------------------------------------------
  // Shifting
  // ---------------------------------------------------------------------------

  /** Move every access by some number of rows. */
  function ApplyShift(t: Term, shift: int): Term
    decreases t, 0
  {
    match t
    case Constant(_) => t
    case RegisterAccess(r, w, s) => RegisterAccess(r, w, s + shift)
    case Add(args) => Add(ApplyShiftAll(args, shift))
    case Sub(args) => Sub(ApplyShiftAll(args, shift))
    case Mul(args) => Mul(ApplyShiftAll(args, shift))
  }

  function ApplyShiftAll(ts: seq<Term>, shift: int): (rs: seq<Term>)
    ensures |rs| == |ts|
    decreases ts, 1
  {
    if ts == [] then [] else [ApplyShift(ts[0], shift)] + ApplyShiftAll(ts[1..], shift)
  }

  /** Shifting a term by s rows and evaluating it on row k is evaluating it on row k + s. */
  lemma {:induction false} ApplyShiftEval(t: Term, shift: int, at: Row)
    ensures Eval(ApplyShift(t, shift), at) == Eval(t, at.(k := at.k + shift))
    decreases t, 0
  {
    match t
    case Constant(_) =>
    case RegisterAccess(_, _, _) =>
    case Add(args) => ApplyShiftAllEval(args, shift, at);
    case Mul(args) => ApplyShiftAllEval(args, shift, at);
    case Sub(args) =>
      if args != [] {
        ApplyShiftEval(args[0], shift, at);
        ApplyShiftAllEval(args[1..], shift, at);
        assert ApplyShiftAll(args, shift)[1..] == ApplyShiftAll(args[1..], shift);
      }
  }

  lemma {:induction false} ApplyShiftAllEval(ts: seq<Term>, shift: int, at: Row)
    ensures SumOf(ApplyShiftAll(ts, shift), at) == SumOf(ts, at.(k := at.k + shift))
    ensures ProductOf(ApplyShiftAll(ts, shift), at) == ProductOf(ts, at.(k := at.k + shift))
    decreases ts, 1
  {
    if ts != [] {
      ApplyShiftEval(ts[0], shift, at);
      ApplyShiftAllEval(ts[1..], shift, at);
      assert ApplyShiftAll(ts, shift)[1..] == ApplyShiftAll(ts[1..], shift);
    }
  }

  const MAX_INT: int := 0x7FFF_FFFF_FFFF_FFFF
  const MIN_INT: int := -0x8000_0000_0000_0000

  /** The least and greatest shift of any access, or an inverted range when there is none. */
  function ShiftRange(t: Term): (int, int)
    decreases t, 0
  {
    match t
    case Constant(_) => (MAX_INT, MIN_INT)
    case RegisterAccess(_, _, s) => (s, s)
    case Add(args) => ShiftRangeOfAll(args)
    case Sub(args) => ShiftRangeOfAll(args)
    case Mul(args) => ShiftRangeOfAll(args)
  }

  function ShiftRangeOfAll(ts: seq<Term>): (int, int)
    decreases ts, 1
  {
    if ts == [] then (MAX_INT, MIN_INT)
    else
      var (lo, hi) := ShiftRange(ts[0]);
      var (los, his) := ShiftRangeOfAll(ts[1..]);
      (Least(lo, los), Most(hi, his))
  }

  /** Whether a term reads any register at all. */
  predicate Reads(t: Term) {
    match t
    case Constant(_) => false
    case RegisterAccess(_, _, _) => true
    case Add(args) => exists a :: a in args && Reads(a)
    case Sub(args) => exists a :: a in args && Reads(a)
    case Mul(args) => exists a :: a in args && Reads(a)
  }

  /** Whether some register is read with a given shift. */
  predicate ReadsAt(t: Term, shift: int) {
    match t
    case Constant(_) => false
    case RegisterAccess(_, _, s) => s == shift
    case Add(args) => exists a :: a in args && ReadsAt(a, shift)
    case Sub(args) => exists a :: a in args && ReadsAt(a, shift)
    case Mul(args) => exists a :: a in args && ReadsAt(a, shift)
  }

  /** Whether all registers are read with shifts in a given range. */
  ghost predicate ReadsWithin(t: Term, lo: int, hi: int) {
    forall s :: ReadsAt(t, s) ==> lo <= s <= hi
  }

  lemma OperandReads(t: Term, a: Term, shift: int)
    requires (t.Add? || t.Sub? || t.Mul?) && a in t.args && ReadsAt(a, shift)
    ensures ReadsAt(t, shift)
  {
  }

  lemma {:induction false} ReadsSomewhere(t: Term, shift: int)
    ensures ReadsAt(t, shift) ==> Reads(t)
    ensures Reads(t) ==> exists s :: ReadsAt(t, s)
  {
    if t.RegisterAccess? {
      assert ReadsAt(t, t.shift);
    } else if !t.Constant? {
      if a :| a in t.args && ReadsAt(a, shift) {
        ReadsSomewhere(a, shift);
        assert a in t.args && Reads(a);
      }
      if a :| a in t.args && Reads(a) {
        ReadsSomewhere(a, shift);
        var s :| ReadsAt(a, s);
        OperandReads(t, a, s);
      }
    }
  }

  /** The shift range is made of the least and the greatest shift with which any register is read. */
  lemma {:induction false} ShiftRangeExact(t: Term)
    requires Reads(t) && ReadsWithin(t, MIN_INT, MAX_INT)
    ensures var (lo, hi) := ShiftRange(t); ReadsAt(t, lo) && ReadsAt(t, hi) && ReadsWithin(t, lo, hi)
    decreases t, 0
  {
    if t.RegisterAccess? {
    } else {
      forall a, s | a in t.args && ReadsAt(a, s) ensures MIN_INT <= s <= MAX_INT {
        OperandReads(t, a, s);
      }
      ShiftRangeOfAllExact(t.args);
      var (lo, hi) := ShiftRange(t);
      var a :| a in t.args && ReadsAt(a, lo);
      OperandReads(t, a, lo);
      var b :| b in t.args && ReadsAt(b, hi);
      OperandReads(t, b, hi);
      forall s | ReadsAt(t, s) ensures lo <= s <= hi {
        var c :| c in t.args && ReadsAt(c, s);
      }
    }
  }

  lemma {:induction false} ShiftRangeOfAllExact(ts: seq<Term>)
    requires exists t :: t in ts && Reads(t)
    requires forall t, s :: t in ts && ReadsAt(t, s) ==> MIN_INT <= s <= MAX_INT
    ensures var (lo, hi) := ShiftRangeOfAll(ts);
      && (exists t :: t in ts && ReadsAt(t, lo)) && (exists t :: t in ts && ReadsAt(t, hi))
      && forall t, s :: t in ts && ReadsAt(t, s) ==> lo <= s <= hi
    decreases ts, 1
  {
    var rest := ts[1..];
    var (lo, hi) := ShiftRange(ts[0]);
    var (los, his) := ShiftRangeOfAll(rest);
    assert ts == [ts[0]] + rest && ts[0] in ts;
    if Reads(ts[0]) {
      ShiftRangeExact(ts[0]);
    } else {
      ShiftRangeOfConstants(ts[0]);
      forall s ensures !ReadsAt(ts[0], s) {
        ReadsSomewhere(ts[0], s);
      }
    }
    if exists t :: t in rest && Reads(t) {
      ShiftRangeOfAllExact(rest);
    } else {
      ShiftRangeOfAllConstants(rest);
      forall t, s | t in rest ensures !ReadsAt(t, s) {
        ReadsSomewhere(t, s);
      }
    }
  }

  /** Shifting a term shifts each of its accesses. */
  lemma {:induction false} ShiftedReads(t: Term, n: int, shift: int)
    ensures ReadsAt(ApplyShift(t, n), shift) <==> ReadsAt(t, shift - n)
    decreases t, 0
  {
    if t.Add? || t.Sub? || t.Mul? {
      var us := ApplyShiftAll(t.args, n);
      assert ApplyShift(t, n).args == us;
      forall i | 0 <= i < |us| ensures us[i] in us && (ReadsAt(us[i], shift) <==> ReadsAt(t.args[i], shift - n)) {
        ApplyShiftAt(t.args, n, i);
        ShiftedReads(t.args[i], n, shift);
      }
      assert ReadsAt(ApplyShift(t, n), shift) <==> exists i :: 0 <= i < |us| && ReadsAt(us[i], shift);
      assert ReadsAt(t, shift - n) <==> exists i :: 0 <= i < |us| && ReadsAt(t.args[i], shift - n);
    }
  }

  lemma {:induction false} ApplyShiftAt(ts: seq<Term>, n: int, i: nat)
    requires i < |ts|
    ensures ApplyShiftAll(ts, n)[i] == ApplyShift(ts[i], n)
  {
    if i > 0 {
      ApplyShiftAt(ts[1..], n, i - 1);
    }
  }

  /** Shifting twice is shifting by the sum of both. */
  lemma {:induction false} ShiftTwice(t: Term, m: int, n: int)
    ensures ApplyShift(ApplyShift(t, m), n) == ApplyShift(t, m + n)
    decreases t, 0
  {
    match t
    case Constant(_) =>
    case RegisterAccess(_, _, _) =>
    case Add(args) => ShiftAllTwice(args, m, n);
    case Sub(args) => ShiftAllTwice(args, m, n);
    case Mul(args) => ShiftAllTwice(args, m, n);
  }

  lemma {:induction false} ShiftAllTwice(ts: seq<Term>, m: int, n: int)
    ensures ApplyShiftAll(ApplyShiftAll(ts, m), n) == ApplyShiftAll(ts, m + n)
    decreases ts, 1
  {
    if ts != [] {
      ShiftTwice(ts[0], m, n);
      ShiftAllTwice(ts[1..], m, n);
    }
  }

  /** Bounds arising from shifts which are 64bit integers. */
  predicate FitsInt(b: Bounds) {
    b.start <= MAX_INT && b.end <= MAX_INT
  }

  lemma {:induction false} ShiftRangeInBounds(t: Term, sc: Scope)
    requires Shaped(t, sc) && Reads(t) && FitsInt(sc.bounds)
    ensures 0 <= ShiftRange(t).0 + sc.bounds.start && ShiftRange(t).0 <= ShiftRange(t).1 <= sc.bounds.end
    decreases t, 0
  {
    if t.Add? || t.Sub? || t.Mul? {
      ShiftRangeOfAllInBounds(t.args, sc);
    }
  }

  lemma {:induction false} ShiftRangeOfAllInBounds(ts: seq<Term>, sc: Scope)
    requires AllShaped(ts, sc) && (exists a :: a in ts && Reads(a)) && FitsInt(sc.bounds)
    ensures 0 <= ShiftRangeOfAll(ts).0 + sc.bounds.start
    ensures ShiftRangeOfAll(ts).0 <= ShiftRangeOfAll(ts).1 <= sc.bounds.end
    decreases ts, 1
  {
    assert ts == [ts[0]] + ts[1..];
    if Reads(ts[0]) {
      ShiftRangeInBounds(ts[0], sc);
    } else {
      ShiftRangeOfConstants(ts[0]);
    }
    if exists a :: a in ts[1..] && Reads(a) {
      ShiftRangeOfAllInBounds(ts[1..], sc);
    } else {
      ShiftRangeOfAllConstants(ts[1..]);
    }
  }

  /** A term without accesses reports the inverted range. */
  lemma {:induction false} ShiftRangeOfConstants(t: Term)
    requires !Reads(t)
    ensures ShiftRange(t) == (MAX_INT, MIN_INT)
    decreases t, 0
  {
    if t.Add? || t.Sub? || t.Mul? {
      ShiftRangeOfAllConstants(t.args);
    }
  }

  lemma {:induction false} ShiftRangeOfAllConstants(ts: seq<Term>)
    requires forall a :: a in ts ==> !Reads(a)
    ensures ShiftRangeOfAll(ts) == (MAX_INT, MIN_INT)
    decreases ts, 1
  {
    if ts != [] {
      ShiftRangeOfConstants(ts[0]);
      ShiftRangeOfAllConstants(ts[1..]);
    }
  }

  /** Shifting moves the bounds of a term along with the range of its accesses. */
  lemma {:induction false} ApplyShiftShaped(t: Term, shift: int, sc: Scope, lo: int, hi: int, b: Bounds)
    requires Shaped(t, sc) && lo <= ShiftRange(t).0 && ShiftRange(t).1 <= hi
    requires 0 <= b.start + lo + shift && hi + shift <= b.end
    ensures Shaped(ApplyShift(t, shift), sc.(bounds := b))
    decreases t, 0
  {
    if t.Add? || t.Sub? || t.Mul? {
      ApplyShiftAllShaped(t.args, shift, sc, lo, hi, b);
    }
  }

  lemma {:induction false} ApplyShiftAllShaped(ts: seq<Term>, shift: int, sc: Scope, lo: int, hi: int, b: Bounds)
    requires AllShaped(ts, sc) && lo <= ShiftRangeOfAll(ts).0 && ShiftRangeOfAll(ts).1 <= hi
    requires 0 <= b.start + lo + shift && hi + shift <= b.end
    ensures AllShaped(ApplyShiftAll(ts, shift), sc.(bounds := b))
    decreases ts, 1
  {
    if ts != [] {
      ApplyShiftShaped(ts[0], shift, sc, lo, hi, b);
      ApplyShiftAllShaped(ts[1..], shift, sc, lo, hi, b);
    }
  }
}
