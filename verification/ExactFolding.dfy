// Which terms produced by lowering are known to simplify exactly.
module ExactFolding {
  import opened Options
  import opened PrimeField
  import opened Terms
  import opened Builders
  import opened Simplify
  import opened NonZeroChecks

  predicate AllExact(p: Prime, ts: seq<Term>) {
    forall t :: t in ts ==> FoldsExactly(p, t)
  }

  lemma {:induction false} FlattenExact(p: Prime, ts: seq<Term>)
    requires AllExact(p, ts)
    ensures AllExact(p, FlattenAdd(ts)) && AllExact(p, FlattenMul(ts))
  {
    if ts != [] {
      assert FoldsExactly(p, ts[0]);
      FlattenExact(p, ts[1..]);
    }
  }

  lemma {:induction false} RemovalExact(p: Prime, ts: seq<Term>)
    requires AllExact(p, ts)
    ensures AllExact(p, RemoveZeros(ts)) && AllExact(p, RemoveOnes(ts))
  {
    if ts != [] {
      assert FoldsExactly(p, ts[0]);
      RemovalExact(p, ts[1..]);
    }
  }

  /** Sums and products of exact terms are exact. */
  lemma BuiltExact(p: Prime, ts: seq<Term>)
    requires AllExact(p, ts)
    ensures FoldsExactly(p, Sum(ts)) && FoldsExactly(p, Product(ts))
  {
    FlattenExact(p, ts);
    RemovalExact(p, FlattenAdd(ts));
    RemovalExact(p, FlattenMul(ts));
  }

  // ---------------------------------------------------------------------------
  // Terms which never simplify to a sum cannot lose a constant
  // ---------------------------------------------------------------------------

  lemma FlattenSingle(t: Term)
    ensures FlattenAdd([t]) == if t.Add? then t.args else [t]
  {
    var rest := [t][1..];
    assert rest == [] && FlattenAdd(rest) == [];
    if t.Add? {
      assert t.args + [] == t.args;
    }
  }

  lemma SimplifySingle(p: Prime, t: Term)
    requires !SimplifyTerm(p, t).Add?
    ensures !SimplifySum(p, [t]).Add?
  {
    var s := SimplifyTerm(p, t);
    assert SimplifyAll(p, [t]) == [s] by {
      assert [t][1..] == [];
    }
    var c := FoldSum(p, [s], 0);
    var m := MergeConstants(c, [s]);
    MergeSingle(c, s);
    FlattenSingle(m[0]);
    assert |RemoveZeros(m)| <= 1 && (|RemoveZeros(m)| == 1 ==> RemoveZeros(m)[0] == m[0]) by {
      assert m[1..] == [];
    }
  }

  /** A constant minus an exact term which is no sum is exact. */
  lemma OneMinusExact(p: Prime, t: Term)
    requires FoldsExactly(p, t) && !SimplifyTerm(p, t).Add?
    ensures FoldsExactly(p, Subtract([Constant(1), t]))
  {
    assert [Constant(1), t][1..] == [t];
    if IsZero(t) {
      assert RemoveZeros([t]) == [] by { assert [t][1..] == []; }
    } else {
      SubtractTwo(Constant(1), t);
      SimplifySingle(p, t);
    }
  }

  lemma {:induction false} FlattenMulKeeps(ts: seq<Term>, x: Term)
    requires x in ts && !x.Mul?
    ensures x in FlattenMul(ts)
  {
    if ts[0] != x {
      FlattenMulKeeps(ts[1..], x);
    }
  }

  lemma {:induction false} RemoveOnesKeeps(ts: seq<Term>, x: Term)
    requires x in ts && !IsOne(x)
    ensures x in RemoveOnes(ts)
  {
    if ts[0] != x {
      RemoveOnesKeeps(ts[1..], x);
    }
  }

  lemma {:induction false} SimplifyAllKeeps(p: Prime, ts: seq<Term>, x: Term)
    requires x in ts && x.RegisterAccess?
    ensures x in SimplifyAll(p, ts)
  {
    if ts[0] != x {
      SimplifyAllKeeps(p, ts[1..], x);
    }
  }

  lemma {:induction false} MergeKeeps(c: nat, ts: seq<Term>, first: bool, x: Term)
    requires x in ts && !x.Constant?
    ensures x in MergeFrom(c, ts, first)
  {
    if ts[0] != x {
      MergeKeeps(c, ts[1..], if ts[0].Constant? then false else first, x);
    }
  }

  /** A product of which one factor is an access never simplifies to a sum. */
  lemma ProductIsNoSum(p: Prime, ts: seq<Term>, x: Term)
    requires x in ts && x.RegisterAccess?
    ensures !SimplifyTerm(p, Mul(ts)).Add?
  {
    hide FlattenMul, MergeFrom, RemoveOnes, SimplifyAll, FoldProduct;
    var terms := SimplifyAll(p, ts);
    var acc := FoldProduct(p, terms, 1);
    SimplifyAllKeeps(p, ts, x);
    MergeKeeps(acc, terms, true, x);
    FlattenMulKeeps(MergeConstants(acc, terms), x);
    RemoveOnesKeeps(FlattenMul(MergeConstants(acc, terms)), x);
  }

  lemma {:induction false} ShiftedMember(ts: seq<Term>, shift: int, a: Term) returns (t: Term)
    requires a in ApplyShiftAll(ts, shift)
    ensures t in ts && a == ApplyShift(t, shift)
  {
    if a == ApplyShift(ts[0], shift) {
      t := ts[0];
    } else {
      t := ShiftedMember(ts[1..], shift, a);
    }
  }

  lemma {:induction false} MemberShifted(ts: seq<Term>, shift: int, t: Term)
    requires t in ts
    ensures ApplyShift(t, shift) in ApplyShiftAll(ts, shift)
  {
    if ts[0] != t {
      MemberShifted(ts[1..], shift, t);
    }
  }

  lemma {:induction false} RemoveOnesMembers(ts: seq<Term>)
    ensures forall t :: t in RemoveOnes(ts) ==> t in ts
  {
    if ts != [] {
      RemoveOnesMembers(ts[1..]);
    }
  }

  /** One minus a normalised term is exact, provided the term which was inverted is. */
  lemma NormalisedExact(p: Prime, e: Term, inverse: Term, shift: int)
    requires FoldsExactly(p, ApplyShift(e, shift)) && inverse.RegisterAccess?
    ensures FoldsExactly(p, ApplyShift(Product([e, inverse]), shift))
    ensures !SimplifyTerm(p, ApplyShift(Product([e, inverse]), shift)).Add?
  {
    var head := if e.Mul? then e.args else [e];
    assert FlattenMul([e, inverse]) == head + [inverse] by {
      assert [e, inverse][1..] == [inverse] && [inverse][1..] == [];
      assert FlattenMul([inverse]) == [inverse];
    }
    var fs := RemoveOnes(head + [inverse]);
    RemoveOnesMembers(head + [inverse]);
    RemoveOnesKeeps(head + [inverse], inverse);
    if (forall t :: t in fs ==> !IsZero(t)) && |fs| > 1 {
      var shifted := ApplyShiftAll(fs, shift);
      forall a | a in shifted ensures FoldsExactly(p, a) {
        var t := ShiftedMember(fs, shift, a);
        if t != inverse && e.Mul? {
          MemberShifted(e.args, shift, t);
        }
      }
      MemberShifted(fs, shift, inverse);
      ProductIsNoSum(p, shifted, ApplyShift(inverse, shift));
    }
  }

  // ---------------------------------------------------------------------------
  // Packets of non-zero checks
  // ---------------------------------------------------------------------------

  /** A sum of one or more check terms. */
  predicate CheckSum(t: Term) {
    CheckTerm(t) || (t.Add? && |t.args| > 1 && forall a :: a in t.args ==> CheckTerm(a))
  }

  lemma {:induction false} CheckTermsAreFlat(ts: seq<Term>)
    requires forall t :: t in ts ==> CheckTerm(t)
    ensures FlattenAdd(ts) == ts && RemoveZeros(ts) == ts && !HasConstant(ts)
    ensures forall c: nat, first: bool :: MergeFrom(c, ts, first) == ts
  {
    if ts != [] {
      assert CheckTerm(ts[0]);
      CheckTermsAreFlat(ts[1..]);
      assert ts == [ts[0]] + ts[1..];
    }
  }

  lemma SumIsCheckSum(ts: seq<Term>)
    requires ts != [] && forall t :: t in ts ==> CheckTerm(t)
    ensures CheckSum(Sum(ts)) && Sum(ts) == MakeSum(ts)
  {
    CheckTermsAreFlat(ts);
    assert ts[0] in ts;
  }

  lemma SimplifyCheckTerm(p: Prime, t: Term)
    requires CheckTerm(t)
    ensures SimplifyTerm(p, t) == t && FoldsExactly(p, t)
  {
    if t.Sub? {
      var x := t.args[1];
      assert t.args[1..] == [x] && [x][1..] == [];
      assert SimplifyAll(p, [x]) == [x];
      CheckTermsAreFlat([x]);
      assert SimplifySum(p, [x]) == x;
      assert t.args == [t.args[0], x];
    }
  }

  lemma {:induction false} SimplifyCheckTerms(p: Prime, ts: seq<Term>)
    requires forall t :: t in ts ==> CheckTerm(t)
    ensures SimplifyAll(p, ts) == ts && AllExact(p, ts)
  {
    if ts != [] {
      SimplifyCheckTerm(p, ts[0]);
      SimplifyCheckTerms(p, ts[1..]);
    }
  }

  // Simplification leaves sums of checks alone.
  lemma SimplifyCheckSum(p: Prime, t: Term)
    requires CheckSum(t)
    ensures SimplifyTerm(p, t) == t && FoldsExactly(p, t) && SimplifySum(p, [t]) == t
    ensures t.Add? ==> FindConstant(t.args) == None && SimplifySum(p, t.args) == t
  {
    if CheckTerm(t) {
      SimplifyCheckTerm(p, t);
      CheckTermsAreFlat([t]);
      assert SimplifyAll(p, [t]) == [t] by { assert [t][1..] == []; }
    } else {
      SimplifyCheckTerms(p, t.args);
      CheckTermsAreFlat(t.args);
      NoConstants(t.args);
      assert SimplifySum(p, t.args) == t;
      assert SimplifyTerm(p, t) == t;
      assert SimplifyAll(p, [t]) == [t] by { assert [t][1..] == []; }
      MergeSingle(FoldSum(p, [t], 0), t);
      FlattenSingle(t);
    }
  }

  lemma {:induction false} ShiftCheckTerms(ts: seq<Term>, shift: int)
    requires forall t :: t in ts ==> CheckTerm(t)
    ensures forall t :: t in ApplyShiftAll(ts, shift) ==> CheckTerm(t)
  {
    if ts != [] {
      ShiftCheckTerm(ts[0], shift);
      ShiftCheckTerms(ts[1..], shift);
    }
  }

  lemma ShiftCheckTerm(t: Term, shift: int)
    requires CheckTerm(t)
    ensures CheckTerm(ApplyShift(t, shift))
  {
    if t.Sub? {
      var c, x := t.args[0], t.args[1];
      assert t.args == [c] + [x] && t.args[1..] == [x] && [x][1..] == [];
      assert ApplyShiftAll([x], shift) == [ApplyShift(x, shift)];
      assert ApplyShiftAll(t.args, shift) == [c] + [ApplyShift(x, shift)];
    }
  }

  lemma ShiftCheckSum(t: Term, shift: int)
    requires CheckSum(t)
    ensures CheckSum(ApplyShift(t, shift))
  {
    if CheckTerm(t) {
      ShiftCheckTerm(t, shift);
    } else {
      ShiftCheckTerms(t.args, shift);
    }
  }

  lemma CheckSumReads(t: Term)
    requires CheckSum(t)
    ensures Reads(t)
  {
    if t.Add? {
      assert t.args[0] in t.args && CheckTerm(t.args[0]);
      CheckTermReads(t.args[0]);
    } else {
      CheckTermReads(t);
    }
  }

  lemma CheckTermReads(t: Term)
    requires CheckTerm(t)
    ensures Reads(t)
  {
    if t.Sub? {
      assert t.args[1] in t.args;
    }
  }
}
