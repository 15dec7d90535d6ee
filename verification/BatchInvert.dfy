// Montgomery's trick: inverting a whole slice with a single field inversion.
module BatchInversion {
  import opened Congruence
  import opened PrimeField

  /** The pseudo-inverse of every element of s. */
  function Inverses(p: Prime, s: seq<nat>): (r: seq<nat>)
    ensures |r| == |s|
    ensures forall i :: 0 <= i < |s| ==> r[i] == Inverse(p, s[i])
  {
    seq(|s|, i requires 0 <= i < |s| => Inverse(p, s[i]))
  }

  // What a slot holds during the computation: its element, with 1 standing in for 0.
  function Unit(x: nat): nat {
    if x == 0 then 1 else x
  }

  lemma UnitIsInvertible(p: Prime, x: nat)
    requires IsElement(p, x)
    ensures Unit(x) % p != 0 && IsElement(p, Unit(x))
  {
    SmallModulus(p, Unit(x));
  }

  // m2 is the product of the remaining units, m1 the product including w.
  lemma PeelUnit(p: Prime, inv: nat, w: nat, m1: nat, m2: nat)
    requires m1 == FMul(p, m2, w) && FMul(p, inv, m1) == 1
    ensures IsElement(p, FMul(p, inv, w)) && FMul(p, FMul(p, inv, w), m2) == 1
    ensures IsElement(p, FMul(p, inv, m2)) && FMul(p, w, FMul(p, inv, m2)) == 1
  {
    SameMod(p, m2 * w);
    SameMul(p, inv, inv, m1, m2 * w);
    SameMod(p, inv * w);
    SameMul(p, FMul(p, inv, w), inv * w, m2, m2);
    assert (inv * w) * m2 == inv * (m2 * w);
    SameMod(p, inv * m2);
    SameMul(p, w, w, FMul(p, inv, m2), inv * m2);
    assert w * (inv * m2) == inv * (m2 * w);
  }

  // m[k] is the product of all units from k onwards.
  ghost predicate SuffixProducts(p: Prime, s: seq<nat>, m: seq<nat>, i: nat) {
    && |m| == |s| && i < |s|
    && m[|s| - 1] == s[|s| - 1]
    && (forall k :: i <= k < |s| - 1 ==> m[k] == FMul(p, m[k + 1], s[k]))
  }

  // The product of units is invertible.
  ghost predicate Invertible(p: Prime, x: nat) {
    IsElement(p, x) && x % p != 0
  }

  lemma ExtendProduct(p: Prime, m: nat, x: nat)
    requires Invertible(p, m) && IsElement(p, x)
    ensures Invertible(p, FMul(p, m, Unit(x)))
  {
    UnitIsInvertible(p, x);
    NoZeroDivisors(p, m, Unit(x));
    SameMod(p, m * Unit(x));
  }

  /** Replace zeros by one, recording where they were, and accumulate products from the back. */
  method AccumulateProducts(p: Prime, s: array<nat>, isZero: array<bool>, m: array<nat>)
    requires s.Length > 0 && isZero.Length == s.Length && m.Length == s.Length && m != s
    requires forall i :: 0 <= i < s.Length ==> IsElement(p, s[i])
    modifies s, isZero, m
    ensures forall k :: 0 <= k < s.Length ==> s[k] == Unit(old(s[k])) && isZero[k] == (old(s[k]) == 0)
    ensures SuffixProducts(p, s[..], m[..], 0) && Invertible(p, m[0])
  {
    var last := s.Length - 1;
    UnitIsInvertible(p, s[last]);
    isZero[last] := s[last] == 0;
    if isZero[last] {
      s[last] := 1;
    }
    m[last] := s[last];
    var i := last;
    while i > 0
      invariant 0 <= i <= last
      invariant forall k :: 0 <= k < i ==> s[k] == old(s[k])
      invariant forall k :: i <= k <= last ==> s[k] == Unit(old(s[k])) && isZero[k] == (old(s[k]) == 0)
      invariant SuffixProducts(p, s[..], m[..], i) && Invertible(p, m[i])
    {
      i := i - 1;
      isZero[i] := s[i] == 0;
      if isZero[i] {
        s[i] := 1;
      }
      ExtendProduct(p, m[i + 1], old(s[i]));
      m[i] := FMul(p, m[i + 1], s[i]);
    }
  }

  /** Invert every element of s in place, leaving zeros alone. */
  method BatchInvert(p: Prime, s: array<nat>)
    requires forall i :: 0 <= i < s.Length ==> IsElement(p, s[i])
    modifies s
    ensures s[..] == Inverses(p, old(s[..]))
  {
    hide FMul, Inverse;
    if s.Length == 0 {
      return;
    }
    var last := s.Length - 1;
    var isZero := new bool[s.Length];
    var m := new nat[s.Length];
    AccumulateProducts(p, s, isZero, m);
    ghost var products := m[..];
    // inv = 1/s[0] * 1/s[1] * ...
    var inv := Inverse(p, m[0]);
    FMulCommutes(p, m[0], inv);
    var i := 0;
    while i < last
      invariant 0 <= i <= last
      invariant forall k :: 0 <= k < i ==> s[k] == Inverse(p, old(s[k]))
      invariant forall k :: i <= k <= last ==> s[k] == Unit(old(s[k]))
      invariant forall k :: 0 <= k <= last ==> isZero[k] == (old(s[k]) == 0)
      invariant m[..] == products
      invariant IsElement(p, inv) && FMul(p, inv, m[i]) == 1
    {
      PeelUnit(p, inv, s[i], m[i], m[i + 1]);
      var newInv := FMul(p, inv, s[i]);
      s[i] := FMul(p, inv, m[i + 1]);
      inv := newInv;
      if isZero[i] {
        s[i] := 0;
      }
      SlotInverted(p, old(s[i]), s[i]);
      i := i + 1;
    }
    FMulCommutes(p, inv, m[last]);
    s[last] := inv;
    if isZero[last] {
      s[last] := 0;
    }
    SlotInverted(p, old(s[last]), s[last]);
  }

  lemma FMulCommutes(p: Prime, a: int, b: int)
    ensures FMul(p, a, b) == FMul(p, b, a)
  {
    assert a * b == b * a;
  }

  lemma SlotInverted(p: Prime, x: nat, y: nat)
    requires IsElement(p, x) && IsElement(p, y)
    requires if x == 0 then y == 0 else FMul(p, x, y) == 1
    ensures y == Inverse(p, x)
  {
    SmallModulus(p, x);
    InverseUnique(p, x, y);
  }
}
