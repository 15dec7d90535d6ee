// Monomials: a coefficient together with the sorted list of variables multiplied with it.
module Monomials {
  import opened Congruence
  import opened SortedSets

  datatype Monomial = Monomial(coefficient: int, vars: seq<nat>)

  /** An assignment of integers to variables. */
  type Env = nat -> int

  // ---------------------------------------------------------------------------
  // Meaning
  // ---------------------------------------------------------------------------

  function ProductOf(vars: seq<nat>, env: Env): int {
    if vars == [] then 1 else env(vars[0]) * ProductOf(vars[1..], env)
  }

  function Eval(m: Monomial, env: Env): int {
    m.coefficient * ProductOf(m.vars, env)
  }

  lemma {:induction false} ProductOfSnoc(vars: seq<nat>, v: nat, env: Env)
    ensures ProductOf(vars + [v], env) == ProductOf(vars, env) * env(v)
  {
    if vars == [] {
      assert [v][1..] == [];
    } else {
      ProductOfSnoc(vars[1..], v, env);
      assert (vars + [v])[1..] == vars[1..] + [v];
      MulAssociates(env(vars[0]), ProductOf(vars[1..], env), env(v));
    }
  }

  /** The value of a monomial without variables is its coefficient. */
  lemma EvalConstant(c: int, env: Env)
    ensures Eval(Monomial(c, []), env) == c
  {
  }

  /** Each further variable multiplies the value of a monomial with its own. */
  lemma EvalNext(c: int, vars: seq<nat>, v: nat, env: Env)
    ensures Eval(Monomial(c, vars + [v]), env) == Eval(Monomial(c, vars), env) * env(v)
  {
    ProductOfSnoc(vars, v, env);
    MulAssociates(c, ProductOf(vars, env), env(v));
  }

  /** Evaluate a monomial one variable at a time. */
  method EvalTerm(m: Monomial, env: Env) returns (acc: int)
    ensures acc == Eval(m, env)
  {
    acc := m.coefficient;
    for j := 0 to |m.vars|
      invariant acc == m.coefficient * ProductOf(m.vars[..j], env)
    {
      ProductOfSnoc(m.vars[..j], m.vars[j], env);
      assert m.vars[..j + 1] == m.vars[..j] + [m.vars[j]];
      MulAssociates(m.coefficient, ProductOf(m.vars[..j], env), env(m.vars[j]));
      acc := acc * env(m.vars[j]);
    }
    assert m.vars[..|m.vars|] == m.vars;
  }

  // ---------------------------------------------------------------------------
  // Order
  // ---------------------------------------------------------------------------

  predicate Ordered(vars: seq<nat>) {
    forall i, j :: 0 <= i < j < |vars| ==> vars[i] <= vars[j]
  }

  function CmpVar(v: nat, w: nat): int {
    v - w
  }

  /** Variables come first, so the coefficient of a monomial can change without affecting its position. */
  function Cmp(m: Monomial, o: Monomial): int {
    var c := Compare(CmpVar, m.vars, o.vars);
    if c != 0 then c else m.coefficient - o.coefficient
  }

  /** Fewer variables come first, then lower ones; lower coefficients decide only between the same variables. */
  lemma CmpFirst(m: Monomial, o: Monomial, i: nat)
    ensures |m.vars| < |o.vars| ==> Cmp(m, o) < 0
    ensures |m.vars| == |o.vars| && i < |m.vars| && m.vars[..i] == o.vars[..i] && m.vars[i] < o.vars[i] ==>
              Cmp(m, o) < 0
    ensures m.vars == o.vars && m.coefficient < o.coefficient ==> Cmp(m, o) < 0
  {
    assert TotalOrder(CmpVar);
    CompareFirst(CmpVar, m.vars, o.vars, i);
    CompareOrders(CmpVar, m.vars, o.vars, o.vars);
  }

  lemma CmpIsOrder()
    ensures TotalOrder(Cmp)
  {
    assert TotalOrder(CmpVar);
    forall m, n, o
      ensures Cmp(m, n) == 0 <==> m == n
      ensures Cmp(m, n) < 0 <==> Cmp(n, m) > 0
      ensures Cmp(m, n) < 0 && Cmp(n, o) < 0 ==> Cmp(m, o) < 0
    {
      CompareOrders(CmpVar, m.vars, n.vars, o.vars);
      CompareOrders(CmpVar, n.vars, m.vars, o.vars);
      CompareOrders(CmpVar, n.vars, o.vars, m.vars);
      assert m == n <==> m.vars == n.vars && m.coefficient == n.coefficient;
    }
  }

  /** Whether two monomials have the same variables. */
  method Matches(m: Monomial, o: Monomial) returns (r: bool)
    ensures r <==> m.vars == o.vars
  {
    if |m.vars| != |o.vars| {
      return false;
    }
    for i := 0 to |m.vars|
      invariant forall j :: 0 <= j < i ==> m.vars[j] == o.vars[j]
    {
      if CmpVar(m.vars[i], o.vars[i]) != 0 {
        return false;
      }
    }
    return true;
  }

  // ---------------------------------------------------------------------------
  // Arithmetic
  // ---------------------------------------------------------------------------

  function Neg(m: Monomial): Monomial {
    m.(coefficient := -m.coefficient)
  }

  /** Merge two sorted lists of variables, keeping duplicates. */
  function MergeSorted(l: seq<nat>, r: seq<nat>): seq<nat>
    decreases |l| + |r|
  {
    if l == [] then r
    else if r == [] then l
    else if CmpVar(l[0], r[0]) <= 0 then [l[0]] + MergeSorted(l[1..], r)
    else [r[0]] + MergeSorted(l, r[1..])
  }

  lemma {:induction false} MergeSortedSound(l: seq<nat>, r: seq<nat>)
    requires Ordered(l) && Ordered(r)
    ensures Ordered(MergeSorted(l, r))
    ensures forall v :: v in MergeSorted(l, r) <==> v in l || v in r
    decreases |l| + |r|
  {
    if l != [] && r != [] {
      var (head, rest) := if l[0] <= r[0] then (l[0], MergeSorted(l[1..], r)) else (r[0], MergeSorted(l, r[1..]));
      if l[0] <= r[0] {
        MergeSortedSound(l[1..], r);
      } else {
        MergeSortedSound(l, r[1..]);
      }
      assert l == [l[0]] + l[1..] && r == [r[0]] + r[1..];
      forall i | 0 <= i < |rest| ensures head <= rest[i] {
        assert rest[i] in rest;
      }
    }
  }

  lemma {:induction false} MergeSortedProduct(l: seq<nat>, r: seq<nat>, env: Env)
    ensures ProductOf(MergeSorted(l, r), env) == ProductOf(l, env) * ProductOf(r, env)
    decreases |l| + |r|
  {
    if l != [] && r != [] {
      if l[0] <= r[0] {
        MergeSortedProduct(l[1..], r, env);
        MulAssociates(env(l[0]), ProductOf(l[1..], env), ProductOf(r, env));
      } else {
        MergeSortedProduct(l, r[1..], env);
        MulSwaps(env(r[0]), ProductOf(l, env), ProductOf(r[1..], env));
      }
    }
  }

  lemma MulSwaps(x: int, y: int, z: int)
    ensures x * (y * z) == y * (x * z)
  {
  }

  function Mul(m: Monomial, o: Monomial): Monomial {
    Monomial(m.coefficient * o.coefficient, MergeSorted(m.vars, o.vars))
  }

  function MulScalar(m: Monomial, scalar: int): Monomial {
    m.(coefficient := m.coefficient * scalar)
  }

  lemma MulSound(m: Monomial, o: Monomial, env: Env)
    ensures Eval(Mul(m, o), env) == Eval(m, env) * Eval(o, env)
  {
    MergeSortedProduct(m.vars, o.vars, env);
    var a, b, x, y := m.coefficient, o.coefficient, ProductOf(m.vars, env), ProductOf(o.vars, env);
    assert (a * b) * (x * y) == (a * x) * (b * y) by {
      MulAssociates(a, b, x * y);
      MulSwaps(b, x, y);
      MulAssociates(a, x, b * y);
    }
  }

  /** Divide by 2^n through shifting, rounding towards zero. */
  function ShiftRight(c: int, n: nat): int {
    if c < 0 then -(-c / Pow2(n)) else c / Pow2(n)
  }

  /** What shifting right and back again leaves out. */
  function ShiftedOut(c: int, n: nat): int {
    c - ShiftRight(c, n) * Pow2(n)
  }

  /** Shift the coefficient right, and return what was shifted out as well. */
  function Shr(m: Monomial, n: nat): (Monomial, Monomial) {
    (m.(coefficient := ShiftRight(m.coefficient, n)), m.(coefficient := ShiftedOut(m.coefficient, n)))
  }

  /** The remainder of a shift is smaller than what was divided by, and never changes sign. */
  lemma ShiftSound(c: int, n: nat)
    ensures c == Pow2(n) * ShiftRight(c, n) + ShiftedOut(c, n)
    ensures ShiftedOut(c, n) < Pow2(n) && -ShiftedOut(c, n) < Pow2(n)
    ensures c >= 0 ==> ShiftRight(c, n) >= 0 && ShiftedOut(c, n) >= 0
    ensures c <= 0 ==> ShiftRight(c, n) <= 0 && ShiftedOut(c, n) <= 0
  {
    var a := if c < 0 then -c else c;
    Divides(a, Pow2(n));
    NegatedProduct(a / Pow2(n), Pow2(n));
  }

  lemma Divides(a: int, w: int)
    requires w > 0 && a >= 0
    ensures a / w >= 0 && 0 <= a - (a / w) * w < w && (a / w) * w == w * (a / w)
  {
  }

  lemma NegatedProduct(a: int, w: int)
    ensures w * (-a) == -(a * w) && (-a) * w == -(a * w)
  {
  }
}
