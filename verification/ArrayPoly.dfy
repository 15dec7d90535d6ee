// Polynomials as sorted arrays of monomials.
module Polynomials {
  import opened Congruence
  import opened SortedSets
  import opened Monomials

  /** Sorted monomials with distinct variables and non-zero coefficients. */
  ghost predicate Canonical(ts: seq<Monomial>) {
    && Sorted(Cmp, ts)
    && (forall i, j :: 0 <= i < j < |ts| ==> ts[i].vars != ts[j].vars)
    && forall t :: t in ts ==> t.coefficient != 0 && Ordered(t.vars)
  }

  // ---------------------------------------------------------------------------
  // Sums over monomials
  // ---------------------------------------------------------------------------

  /** Something which can be summed over monomials, and is linear in their coefficients. */
  type Measure = Monomial -> int

  ghost predicate Linear(f: Measure) {
    forall a: int, b: int, vars: seq<nat> :: f(Monomial(a + b, vars)) == f(Monomial(a, vars)) + f(Monomial(b, vars))
  }

  function Total(f: Measure, ts: seq<Monomial>): int {
    if ts == [] then 0 else f(ts[0]) + Total(f, ts[1..])
  }

  /** The value of a polynomial under an assignment. */
  function EvalAll(ts: seq<Monomial>, env: Env): int {
    Total(ValueAt(env), ts)
  }

  function ValueAt(env: Env): Measure {
    m => Monomials.Eval(m, env)
  }

  /** The coefficient which a polynomial has for some variables. */
  function Coefficient(ts: seq<Monomial>, vars: seq<nat>): int {
    Total(CoefficientOf(vars), ts)
  }

  function CoefficientOf(vars: seq<nat>): Measure {
    (m: Monomial) => if m.vars == vars then m.coefficient else 0
  }

  lemma ValueIsLinear(env: Env)
    ensures Linear(ValueAt(env))
  {
    forall a: int, b: int, vars: seq<nat>
      ensures ValueAt(env)(Monomial(a + b, vars)) == ValueAt(env)(Monomial(a, vars)) + ValueAt(env)(Monomial(b, vars))
    {
      var x := Monomials.ProductOf(vars, env);
      assert (a + b) * x == a * x + b * x;
    }
  }

  lemma CoefficientIsLinear(vars: seq<nat>)
    ensures Linear(CoefficientOf(vars))
  {
  }

  lemma {:induction false} TotalConcat(f: Measure, ts: seq<Monomial>, us: seq<Monomial>)
    ensures Total(f, ts + us) == Total(f, ts) + Total(f, us)
  {
    if ts == [] {
      assert ts + us == us;
    } else {
      TotalConcat(f, ts[1..], us);
      assert (ts + us)[1..] == ts[1..] + us;
    }
  }

  lemma TotalSplit(f: Measure, ts: seq<Monomial>, i: nat)
    requires i < |ts|
    ensures Total(f, ts) == Total(f, ts[..i]) + f(ts[i]) + Total(f, ts[i + 1..])
  {
    assert ts == ts[..i] + ([ts[i]] + ts[i + 1..]);
    TotalConcat(f, ts[..i], [ts[i]] + ts[i + 1..]);
  }

  lemma {:induction false} InsertTotal(f: Measure, ts: seq<Monomial>, m: Monomial)
    requires forall t :: t in ts ==> t.vars != m.vars
    ensures Total(f, Insert(Cmp, ts, m)) == Total(f, ts) + f(m)
  {
    if ts == [] || Cmp(m, ts[0]) < 0 {
      assert ([m] + ts)[1..] == ts;
    } else {
      assert ts[0].vars != m.vars;
      CmpIsOrder();
      InsertTotal(f, ts[1..], m);
    }
  }

  // ---------------------------------------------------------------------------
  // Adding a term
  // ---------------------------------------------------------------------------

  /** The position of the monomial with the given variables, or the length if there is none. */
  function PositionOf(ts: seq<Monomial>, vars: seq<nat>): (i: nat)
    ensures i <= |ts| && (i < |ts| ==> ts[i].vars == vars)
    ensures forall j :: 0 <= j < i ==> ts[j].vars != vars
  {
    if ts == [] || ts[0].vars == vars then 0 else 1 + PositionOf(ts[1..], vars)
  }

  /** The terms of a polynomial after adding another one. */
  function AddTo(ts: seq<Monomial>, m: Monomial): seq<Monomial> {
    if m.coefficient == 0 then ts
    else
      var i := PositionOf(ts, m.vars);
      if i == |ts| then Insert(Cmp, ts, m)
      else
        var c := ts[i].coefficient + m.coefficient;
        if c == 0 then ts[..i] + ts[i + 1..] else ts[i := Monomial(c, m.vars)]
  }

  /** Adding a term contributes exactly that term. */
  lemma AddToTotal(f: Measure, ts: seq<Monomial>, m: Monomial)
    requires Linear(f)
    ensures Total(f, AddTo(ts, m)) == Total(f, ts) + f(m)
  {
    assert f(Monomial(0 + 0, m.vars)) == f(Monomial(0, m.vars)) + f(Monomial(0, m.vars));
    if m.coefficient != 0 {
      var i := PositionOf(ts, m.vars);
      if i == |ts| {
        InsertTotal(f, ts, m);
      } else {
        var c := ts[i].coefficient + m.coefficient;
        assert f(Monomial(c, m.vars)) == f(ts[i]) + f(m);
        TotalSplit(f, ts, i);
        if c == 0 {
          TotalConcat(f, ts[..i], ts[i + 1..]);
        } else {
          TotalSplit(f, ts[i := Monomial(c, m.vars)], i);
        }
      }
    } else {
      assert m == Monomial(0, m.vars);
    }
  }

  lemma AddToEval(ts: seq<Monomial>, m: Monomial, env: Env)
    ensures EvalAll(AddTo(ts, m), env) == EvalAll(ts, env) + Monomials.Eval(m, env)
  {
    ValueIsLinear(env);
    AddToTotal(ValueAt(env), ts, m);
  }

  lemma AddToCoefficient(ts: seq<Monomial>, m: Monomial, vars: seq<nat>)
    ensures Coefficient(AddTo(ts, m), vars) == Coefficient(ts, vars) + if m.vars == vars then m.coefficient else 0
  {
    CoefficientIsLinear(vars);
    AddToTotal(CoefficientOf(vars), ts, m);
  }

  // With distinct variables, the order does not depend on coefficients.
  lemma CmpIgnoresCoefficients(m: Monomial, c: int, o: Monomial)
    requires m.vars != o.vars
    ensures Cmp(m.(coefficient := c), o) == Cmp(m, o) && Cmp(o, m.(coefficient := c)) == Cmp(o, m)
  {
    assert TotalOrder(CmpVar);
    CompareOrders(CmpVar, m.vars, o.vars, o.vars);
    CompareOrders(CmpVar, o.vars, m.vars, m.vars);
  }

  lemma ReplacedCanonical(ts: seq<Monomial>, i: nat, c: int)
    requires Canonical(ts) && i < |ts| && c != 0
    ensures Canonical(ts[i := ts[i].(coefficient := c)])
  {
    var us := ts[i := ts[i].(coefficient := c)];
    forall j, k | 0 <= j < k < |us| ensures Cmp(us[j], us[k]) < 0 {
      if j == i {
        CmpIgnoresCoefficients(ts[i], c, ts[k]);
      } else if k == i {
        CmpIgnoresCoefficients(ts[i], c, ts[j]);
      }
    }
    forall t | t in us ensures t.coefficient != 0 && Ordered(t.vars) {
      var j :| 0 <= j < |us| && us[j] == t;
      assert ts[j] in ts;
    }
  }

  lemma InsertedCanonical(ts: seq<Monomial>, m: Monomial)
    requires Canonical(ts) && m.coefficient != 0 && Ordered(m.vars) && forall t :: t in ts ==> t.vars != m.vars
    ensures Canonical(Insert(Cmp, ts, m))
  {
    CmpIsOrder();
    InsertSorts(Cmp, ts, m);
    var us := Insert(Cmp, ts, m);
    forall t ensures t in us <==> t in ts || t == m {
      InsertMembers(Cmp, ts, m, t);
    }
    SortedDistinct(Cmp, us);
    hide TotalOrder, Sorted, Insert;
    forall j, k | 0 <= j < k < |us| ensures us[j].vars != us[k].vars {
      assert us[j] in us && us[k] in us && us[j] != us[k];
      if us[j] in ts && us[k] in ts {
        DistinctVars(ts, us[j], us[k]);
      }
    }
  }

  lemma DistinctVars(ts: seq<Monomial>, m: Monomial, o: Monomial)
    requires Canonical(ts) && m in ts && o in ts && m != o
    ensures m.vars != o.vars
  {
    var i :| 0 <= i < |ts| && ts[i] == m;
    var j :| 0 <= j < |ts| && ts[j] == o;
  }

  lemma RemovedCanonical(ts: seq<Monomial>, i: nat)
    requires Canonical(ts) && i < |ts|
    ensures Canonical(ts[..i] + ts[i + 1..])
  {
    var us := ts[..i] + ts[i + 1..];
    assert forall j :: 0 <= j < |us| ==> us[j] == ts[if j < i then j else j + 1];
  }

  lemma AddToCanonical(ts: seq<Monomial>, m: Monomial)
    requires Canonical(ts) && Ordered(m.vars)
    ensures Canonical(AddTo(ts, m))
  {
    if m.coefficient != 0 {
      var i := PositionOf(ts, m.vars);
      if i == |ts| {
        InsertedCanonical(ts, m);
      } else {
        RemovedCanonical(ts, i);
        if ts[i].coefficient + m.coefficient != 0 {
          ReplacedCanonical(ts, i, ts[i].coefficient + m.coefficient);
        }
      }
    }
  }

  // ---------------------------------------------------------------------------
  // Adding several terms
  // ---------------------------------------------------------------------------

  function AddAll(ts: seq<Monomial>, us: seq<Monomial>): seq<Monomial>
    decreases |us|
  {
    if us == [] then ts else AddTo(AddAll(ts, us[..|us| - 1]), us[|us| - 1])
  }

  lemma {:induction false} AddAllTotal(f: Measure, ts: seq<Monomial>, us: seq<Monomial>)
    requires Linear(f)
    ensures Total(f, AddAll(ts, us)) == Total(f, ts) + Total(f, us)
    decreases |us|
  {
    if us != [] {
      var init, last := us[..|us| - 1], us[|us| - 1];
      hide AddTo, Linear;
      AddAllTotal(f, ts, init);
      AddToTotal(f, AddAll(ts, init), last);
      assert us == init + [last];
      TotalConcat(f, init, [last]);
    }
  }

  lemma {:induction false} AddAllCanonical(ts: seq<Monomial>, us: seq<Monomial>)
    requires Canonical(ts) && forall u :: u in us ==> Ordered(u.vars)
    ensures Canonical(AddAll(ts, us))
    decreases |us|
  {
    if us != [] {
      hide AddTo, Canonical;
      AddAllCanonical(ts, us[..|us| - 1]);
      AddToCanonical(AddAll(ts, us[..|us| - 1]), us[|us| - 1]);
    }
  }

  /** Every monomial of one polynomial times every monomial of another, in order. */
  function Products(ts: seq<Monomial>, us: seq<Monomial>): seq<Monomial> {
    if ts == [] then [] else ProductsOf(ts[0], us) + Products(ts[1..], us)
  }

  function ProductsOf(t: Monomial, us: seq<Monomial>): (r: seq<Monomial>)
    ensures |r| == |us| && forall i :: 0 <= i < |us| ==> r[i] == Mul(t, us[i])
  {
    seq(|us|, i requires 0 <= i < |us| => Mul(t, us[i]))
  }

  lemma {:induction false} ProductsOfEval(t: Monomial, us: seq<Monomial>, env: Env)
    ensures EvalAll(ProductsOf(t, us), env) == Monomials.Eval(t, env) * EvalAll(us, env)
  {
    if us != [] {
      MulSound(t, us[0], env);
      ProductsOfEval(t, us[1..], env);
      assert ProductsOf(t, us)[1..] == ProductsOf(t, us[1..]);
      Distributes(Monomials.Eval(t, env), Monomials.Eval(us[0], env), EvalAll(us[1..], env));
    }
  }

  lemma Distributes(x: int, y: int, z: int)
    ensures x * (y + z) == x * y + x * z && (y + z) * x == y * x + z * x
  {
  }

  lemma {:induction false} ProductsEval(ts: seq<Monomial>, us: seq<Monomial>, env: Env)
    ensures EvalAll(Products(ts, us), env) == EvalAll(ts, env) * EvalAll(us, env)
  {
    if ts != [] {
      ProductsOfEval(ts[0], us, env);
      ProductsEval(ts[1..], us, env);
      TotalConcat(ValueAt(env), ProductsOf(ts[0], us), Products(ts[1..], us));
      Distributes(EvalAll(us, env), Monomials.Eval(ts[0], env), EvalAll(ts[1..], env));
    }
  }

  function Scaled(ts: seq<Monomial>, scalar: int): (r: seq<Monomial>)
    ensures |r| == |ts| && forall i :: 0 <= i < |ts| ==> r[i] == MulScalar(ts[i], scalar)
  {
    seq(|ts|, i requires 0 <= i < |ts| => MulScalar(ts[i], scalar))
  }

  lemma {:induction false} ScaledTotal(f: Measure, ts: seq<Monomial>, scalar: int)
    requires forall t :: t in ts ==> f(MulScalar(t, scalar)) == f(t) * scalar
    ensures Total(f, Scaled(ts, scalar)) == Total(f, ts) * scalar
  {
    if ts != [] {
      ScaledTotal(f, ts[1..], scalar);
      assert Scaled(ts, scalar)[1..] == Scaled(ts[1..], scalar);
      Distributes(scalar, f(ts[0]), Total(f, ts[1..]));
    }
  }

  lemma ScaledEval(ts: seq<Monomial>, scalar: int, env: Env)
    ensures EvalAll(Scaled(ts, scalar), env) == EvalAll(ts, env) * scalar
  {
    forall t | t in ts ensures ValueAt(env)(MulScalar(t, scalar)) == ValueAt(env)(t) * scalar {
      var c, x := t.coefficient, Monomials.ProductOf(t.vars, env);
      assert (c * scalar) * x == (c * x) * scalar;
    }
    ScaledTotal(ValueAt(env), ts, scalar);
  }

  // ---------------------------------------------------------------------------
  // Shifting
  // ---------------------------------------------------------------------------

  /** Either the quotient or the remainder of a shifted monomial. */
  function Part(m: Monomial, n: nat, quotient: bool): (r: Monomial)
    ensures r.vars == m.vars
  {
    if quotient then Monomials.Shr(m, n).0 else Monomials.Shr(m, n).1
  }

  /** The quotients, respectively remainders, of all monomials, without those which are zero. */
  function Shifted(ts: seq<Monomial>, n: nat, quotient: bool): seq<Monomial> {
    if ts == [] then []
    else
      var last := Part(ts[|ts| - 1], n, quotient);
      Shifted(ts[..|ts| - 1], n, quotient) + if last.coefficient == 0 then [] else [last]
  }

  lemma CmpByVars(m: Monomial, o: Monomial, m': Monomial, o': Monomial)
    requires Cmp(m, o) < 0 && m.vars != o.vars && m'.vars == m.vars && o'.vars == o.vars
    ensures Cmp(m', o') < 0
  {
    assert TotalOrder(CmpVar);
    CompareOrders(CmpVar, m.vars, o.vars, o.vars);
  }

  lemma AppendCanonical(ts: seq<Monomial>, m: Monomial)
    requires Canonical(ts) && m.coefficient != 0 && Ordered(m.vars)
    requires forall t :: t in ts ==> Cmp(t, m) < 0 && t.vars != m.vars
    ensures Canonical(ts + [m])
  {
    hide Cmp, Ordered;
  }

  lemma LastIsGreatest(ts: seq<Monomial>)
    requires Canonical(ts) && ts != []
    ensures Canonical(ts[..|ts| - 1])
    ensures var last := ts[|ts| - 1];
      && Ordered(last.vars)
      && forall t :: t in ts[..|ts| - 1] ==> Cmp(t, last) < 0 && t.vars != last.vars
  {
    hide Cmp, Ordered;
    assert ts[|ts| - 1] in ts;
    assert forall t :: t in ts[..|ts| - 1] ==> t in ts;
  }

  lemma {:induction false} ShiftedCanonical(ts: seq<Monomial>, n: nat, quotient: bool)
    requires Canonical(ts)
    ensures Canonical(Shifted(ts, n, quotient))
    ensures forall r :: r in Shifted(ts, n, quotient) ==> exists t :: t in ts && r == Part(t, n, quotient)
  {
    hide Monomials.Shr, Canonical, Cmp, Ordered;
    if ts == [] {
      assert Shifted(ts, n, quotient) == ts;
    } else {
      var init, last := ts[..|ts| - 1], ts[|ts| - 1];
      LastIsGreatest(ts);
      ShiftedCanonical(init, n, quotient);
      var rs, r := Shifted(init, n, quotient), Part(last, n, quotient);
      forall s | s in rs ensures Cmp(s, r) < 0 && s.vars != r.vars {
        var t :| t in init && s == Part(t, n, quotient);
        CmpByVars(t, last, s, r);
      }
      if r.coefficient != 0 {
        AppendCanonical(rs, r);
      }
      assert rs + [] == rs;
      assert ts == init + [last];
    }
  }

  /** A shift divides the value of a polynomial: quotient times 2^n plus remainder. */
  lemma {:induction false} ShrEval(ts: seq<Monomial>, n: nat, env: Env)
    ensures EvalAll(ts, env) == Pow2(n) * EvalAll(Shifted(ts, n, true), env) + EvalAll(Shifted(ts, n, false), env)
  {
    hide *;
    if ts == [] {
      NothingShifts(n, env);
    } else {
      var init, last := ts[..|ts| - 1], ts[|ts| - 1];
      ShrEval(init, n, env);
      ShrTerm(last, n, env);
      ShiftedSnoc(ts, n, true, env);
      ShiftedSnoc(ts, n, false, env);
      EvalSnoc(init, last, env);
      assert ts == init + [last];
      ShiftedSum(Pow2(n), EvalAll(init, env),
                 EvalAll(Shifted(init, n, true), env), EvalAll(Shifted(init, n, false), env),
                 Monomials.Eval(last, env),
                 Monomials.Eval(Part(last, n, true), env), Monomials.Eval(Part(last, n, false), env));
    }
  }

  lemma NothingShifts(n: nat, env: Env)
    ensures Shifted([], n, true) == [] && Shifted([], n, false) == [] && EvalAll([], env) == 0
  {
  }

  /** The value of a variable on its own is what is assigned to it. */
  lemma VariableEval(v: nat, env: Env)
    ensures EvalAll([Monomial(1, [v])], env) == env(v)
  {
    EvalSnoc([], Monomial(1, [v]), env);
    assert [] + [Monomial(1, [v])] == [Monomial(1, [v])];
    EvalNext(1, [], v, env);
    assert [] + [v] == [v];
    EvalConstant(1, env);
  }

  lemma EvalSnoc(ts: seq<Monomial>, m: Monomial, env: Env)
    ensures EvalAll(ts + [m], env) == EvalAll(ts, env) + Monomials.Eval(m, env)
  {
    TotalConcat(ValueAt(env), ts, [m]);
  }

  lemma ShrTerm(m: Monomial, n: nat, env: Env)
    ensures Monomials.Eval(m, env) ==
            Pow2(n) * Monomials.Eval(Part(m, n, true), env) + Monomials.Eval(Part(m, n, false), env)
  {
    hide ShiftRight, ShiftedOut, Pow2, Monomials.ProductOf;
    ShiftSound(m.coefficient, n);
    ShiftedProduct(m.coefficient, Pow2(n), Part(m, n, true).coefficient, Part(m, n, false).coefficient,
                   Monomials.ProductOf(m.vars, env));
  }

  lemma ShiftedProduct(c: int, p: int, q: int, r: int, x: int)
    requires c == p * q + r
    ensures c * x == p * (q * x) + r * x
  {
    var pq := p * q;
    assert c * x == pq * x + r * x;
    MulAssociates(p, q, x);
  }

  lemma ShiftedSum(p: int, e: int, x: int, y: int, f: int, q: int, r: int)
    requires e == p * x + y && f == p * q + r
    ensures e + f == p * (x + q) + (y + r)
  {
    Distributes(p, x, q);
  }

  lemma ShiftedSnoc(ts: seq<Monomial>, n: nat, quotient: bool, env: Env)
    requires ts != []
    ensures EvalAll(Shifted(ts, n, quotient), env) ==
            EvalAll(Shifted(ts[..|ts| - 1], n, quotient), env) + Monomials.Eval(Part(ts[|ts| - 1], n, quotient), env)
  {
    hide Monomials.ProductOf, Part, EvalAll;
    var last := Part(ts[|ts| - 1], n, quotient);
    if last.coefficient != 0 {
      EvalSnoc(Shifted(ts[..|ts| - 1], n, quotient), last, env);
    } else {
      assert Shifted(ts, n, quotient) == Shifted(ts[..|ts| - 1], n, quotient);
    }
  }

  /** Every coefficient of the remainder is smaller than what was divided by. */
  lemma RemaindersSmall(ts: seq<Monomial>, n: nat)
    requires Canonical(ts)
    ensures forall r :: r in Shifted(ts, n, false) ==> r.coefficient < Pow2(n) && -r.coefficient < Pow2(n)
  {
    ShiftedCanonical(ts, n, false);
    hide Shifted, Canonical, ShiftRight, ShiftedOut, Pow2;
    forall r | r in Shifted(ts, n, false) ensures r.coefficient < Pow2(n) && -r.coefficient < Pow2(n) {
      var t :| t in ts && r == Part(t, n, false);
      ShiftSound(t.coefficient, n);
    }
  }

  // ---------------------------------------------------------------------------
  // Polynomials updated in place
  // ---------------------------------------------------------------------------

  class ArrayPoly {
    var terms: seq<Monomial>

    ghost predicate Valid()
      reads this
    {
      Canonical(terms)
    }

    constructor (terms: seq<Monomial>)
      ensures this.terms == terms
    {
      this.terms := terms;
    }

    /** Add a single term to this polynomial. */
    method AddTerm(other: Monomial)
      requires Valid() && Ordered(other.vars)
      modifies this
      ensures Valid() && terms == AddTo(old(terms), other)
    {
      AddToCanonical(terms, other);
      if other.coefficient != 0 {
        for i := 0 to |terms|
          invariant terms == old(terms)
          invariant forall j :: 0 <= j < i ==> terms[j].vars != other.vars
        {
          var matches := Matches(terms[i], other);
          if matches {
            assert PositionOf(terms, other.vars) == i;
            terms := terms[i := terms[i].(coefficient := terms[i].coefficient + other.coefficient)];
            if terms[i].coefficient == 0 {
              terms := terms[..i] + terms[i + 1..];
            }
            assert terms == AddTo(old(terms), other);
            return;
          }
        }
        terms := Insert(Cmp, terms, other);
      }
    }

    /** Subtract a single term from this polynomial. */
    method SubTerm(other: Monomial)
      requires Valid() && Ordered(other.vars)
      modifies this
      ensures Valid() && terms == AddTo(old(terms), Neg(other))
    {
      AddToCanonical(terms, Neg(other));
      if other.coefficient != 0 {
        for i := 0 to |terms|
          invariant terms == old(terms)
          invariant forall j :: 0 <= j < i ==> terms[j].vars != other.vars
        {
          var matches := Matches(terms[i], other);
          if matches {
            assert PositionOf(terms, other.vars) == i;
            terms := terms[i := terms[i].(coefficient := terms[i].coefficient - other.coefficient)];
            if terms[i].coefficient == 0 {
              terms := terms[..i] + terms[i + 1..];
            }
            assert terms == AddTo(old(terms), Neg(other));
            return;
          }
        }
        terms := Insert(Cmp, terms, Neg(other));
      }
    }

    /** Evaluate this polynomial one term at a time. */
    method Eval(env: Env) returns (val: int)
      ensures val == EvalAll(terms, env)
      ensures forall v :: terms == [Monomial(1, [v])] ==> val == env(v)
    {
      forall v ensures EvalAll([Monomial(1, [v])], env) == env(v) {
        VariableEval(v, env);
      }
      val := 0;
      for i := 0 to |terms|
        invariant val == EvalAll(terms[..i], env)
      {
        var ith := EvalTerm(terms[i], env);
        assert terms[..i + 1] == terms[..i] + [terms[i]];
        TotalConcat(ValueAt(env), terms[..i], [terms[i]]);
        val := val + ith;
      }
      assert terms[..|terms|] == terms;
    }

    method Add(other: ArrayPoly) returns (res: ArrayPoly)
      requires Valid() && other.Valid()
      ensures fresh(res) && res.Valid()
      ensures forall env: Env :: EvalAll(res.terms, env) == EvalAll(terms, env) + EvalAll(other.terms, env)
    {
      hide EvalAll, AddTo;
      res := new ArrayPoly(terms);
      for i := 0 to |other.terms|
        invariant res.Valid() && res.terms == AddAll(terms, other.terms[..i])
      {
        assert other.terms[i] in other.terms;
        assert other.terms[..i + 1][..i] == other.terms[..i];
        res.AddTerm(other.terms[i]);
      }
      assert other.terms[..|other.terms|] == other.terms;
      AddAllEval(terms, other.terms);
    }

    method AddScalar(scalar: int) returns (res: ArrayPoly)
      requires Valid()
      ensures fresh(res) && res.Valid()
      ensures forall env: Env :: EvalAll(res.terms, env) == EvalAll(terms, env) + scalar
    {
      res := new ArrayPoly(terms);
      res.AddTerm(Monomial(scalar, []));
      forall env: Env ensures EvalAll(res.terms, env) == EvalAll(terms, env) + scalar {
        AddToEval(terms, Monomial(scalar, []), env);
      }
    }

    method Sub(other: ArrayPoly) returns (res: ArrayPoly)
      requires Valid() && other.Valid()
      ensures fresh(res) && res.Valid() && res.terms == AddAll(terms, Scaled(other.terms, -1))
      ensures forall env: Env :: EvalAll(res.terms, env) == EvalAll(terms, env) - EvalAll(other.terms, env)
    {
      hide EvalAll, AddTo;
      res := new ArrayPoly(terms);
      ghost var negated := Scaled(other.terms, -1);
      for i := 0 to |other.terms|
        invariant res.Valid() && res.terms == AddAll(terms, negated[..i])
      {
        assert other.terms[i] in other.terms;
        assert negated[..i + 1][..i] == negated[..i] && negated[i] == Neg(other.terms[i]);
        res.SubTerm(other.terms[i]);
      }
      assert negated[..|negated|] == negated;
      AddAllEval(terms, negated);
      forall env: Env ensures EvalAll(negated, env) == -EvalAll(other.terms, env) {
        ScaledEval(other.terms, -1, env);
      }
    }

    method Negate() returns (res: ArrayPoly)
      requires Valid()
      ensures fresh(res) && res.Valid() && res.terms == AddAll([], Scaled(terms, -1))
      ensures forall env: Env :: EvalAll(res.terms, env) == -EvalAll(terms, env)
    {
      hide EvalAll, AddTo;
      res := new ArrayPoly([]);
      ghost var negated: seq<Monomial> := Scaled(terms, -1);
      for i := 0 to |terms|
        invariant res.Valid() && res.terms == AddAll([], negated[..i])
      {
        assert terms[i] in terms;
        assert negated[..i + 1][..i] == negated[..i] && negated[i] == Neg(terms[i]);
        res.AddTerm(Neg(terms[i]));
      }
      assert negated[..|negated|] == negated;
      AddAllEval([], negated);
      forall env: Env ensures EvalAll(res.terms, env) == -EvalAll(terms, env) {
        ScaledEval(terms, -1, env);
        NothingEvals(env);
      }
    }

    method MulScalar(scalar: int) returns (res: ArrayPoly)
      requires Valid()
      ensures fresh(res) && res.Valid()
      ensures forall env: Env :: EvalAll(res.terms, env) == EvalAll(terms, env) * scalar
    {
      res := new ArrayPoly([]);
      ghost var scaled := Scaled(terms, scalar);
      for i := 0 to |terms|
        invariant res.Valid() && res.terms == AddAll([], scaled[..i])
      {
        assert terms[i] in terms;
        assert scaled[..i + 1][..i] == scaled[..i];
        res.AddTerm(Monomials.MulScalar(terms[i], scalar));
      }
      assert scaled[..|scaled|] == scaled;
      AddAllEval([], scaled);
      forall env: Env ensures EvalAll(scaled, env) == EvalAll(terms, env) * scalar {
        ScaledEval(terms, scalar, env);
      }
    }

    method Mul(other: ArrayPoly) returns (res: ArrayPoly)
      requires Valid() && other.Valid()
      ensures fresh(res) && res.Valid()
      ensures forall env: Env :: EvalAll(res.terms, env) == EvalAll(terms, env) * EvalAll(other.terms, env)
    {
      hide EvalAll, AddTo, Ordered, Products, AddAll, Monomials.Mul;
      res := new ArrayPoly([]);
      assert res.terms == AddAll([], Products(terms[..0], other.terms)) by {
        NoProducts(other.terms);
      }
      for i := 0 to |terms|
        invariant res.Valid() && res.terms == AddAll([], Products(terms[..i], other.terms))
      {
        ghost var done := Products(terms[..i], other.terms);
        assert done + ProductsOf(terms[i], other.terms[..0]) == done;
        for j := 0 to |other.terms|
          invariant res.Valid() && res.terms == AddAll([], done + ProductsOf(terms[i], other.terms[..j]))
        {
          ProductOrdered(terms, i, other.terms, j);
          AddedProduct(done, terms[i], other.terms, j);
          res.AddTerm(Monomials.Mul(terms[i], other.terms[j]));
        }
        assert other.terms[..|other.terms|] == other.terms;
        ProductsSnoc(terms[..i], terms[i], other.terms);
        assert terms[..i + 1] == terms[..i] + [terms[i]];
      }
      assert terms[..|terms|] == terms;
      AddAllEval([], Products(terms, other.terms));
      forall env: Env ensures EvalAll(res.terms, env) == EvalAll(terms, env) * EvalAll(other.terms, env) {
        ProductsEval(terms, other.terms, env);
        NothingEvals(env);
      }
    }

    /** Divide by 2^n, returning the quotient and what remains. */
    method Shr(n: nat) returns (quot: ArrayPoly, rem: ArrayPoly)
      requires Valid()
      ensures fresh(quot) && fresh(rem) && quot.Valid() && rem.Valid()
      ensures forall env: Env ::
                EvalAll(terms, env) == Pow2(n) * EvalAll(quot.terms, env) + EvalAll(rem.terms, env)
      ensures forall r :: r in rem.terms ==> r.coefficient < Pow2(n) && -r.coefficient < Pow2(n)
    {
      hide ShiftRight, ShiftedOut, EvalAll, Pow2, Canonical;
      var quotients: seq<Monomial>, remainders: seq<Monomial> := [], [];
      for i := 0 to |terms|
        invariant quotients == Shifted(terms[..i], n, true)
        invariant remainders == Shifted(terms[..i], n, false)
      {
        var (q, r) := Monomials.Shr(terms[i], n);
        assert terms[..i + 1][..i] == terms[..i];
        if q.coefficient != 0 {
          quotients := quotients + [q];
        }
        if r.coefficient != 0 {
          remainders := remainders + [r];
        }
      }
      assert terms[..|terms|] == terms;
      ShiftedCanonical(terms, n, true);
      ShiftedCanonical(terms, n, false);
      RemaindersSmall(terms, n);
      forall env: Env ensures EvalAll(terms, env) == Pow2(n) * EvalAll(quotients, env) + EvalAll(remainders, env) {
        ShrEval(terms, n, env);
      }
      quot := new ArrayPoly(quotients);
      rem := new ArrayPoly(remainders);
    }
  }

  lemma NothingEvals(env: Env)
    ensures EvalAll([], env) == 0
  {
  }

  lemma AddAllEval(ts: seq<Monomial>, us: seq<Monomial>)
    ensures forall env: Env :: EvalAll(AddAll(ts, us), env) == EvalAll(ts, env) + EvalAll(us, env)
  {
    forall env: Env ensures EvalAll(AddAll(ts, us), env) == EvalAll(ts, env) + EvalAll(us, env) {
      ValueIsLinear(env);
      AddAllTotal(ValueAt(env), ts, us);
    }
  }

  lemma NoProducts(us: seq<Monomial>)
    ensures AddAll([], Products([], us)) == []
  {
  }

  lemma ProductOrdered(ts: seq<Monomial>, i: nat, us: seq<Monomial>, j: nat)
    requires Canonical(ts) && Canonical(us) && i < |ts| && j < |us|
    ensures Ordered(Mul(ts[i], us[j]).vars)
  {
    assert ts[i] in ts && us[j] in us;
    MergeSortedSound(ts[i].vars, us[j].vars);
  }

  lemma AddedProduct(done: seq<Monomial>, t: Monomial, us: seq<Monomial>, j: nat)
    requires j < |us|
    ensures AddAll([], done + ProductsOf(t, us[..j + 1]))
         == AddTo(AddAll([], done + ProductsOf(t, us[..j])), Mul(t, us[j]))
  {
    var m := Mul(t, us[j]);
    assert done + ProductsOf(t, us[..j + 1]) == done + ProductsOf(t, us[..j]) + [m];
    var all := done + ProductsOf(t, us[..j + 1]);
    assert all[..|all| - 1] == done + ProductsOf(t, us[..j]) && all[|all| - 1] == m;
  }

  lemma {:induction false} ProductsSnoc(ts: seq<Monomial>, t: Monomial, us: seq<Monomial>)
    ensures Products(ts + [t], us) == Products(ts, us) + ProductsOf(t, us)
  {
    if ts == [] {
      assert (ts + [t])[1..] == [];
    } else {
      ProductsSnoc(ts[1..], t, us);
      assert (ts + [t])[1..] == ts[1..] + [t];
    }
  }
}
