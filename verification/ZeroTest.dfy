// Why a polynomial which is zero everywhere has no terms at all.
module ZeroTest {
  import opened Congruence
  import opened SortedSets
  import opened Monomials
  import opened Polynomials

  // ---------------------------------------------------------------------------
  // Numbers which identify lists of variables
  // ---------------------------------------------------------------------------

  function Pow(b: nat, e: nat): nat {
    if e == 0 then 1 else b * Pow(b, e - 1)
  }

  lemma {:induction false} PowAdds(b: nat, d: nat, e: nat)
    ensures Pow(b, d + e) == Pow(b, d) * Pow(b, e)
    decreases d
  {
    if d > 0 {
      PowAdds(b, d - 1, e);
      MulAssociates(b, Pow(b, d - 1), Pow(b, e));
    }
  }

  lemma {:induction false} PowPositive(b: nat, e: nat)
    requires b > 0
    ensures Pow(b, e) > 0
  {
    if e > 0 {
      PowPositive(b, e - 1);
      assert b * Pow(b, e - 1) > 0;
    }
  }

  lemma {:induction false} PowMonotone(b: nat, d: nat, e: nat)
    requires b > 0 && d <= e
    ensures Pow(b, d) <= Pow(b, e)
    decreases e
  {
    if d < e {
      PowMonotone(b, d, e - 1);
      AtLeastOnce(b, Pow(b, e - 1));
    }
  }

  predicate From(vars: seq<nat>, n: nat) {
    forall i :: 0 <= i < |vars| ==> vars[i] >= n
  }

  predicate Below(vars: seq<nat>, n: nat) {
    forall i :: 0 <= i < |vars| ==> vars[i] < n
  }

  /** The number whose digits, in base w and from position n, count how often each variable occurs. */
  function Code(vars: seq<nat>, w: nat, n: nat): nat
    requires From(vars, n)
  {
    if vars == [] then 0 else Pow(w, vars[0] - n) + Code(vars[1..], w, n)
  }

  // How often a variable occurs at the front of a list.
  function Occurrences(vars: seq<nat>, n: nat): (k: nat)
    ensures k <= |vars|
  {
    if vars == [] || vars[0] != n then 0 else 1 + Occurrences(vars[1..], n)
  }

  /** The last digit of a code counts how often the lowest variable occurs. */
  lemma {:induction false} LastDigit(vars: seq<nat>, w: nat, n: nat)
    requires Ordered(vars) && From(vars, n)
    ensures var rest := vars[Occurrences(vars, n)..];
      && From(rest, n + 1) && Ordered(rest)
      && Code(vars, w, n) == Occurrences(vars, n) + w * Code(rest, w, n + 1)
  {
    if vars == [] {
      assert w * 0 == 0;
    } else if vars[0] == n {
      LastDigit(vars[1..], w, n);
      assert vars[1..][Occurrences(vars[1..], n)..] == vars[Occurrences(vars, n)..];
    } else {
      forall i | 0 <= i < |vars| ensures vars[i] >= n + 1 {
        assert i > 0 ==> vars[0] <= vars[i];
      }
      CodeShifts(vars, w, n);
      assert vars[0..] == vars;
    }
  }

  lemma {:induction false} CodeShifts(vars: seq<nat>, w: nat, n: nat)
    requires From(vars, n + 1)
    ensures Code(vars, w, n) == w * Code(vars, w, n + 1)
  {
    if vars == [] {
      assert w * 0 == 0;
    } else {
      CodeShifts(vars[1..], w, n);
      Distributes(w, Pow(w, vars[0] - n - 1), Code(vars[1..], w, n + 1));
    }
  }

  lemma DigitsUnique(w: nat, k: nat, x: nat, l: nat, y: nat)
    requires k < w && l < w && k + w * x == l + w * y
    ensures k == l && x == y
  {
    if x < y {
      HigherDigit(w, x, y);
    } else if y < x {
      HigherDigit(w, y, x);
    }
  }

  lemma HigherDigit(w: nat, x: nat, y: nat)
    requires x < y
    ensures w * y >= w * x + w
  {
    Distributes(w, x, y - x);
    Distributes(w, 1, y - x - 1);
    assert w * (y - x - 1) >= 0;
  }

  /** Lists shorter than the base are determined by their codes. */
  lemma {:induction false} CodeUnique(xs: seq<nat>, ys: seq<nat>, w: nat, n: nat, top: nat)
    requires Ordered(xs) && Ordered(ys) && |xs| < w && |ys| < w && From(xs, n) && From(ys, n)
    requires Below(xs, top) && Below(ys, top)
    requires Code(xs, w, n) == Code(ys, w, n)
    ensures xs == ys
    decreases top - n
  {
    hide Code, Ordered;
    if xs != [] || ys != [] {
      assert n < top by {
        assert xs != [] ==> n <= xs[0] < top;
        assert ys != [] ==> n <= ys[0] < top;
      }
      var k, l := Occurrences(xs, n), Occurrences(ys, n);
      LastDigit(xs, w, n);
      LastDigit(ys, w, n);
      DigitsUnique(w, k, Code(xs[k..], w, n + 1), l, Code(ys[l..], w, n + 1));
      CodeUnique(xs[k..], ys[l..], w, n + 1, top);
      OccurrencesAreFirst(xs, n);
      OccurrencesAreFirst(ys, n);
      assert xs == xs[..k] + xs[k..] && ys == ys[..l] + ys[l..];
    }
  }

  lemma {:induction false} OccurrencesAreFirst(vars: seq<nat>, n: nat)
    ensures forall i :: 0 <= i < Occurrences(vars, n) ==> vars[i] == n
  {
    if vars != [] && vars[0] == n {
      OccurrencesAreFirst(vars[1..], n);
    }
  }

  // ---------------------------------------------------------------------------
  // An assignment under which no two monomials interfere
  // ---------------------------------------------------------------------------

  /** Give every variable a power of b, such that a monomial evaluates to the power its code says. */
  function Spread(b: nat, w: nat): Env {
    (v: nat) => Pow(b, Pow(w, v))
  }

  lemma {:induction false} SpreadProduct(vars: seq<nat>, b: nat, w: nat)
    ensures Monomials.ProductOf(vars, Spread(b, w)) == Pow(b, Code(vars, w, 0))
  {
    if vars != [] {
      SpreadProduct(vars[1..], b, w);
      PowAdds(b, Pow(w, vars[0]), Code(vars[1..], w, 0));
    }
  }

  function Magnitude(ts: seq<Monomial>): nat {
    if ts == [] then 0
    else (if ts[0].coefficient < 0 then -ts[0].coefficient else ts[0].coefficient) + Magnitude(ts[1..])
  }

  // A number above the degrees of all monomials.
  function Degrees(ts: seq<Monomial>): (r: nat)
    ensures r > 0 && forall t :: t in ts ==> |t.vars| < r
  {
    if ts == [] then 1
    else
      var rest := Degrees(ts[1..]);
      assert forall t :: t in ts ==> t == ts[0] || t in ts[1..];
      if |ts[0].vars| >= rest then |ts[0].vars| + 1 else rest
  }

  // The value of monomials whose codes are below some exponent is smaller than that power.
  lemma {:induction false} LowBounded(ts: seq<Monomial>, b: nat, w: nat, e: nat)
    requires b > 0 && forall t :: t in ts ==> Code(t.vars, w, 0) <= e
    ensures EvalAll(ts, Spread(b, w)) <= Magnitude(ts) * Pow(b, e)
    ensures -EvalAll(ts, Spread(b, w)) <= Magnitude(ts) * Pow(b, e)
  {
    if ts != [] {
      LowBounded(ts[1..], b, w, e);
      var x := Pow(b, Code(ts[0].vars, w, 0));
      SpreadProduct(ts[0].vars, b, w);
      PowMonotone(b, Code(ts[0].vars, w, 0), e);
      PowPositive(b, Code(ts[0].vars, w, 0));
      var c := ts[0].coefficient;
      var m: nat := if c < 0 then -c else c;
      ProductBounded(c, m, x, Pow(b, e));
      Distributes(Pow(b, e), m, Magnitude(ts[1..]));
    }
  }

  lemma ProductBounded(c: int, m: int, x: int, y: int)
    requires 0 <= x <= y && -m <= c <= m
    ensures c * x <= m * y && -(c * x) <= m * y
  {
    assert m * x <= m * y;
    assert (m - c) * x >= 0 && (m + c) * x >= 0;
  }

  /** The position of a monomial with the greatest code. */
  function Greatest(ts: seq<Monomial>, w: nat): (i: nat)
    requires ts != []
    ensures i < |ts| && forall t :: t in ts ==> Code(t.vars, w, 0) <= Code(ts[i].vars, w, 0)
  {
    if |ts| == 1 then 0
    else
      var j := Greatest(ts[1..], w);
      assert forall t :: t in ts ==> t == ts[0] || t in ts[1..];
      if Code(ts[0].vars, w, 0) >= Code(ts[1..][j].vars, w, 0) then 0 else j + 1
  }

  // All variables which occur in a list are below this number.
  function VarBound(vars: seq<nat>): (r: nat)
    ensures Below(vars, r)
  {
    if vars == [] then 0
    else
      var rest := VarBound(vars[1..]);
      if vars[0] >= rest then vars[0] + 1 else rest
  }

  lemma CodesDiffer(xs: seq<nat>, ys: seq<nat>, w: nat)
    requires Ordered(xs) && Ordered(ys) && |xs| < w && |ys| < w && xs != ys
    ensures Code(xs, w, 0) != Code(ys, w, 0)
  {
    if Code(xs, w, 0) == Code(ys, w, 0) {
      var m, n := VarBound(xs), VarBound(ys);
      CodeUnique(xs, ys, w, 0, if m >= n then m else n);
    }
  }

  /** The monomial with the greatest code outweighs all others together. */
  lemma Dominates(c: int, p: int, b: int, rest: int, low: int, m: int)
    requires c != 0 && p == b * low && low > 0 && 0 <= m < b
    requires rest <= m * low && -rest <= m * low
    ensures c * p + rest != 0
  {
    Distributes(low, m, b - m);
    AtLeastOnce(b - m, low);
    AtLeastOnce(if c > 0 then c else -c, p);
    assert (-c) * p == -(c * p);
  }

  lemma AtLeastOnce(c: int, p: int)
    requires c >= 1 && p >= 0
    ensures c * p >= p
  {
  }

  /** A polynomial with terms is not zero everywhere. */
  lemma NonZeroSomewhere(ts: seq<Monomial>)
    requires Canonical(ts) && ts != []
    ensures EvalAll(ts, Spread(Magnitude(ts) + 1, Degrees(ts))) != 0
  {
    var w, b := Degrees(ts), Magnitude(ts) + 1;
    hide *;
    var i := GreatestTerm(ts, w);
    EvalSplit(ts, i, Spread(b, w));
    TopOutweighs(ts[i], ts[..i] + ts[i + 1..], b, w);
  }

  // The term with the greatest code, and all that is needed for it to outweigh the others.
  lemma GreatestTerm(ts: seq<Monomial>, w: nat) returns (i: nat)
    requires Canonical(ts) && ts != [] && w == Degrees(ts)
    ensures i < |ts| && ts[i].coefficient != 0
    ensures var others := ts[..i] + ts[i + 1..];
      && Magnitude(others) < Magnitude(ts) + 1
      && forall t :: t in others ==> Code(t.vars, w, 0) < Code(ts[i].vars, w, 0)
  {
    i := Greatest(ts, w);
    assert ts[i] in ts;
    hide Code, Magnitude, Greatest;
    OthersBelow(ts, i, w);
    MagnitudeSplit(ts, i);
  }

  lemma EvalSplit(ts: seq<Monomial>, i: nat, env: Env)
    requires i < |ts|
    ensures EvalAll(ts, env) == Monomials.Eval(ts[i], env) + EvalAll(ts[..i] + ts[i + 1..], env)
  {
    TotalSplit(ValueAt(env), ts, i);
    TotalConcat(ValueAt(env), ts[..i], ts[i + 1..]);
  }

  lemma TopOutweighs(top: Monomial, others: seq<Monomial>, b: nat, w: nat)
    requires top.coefficient != 0 && Magnitude(others) < b
    requires forall t :: t in others ==> Code(t.vars, w, 0) < Code(top.vars, w, 0)
    ensures Monomials.Eval(top, Spread(b, w)) + EvalAll(others, Spread(b, w)) != 0
  {
    var e := Code(top.vars, w, 0);
    var env := Spread(b, w);
    SpreadProduct(top.vars, b, w);
    PowPositive(b, e);
    assert Monomials.Eval(top, env) == top.coefficient * Pow(b, e);
    if others == [] {
      assert EvalAll(others, env) == 0;
      hide *;
      NonZeroProduct(top.coefficient, Pow(b, e));
    } else {
      assert Code(others[0].vars, w, 0) < e;
      LowBounded(others, b, w, e - 1);
      PowPositive(b, e - 1);
      assert Pow(b, e) == b * Pow(b, e - 1);
      hide *;
      Dominates(top.coefficient, Pow(b, e), b, EvalAll(others, env), Pow(b, e - 1), Magnitude(others));
    }
  }

  lemma NonZeroProduct(x: int, y: int)
    requires x != 0 && y > 0
    ensures x * y != 0
  {
  }

  lemma OthersBelow(ts: seq<Monomial>, i: nat, w: nat)
    requires Canonical(ts) && i < |ts|
    requires forall t :: t in ts ==> |t.vars| < w && Code(t.vars, w, 0) <= Code(ts[i].vars, w, 0)
    ensures forall t :: t in ts[..i] + ts[i + 1..] ==> Code(t.vars, w, 0) < Code(ts[i].vars, w, 0)
  {
    assert ts[i] in ts;
    forall t | t in ts[..i] + ts[i + 1..] ensures Code(t.vars, w, 0) < Code(ts[i].vars, w, 0) {
      assert t in ts && t.vars != ts[i].vars;
      CodesDiffer(t.vars, ts[i].vars, w);
    }
  }

  lemma {:induction false} MagnitudeConcat(ts: seq<Monomial>, us: seq<Monomial>)
    ensures Magnitude(ts + us) == Magnitude(ts) + Magnitude(us)
  {
    if ts == [] {
      assert ts + us == us;
    } else {
      MagnitudeConcat(ts[1..], us);
      assert (ts + us)[1..] == ts[1..] + us;
    }
  }

  lemma MagnitudeSplit(ts: seq<Monomial>, i: nat)
    requires i < |ts|
    ensures Magnitude(ts[..i] + ts[i + 1..]) <= Magnitude(ts)
  {
    MagnitudeConcat(ts[..i], ts[i + 1..]);
    MagnitudeConcat([ts[i]], ts[i + 1..]);
    MagnitudeConcat(ts[..i], [ts[i]] + ts[i + 1..]);
    assert ts == ts[..i] + ([ts[i]] + ts[i + 1..]);
  }

  /** Completeness of the zero test: a polynomial is zero everywhere if and only if it has no terms. */
  lemma ZeroIffEmpty(ts: seq<Monomial>)
    requires Canonical(ts)
    ensures (forall env: Env :: EvalAll(ts, env) == 0) <==> ts == []
  {
    if ts != [] {
      NonZeroSomewhere(ts);
    }
  }

  // ---------------------------------------------------------------------------
  // Representations are unique
  // ---------------------------------------------------------------------------

  lemma {:induction false} CoefficientAbsent(ts: seq<Monomial>, vars: seq<nat>)
    requires forall t :: t in ts ==> t.vars != vars
    ensures Coefficient(ts, vars) == 0
  {
    if ts != [] {
      CoefficientAbsent(ts[1..], vars);
    }
  }

  lemma CoefficientPresent(ts: seq<Monomial>, i: nat)
    requires Canonical(ts) && i < |ts|
    ensures Coefficient(ts, ts[i].vars) == ts[i].coefficient
  {
    TotalSplit(CoefficientOf(ts[i].vars), ts, i);
    CoefficientAbsent(ts[..i], ts[i].vars);
    CoefficientAbsent(ts[i + 1..], ts[i].vars);
  }

  /** A term of one polynomial is a term of any other with the same coefficients. */
  lemma TermShared(ts: seq<Monomial>, us: seq<Monomial>, t: Monomial)
    requires Canonical(ts) && Canonical(us) && t in ts && Coefficient(us, t.vars) == Coefficient(ts, t.vars)
    ensures t in us
  {
    var i :| 0 <= i < |ts| && ts[i] == t;
    CoefficientPresent(ts, i);
    var j := PositionOf(us, t.vars);
    if j < |us| {
      CoefficientPresent(us, j);
      assert us[j] == t;
    } else {
      CoefficientAbsent(us, t.vars);
    }
  }

  /** Two polynomials have the same value everywhere if and only if they are identical. */
  lemma EqualIffSame(ts: seq<Monomial>, us: seq<Monomial>)
    requires Canonical(ts) && Canonical(us)
    ensures (forall env: Env :: EvalAll(ts, env) == EvalAll(us, env)) <==> ts == us
  {
    if forall env: Env :: EvalAll(ts, env) == EvalAll(us, env) {
      var negated := Scaled(us, -1);
      var diff := AddAll(ts, negated);
      forall u | u in negated ensures Ordered(u.vars) {
        var i :| 0 <= i < |negated| && negated[i] == u;
        assert us[i] in us;
      }
      AddAllCanonical(ts, negated);
      AddAllEval(ts, negated);
      forall env: Env ensures EvalAll(diff, env) == 0 {
        ScaledEval(us, -1, env);
      }
      ZeroIffEmpty(diff);
      forall vars: seq<nat> ensures Coefficient(ts, vars) == Coefficient(us, vars) {
        CoefficientIsLinear(vars);
        AddAllTotal(CoefficientOf(vars), ts, negated);
        ScaledTotal(CoefficientOf(vars), us, -1);
      }
      forall t ensures t in ts <==> t in us {
        if t in ts {
          TermShared(ts, us, t);
        } else if t in us {
          TermShared(us, ts, t);
        }
      }
      CmpIsOrder();
      SortedUnique(Cmp, ts, us);
    }
  }
}
