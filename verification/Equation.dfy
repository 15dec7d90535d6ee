// Equations between polynomials, as atoms of propositions.
module Equations {
  import opened Monomials
  import opened Polynomials
  import opened ZeroTest

  /** An equation (or non-equation) between two sums of positive terms. */
  datatype Equation = Equation(sign: bool, lhs: seq<Monomial>, rhs: seq<Monomial>)

  ghost predicate Holds(e: Equation, env: Env) {
    e.sign == (EvalAll(e.lhs, env) == EvalAll(e.rhs, env))
  }

  function Negate(e: Equation): Equation {
    e.(sign := !e.sign)
  }

  /** Polynomials which represent 0 are always empty. */
  predicate IsZero(ts: seq<Monomial>) {
    |ts| == 0
  }

  predicate IsNonZero(ts: seq<Monomial>) {
    |ts| == 1 && |ts[0].vars| == 0
  }

  /** Whether an equation is recognised to be equivalent to the given truth value. */
  predicate Is(e: Equation, truth: bool) {
    if truth == e.sign then IsZero(e.lhs) && IsZero(e.rhs)
    else IsNonZero(e.lhs) && IsZero(e.rhs)
  }

  // ---------------------------------------------------------------------------
  // Normalisation
  // ---------------------------------------------------------------------------

  /** The number of positive terms less that of negative ones. */
  function Signs(ts: seq<Monomial>): int {
    if ts == [] then 0
    else Signs(ts[..|ts| - 1]) + if ts[|ts| - 1].coefficient < 0 then -1 else 1
  }

  function Normalised(ts: seq<Monomial>): seq<Monomial> {
    if Signs(ts) < 0 then AddAll([], Scaled(ts, -1)) else ts
  }

  /** The negative terms, negated, or the other ones. */
  function Side(ts: seq<Monomial>, negative: bool): seq<Monomial> {
    if ts == [] then []
    else
      var last := ts[|ts| - 1];
      Side(ts[..|ts| - 1], negative) +
      if (last.coefficient < 0) != negative then [] else if negative then [Neg(last)] else [last]
  }

  /** The equation saying that a polynomial is 0. */
  function VanishesOf(ts: seq<Monomial>): Equation {
    var norm := Normalised(ts);
    Equation(true, AddAll([], Side(norm, true)), AddAll([], Side(norm, false)))
  }

  lemma {:induction false} SideCanonical(ts: seq<Monomial>, negative: bool)
    requires Canonical(ts)
    ensures Canonical(Side(ts, negative))
    ensures forall r :: r in Side(ts, negative) ==>
              r.coefficient > 0 && exists t :: t in ts && t.vars == r.vars && (t.coefficient < 0) == negative
  {
    hide Cmp, Ordered;
    if ts == [] {
      assert Side(ts, negative) == ts;
    } else {
      var init, last := ts[..|ts| - 1], ts[|ts| - 1];
      LastIsGreatest(ts);
      SideCanonical(init, negative);
      assert last in ts;
      assert last.coefficient != 0;
      hide Canonical;
      var rs := Side(init, negative);
      if (last.coefficient < 0) == negative {
        var r := if negative then Neg(last) else last;
        forall s | s in rs ensures Cmp(s, r) < 0 && s.vars != r.vars {
          var t :| t in init && t.vars == s.vars;
          CmpByVars(t, last, s, r);
        }
        AppendCanonical(rs, r);
      } else {
        assert rs + [] == rs;
      }
      assert forall t :: t in init ==> t in ts;
    }
  }

  /** Splitting a polynomial leaves a difference of two polynomials. */
  lemma {:induction false} SideEval(ts: seq<Monomial>, env: Env)
    ensures EvalAll(ts, env) == EvalAll(Side(ts, false), env) - EvalAll(Side(ts, true), env)
  {
    hide EvalAll;
    if ts == [] {
      assert Side(ts, true) == [] && Side(ts, false) == [];
      NothingEvals(env);
    } else {
      var init, last := ts[..|ts| - 1], ts[|ts| - 1];
      SideEval(init, env);
      EvalSnoc(Side(init, false), last, env);
      EvalSnoc(Side(init, true), Neg(last), env);
      NegEval(last, env);
      EvalSnoc(init, last, env);
      assert ts == init + [last];
      assert Side(init, true) + [] == Side(init, true) && Side(init, false) + [] == Side(init, false);
    }
  }

  lemma NegEval(m: Monomial, env: Env)
    ensures Monomials.Eval(Neg(m), env) == -Monomials.Eval(m, env)
  {
    var c, x := m.coefficient, Monomials.ProductOf(m.vars, env);
    assert (-c) * x == -(c * x);
  }

  /** Building a polynomial from terms in canonical form yields those terms. */
  lemma RebuiltSame(ts: seq<Monomial>)
    requires Canonical(ts)
    ensures AddAll([], ts) == ts
  {
    AddAllCanonical([], ts);
    AddAllEval([], ts);
    forall env: Env ensures EvalAll(AddAll([], ts), env) == EvalAll(ts, env) {
      NothingEvals(env);
    }
    EqualIffSame(AddAll([], ts), ts);
  }

  lemma NormalisedSound(ts: seq<Monomial>)
    requires Canonical(ts)
    ensures Canonical(Normalised(ts))
    ensures forall env: Env :: EvalAll(Normalised(ts), env) == 0 <==> EvalAll(ts, env) == 0
  {
    var negated := Scaled(ts, -1);
    forall u | u in negated ensures Ordered(u.vars) {
      var i :| 0 <= i < |negated| && negated[i] == u;
      assert ts[i] in ts;
    }
    AddAllCanonical([], negated);
    AddAllEval([], negated);
    forall env: Env ensures EvalAll(Normalised(ts), env) == 0 <==> EvalAll(ts, env) == 0 {
      ScaledEval(ts, -1, env);
      NothingEvals(env);
    }
  }

  /** The equation made from a polynomial holds exactly where the polynomial is 0. */
  lemma VanishesSound(ts: seq<Monomial>)
    requires Canonical(ts)
    ensures var e := VanishesOf(ts);
      && Canonical(e.lhs) && Canonical(e.rhs)
      && (forall t :: t in e.lhs || t in e.rhs ==> t.coefficient > 0)
      && forall env: Env :: Holds(e, env) <==> EvalAll(ts, env) == 0
  {
    NormalisedSound(ts);
    hide Normalised, EvalAll;
    var norm := Normalised(ts);
    SideCanonical(norm, true);
    SideCanonical(norm, false);
    RebuiltSame(Side(norm, true));
    RebuiltSame(Side(norm, false));
    forall env: Env ensures Holds(VanishesOf(ts), env) <==> EvalAll(ts, env) == 0 {
      SideEval(norm, env);
    }
  }

  // ---------------------------------------------------------------------------
  // Recognising truth
  // ---------------------------------------------------------------------------

  lemma SidesEmpty(ts: seq<Monomial>)
    ensures |Side(ts, true)| + |Side(ts, false)| == |ts|
  {
  }

  lemma VanishesSides(ts: seq<Monomial>)
    requires Canonical(ts)
    ensures var norm := Normalised(ts);
      && VanishesOf(ts).lhs == Side(norm, true) && VanishesOf(ts).rhs == Side(norm, false)
      && |Side(norm, true)| + |Side(norm, false)| == |norm|
  {
    var norm := Normalised(ts);
    NormalisedSound(ts);
    SideCanonical(norm, true);
    SideCanonical(norm, false);
    RebuiltSame(Side(norm, true));
    RebuiltSame(Side(norm, false));
    SidesEmpty(norm);
  }

  lemma ZeroIffNormalisedEmpty(ts: seq<Monomial>)
    requires Canonical(ts)
    ensures Normalised(ts) == [] <==> forall env: Env :: EvalAll(ts, env) == 0
  {
    NormalisedSound(ts);
    ZeroIffEmpty(Normalised(ts));
    hide EvalAll, Normalised, Canonical;
  }

  /** An equation is recognised as true if and only if it holds everywhere. */
  lemma VanishesIsTrue(ts: seq<Monomial>)
    requires Canonical(ts)
    ensures Is(VanishesOf(ts), true) <==> forall env: Env :: Holds(VanishesOf(ts), env)
    ensures Is(Negate(VanishesOf(ts)), false) <==> forall env: Env :: !Holds(Negate(VanishesOf(ts)), env)
  {
    VanishesSides(ts);
    VanishesSound(ts);
    ZeroIffNormalisedEmpty(ts);
    assert VanishesOf(ts).sign;
    hide EvalAll, Normalised, Side, AddAll, Canonical, VanishesOf;
    assert forall env: Env :: Holds(Negate(VanishesOf(ts)), env) <==> !Holds(VanishesOf(ts), env);
  }

  lemma {:induction false} SingleSigns(ts: seq<Monomial>)
    requires |ts| == 1
    ensures Signs(ts) == if ts[0].coefficient < 0 then -1 else 1
  {
    assert ts[..0] == [];
  }

  /** Normalisation leaves no single negative term. */
  lemma NormalisedNotNegative(ts: seq<Monomial>)
    requires Canonical(ts) && |Normalised(ts)| == 1
    ensures Normalised(ts)[0].coefficient >= 0
  {
    if Signs(ts) < 0 {
      NegatedCanonical(ts);
      RebuiltSame(Scaled(ts, -1));
    }
    SingleSigns(ts);
  }

  lemma NegatedCanonical(ts: seq<Monomial>)
    requires Canonical(ts)
    ensures Canonical(Scaled(ts, -1))
  {
    var us := Scaled(ts, -1);
    forall i, j | 0 <= i < j < |us| ensures Cmp(us[i], us[j]) < 0 {
      CmpByVars(ts[i], ts[j], us[i], us[j]);
    }
    forall u | u in us ensures u.coefficient != 0 && Ordered(u.vars) {
      var i :| 0 <= i < |us| && us[i] == u;
      assert ts[i] in ts;
    }
  }

  lemma {:induction false} SidesSigns(ts: seq<Monomial>)
    ensures |Side(ts, false)| - |Side(ts, true)| == Signs(ts)
  {
    if ts != [] {
      SidesSigns(ts[..|ts| - 1]);
    }
  }

  lemma {:induction false} SidesSwapped(ts: seq<Monomial>, negative: bool)
    requires forall t :: t in ts ==> t.coefficient != 0
    ensures Side(Scaled(ts, -1), negative) == Side(ts, !negative)
  {
    if ts != [] {
      var n := |ts| - 1;
      assert ts[n] in ts;
      SidesSwapped(ts[..n], negative);
      assert Scaled(ts, -1)[..n] == Scaled(ts[..n], -1);
      assert Neg(MulScalar(ts[n], -1)) == ts[n] && MulScalar(ts[n], -1) == Neg(ts[n]);
    }
  }

  /** The positive terms are on one side and the negated negative ones on the other, the fewer on the left. */
  lemma VanishesOriented(ts: seq<Monomial>)
    requires Canonical(ts)
    ensures var (ps, ns) := (Side(ts, false), Side(ts, true));
            VanishesOf(ts) == if |ns| <= |ps| then Equation(true, ns, ps) else Equation(true, ps, ns)
  {
    VanishesSides(ts);
    SidesSigns(ts);
    if Signs(ts) < 0 {
      NegatedCanonical(ts);
      RebuiltSame(Scaled(ts, -1));
      SidesSwapped(ts, true);
      SidesSwapped(ts, false);
    }
  }

  /**
   * An equation is never recognised as false: a constant other than 0 always ends up on the side
   * which is not looked at.
   */
  lemma VanishesNeverFalse(ts: seq<Monomial>)
    requires Canonical(ts)
    ensures !Is(VanishesOf(ts), false) && !Is(Negate(VanishesOf(ts)), true)
  {
    VanishesSides(ts);
    if |Normalised(ts)| == 1 {
      NormalisedNotNegative(ts);
      SingleSide(Normalised(ts));
    }
  }

  lemma SingleSide(ts: seq<Monomial>)
    requires |ts| == 1 && ts[0].coefficient >= 0
    ensures Side(ts, true) == []
  {
    assert ts[..0] == [];
  }

  /** A constant other than 0 is recognised on the left-hand side, where it cannot hold, but not on the right. */
  lemma ConstantSides(c: int, sign: bool)
    requires c != 0
    ensures var (left, right) := (Equation(sign, [Monomial(c, [])], []), Equation(sign, [], [Monomial(c, [])]));
      && Is(left, !sign) && !Is(right, !sign)
      && forall env: Env :: (Holds(left, env) <==> !sign) && (Holds(right, env) <==> !sign)
  {
    forall env: Env ensures EvalAll([Monomial(c, [])], env) == c && EvalAll([], env) == 0 {
      NothingEvals(env);
      EvalSnoc([], Monomial(c, []), env);
      assert [] + [Monomial(c, [])] == [Monomial(c, [])];
      EvalConstant(c, env);
    }
  }

  /** For example, 5 == 0 has no solution, and is nevertheless not recognised as false. */
  lemma ConstantNotRefuted()
    ensures var five := [Monomial(5, [])];
            Canonical(five) && (forall env: Env :: !Holds(VanishesOf(five), env)) && !Is(VanishesOf(five), false)
  {
    var five := [Monomial(5, [])];
    assert Canonical(five);
    VanishesSound(five);
    VanishesNeverFalse(five);
    forall env: Env ensures EvalAll(five, env) == 5 {
      assert five[1..] == [];
      assert ValueAt(env)(five[0]) == 5;
    }
  }

  // ---------------------------------------------------------------------------
  // As carried out
  // ---------------------------------------------------------------------------

  method Normalise(term: ArrayPoly) returns (res: ArrayPoly)
    requires term.Valid()
    ensures res.Valid() && res.terms == Normalised(term.terms)
  {
    var signs := 0;
    for i := 0 to |term.terms|
      invariant signs == Signs(term.terms[..i])
    {
      assert term.terms[..i + 1][..i] == term.terms[..i];
      if term.terms[i].coefficient < 0 {
        signs := signs - 1;
      } else {
        signs := signs + 1;
      }
    }
    assert term.terms[..|term.terms|] == term.terms;
    if signs < 0 {
      res := term.Negate();
    } else {
      res := term;
    }
  }

  /** Build a polynomial by adding terms one after the other. */
  method FromTerms(terms: seq<Monomial>) returns (res: ArrayPoly)
    requires forall t :: t in terms ==> Ordered(t.vars)
    ensures fresh(res) && res.Valid() && res.terms == AddAll([], terms)
  {
    res := new ArrayPoly([]);
    for i := 0 to |terms|
      invariant res.Valid() && res.terms == AddAll([], terms[..i])
    {
      assert terms[i] in terms && terms[..i + 1][..i] == terms[..i];
      res.AddTerm(terms[i]);
    }
    assert terms[..|terms|] == terms;
  }

  method Split(term: ArrayPoly) returns (lhs: ArrayPoly, rhs: ArrayPoly)
    requires term.Valid()
    ensures lhs.Valid() && lhs.terms == AddAll([], Side(term.terms, true))
    ensures rhs.Valid() && rhs.terms == AddAll([], Side(term.terms, false))
  {
    var lhsTerms: seq<Monomial>, rhsTerms: seq<Monomial> := [], [];
    ghost var ts := term.terms;
    for i := 0 to |term.terms|
      invariant lhsTerms == Side(ts[..i], true) && rhsTerms == Side(ts[..i], false)
    {
      assert ts[..i + 1][..i] == ts[..i];
      var t := term.terms[i];
      if t.coefficient < 0 {
        lhsTerms := lhsTerms + [Neg(t)];
      } else {
        rhsTerms := rhsTerms + [t];
      }
    }
    assert ts[..|ts|] == ts;
    SideCanonical(ts, true);
    SideCanonical(ts, false);
    lhs := FromTerms(lhsTerms);
    rhs := FromTerms(rhsTerms);
  }

  /** The equation saying that a polynomial is 0, which therefore holds exactly where it is. */
  method Vanishes(term: ArrayPoly) returns (e: Equation)
    requires term.Valid()
    ensures e == VanishesOf(term.terms)
    ensures forall env: Env :: Holds(e, env) <==> EvalAll(term.terms, env) == 0
  {
    VanishesSound(term.terms);
    var norm := Normalise(term);
    var lhs, rhs := Split(norm);
    e := Equation(true, lhs.terms, rhs.terms);
  }
}
