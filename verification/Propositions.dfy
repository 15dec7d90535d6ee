// Propositions in disjunctive normal form, and their connectives.
module Propositions {
  import opened SortedSets
  import opened Equalities
  import opened Conjunctions
  import opened DnfSimplification
  import opened UnitConsensus

  /** A sorted set of clauses, where none at all stand for truth, and a single empty one for falsehood. */
  datatype Proposition = Proposition(conjuncts: seq<seq<Equality>>)

  const TRUTH := Proposition([])
  const FALSEHOOD := Proposition([[]])

  predicate IsTrue(p: Proposition) {
    |p.conjuncts| == 0
  }

  predicate IsFalse(p: Proposition) {
    |p.conjuncts| == 1 && |p.conjuncts[0]| == 0
  }

  /** The truth value of a proposition under an assignment. */
  ghost predicate Meaning(p: Proposition, env: Env) {
    IsTrue(p) || (!IsFalse(p) && AnyHold(p.conjuncts, env))
  }

  ghost predicate Valid(p: Proposition) {
    forall env: Env :: Meaning(p, env)
  }

  /** Propositions as they arise: other than truth and falsehood, all clauses have atoms and can be satisfied. */
  ghost predicate Normal(p: Proposition) {
    || IsTrue(p)
    || IsFalse(p)
    || (Sorted(CmpClause, p.conjuncts) && AllGood(p.conjuncts) && [] !in p.conjuncts)
  }

  ghost predicate IsDisjunction(r: Proposition, p: Proposition, q: Proposition) {
    forall env: Env :: Meaning(r, env) <==> Meaning(p, env) || Meaning(q, env)
  }

  ghost predicate IsConjunction(r: Proposition, p: Proposition, q: Proposition) {
    forall env: Env :: Meaning(r, env) <==> Meaning(p, env) && Meaning(q, env)
  }

  /** Whether one of two propositions holds whatever the assignment. */
  ghost predicate CoverAll(p: Proposition, q: Proposition) {
    forall env: Env :: Meaning(p, env) || Meaning(q, env)
  }

  /** A proposition which is neither truth nor falsehood can be satisfied. */
  lemma NormalSatisfiable(p: Proposition)
    requires Normal(p) && !IsFalse(p)
    ensures exists env: Env :: Meaning(p, env)
  {
    if IsTrue(p) {
      assert Meaning(p, (v: nat) => 0);
    } else {
      var c := p.conjuncts[0];
      assert c in p.conjuncts && Good(c);
      var env: Env :| AllHold(c, env);
      assert Meaning(p, env);
    }
  }

  // ---------------------------------------------------------------------------
  // Disjunction
  // ---------------------------------------------------------------------------

  function OrOf(p: Proposition, q: Proposition): Proposition
    requires Normal(p) && Normal(q)
  {
    if IsTrue(p) || IsTrue(q) then TRUTH
    else if IsFalse(p) then q
    else if IsFalse(q) then p
    else
      MergedGood(p, q);
      match Simplified(InsertAll(CmpClause, p.conjuncts, q.conjuncts))
      case None => TRUTH
      case Some(cs) => Proposition(SortedSet(CmpClause, cs))
  }

  lemma MergedGood(p: Proposition, q: Proposition)
    requires Normal(p) && Normal(q) && !IsTrue(p) && !IsFalse(p) && !IsTrue(q) && !IsFalse(q)
    ensures var cs := InsertAll(CmpClause, p.conjuncts, q.conjuncts);
      && AllGood(cs) && cs != []
      && forall env: Env :: AnyHold(cs, env) <==> Meaning(p, env) || Meaning(q, env)
  {
    hide Good, AllHold;
    CmpClauseIsOrder();
    InsertAllSorts(CmpClause, p.conjuncts, q.conjuncts);
  }

  lemma SortedClauses(cs: seq<seq<Equality>>)
    ensures Sorted(CmpClause, SortedSet(CmpClause, cs))
    ensures forall c :: c in SortedSet(CmpClause, cs) <==> c in cs
  {
    CmpClauseIsOrder();
    InsertAllSorts(CmpClause, [], cs);
  }

  lemma {:induction false} OnlyEmpty(cs: seq<seq<Equality>>)
    requires cs != [] && AllEmpty(cs)
    ensures SortedSet(CmpClause, cs) == [[]]
  {
    SortedClauses(cs);
    CmpClauseIsOrder();
    assert cs[0] in cs;
    SortedUnique(CmpClause, SortedSet(CmpClause, cs), [[]]);
  }

  lemma NotFalse(cs: seq<seq<Equality>>)
    requires [] !in cs
    ensures !IsFalse(Proposition(cs))
  {
    if |cs| == 1 {
      assert cs[0] in cs;
    }
  }

  /**
   * A disjunction means what it should, except that one which holds whatever the assignment may be
   * mistaken for falsehood.
   */
  lemma OrSound(p: Proposition, q: Proposition)
    requires Normal(p) && Normal(q)
    ensures Normal(OrOf(p, q))
    ensures IsDisjunction(OrOf(p, q), p, q) || (IsFalse(OrOf(p, q)) && CoverAll(p, q))
  {
    if !IsTrue(p) && !IsFalse(p) && !IsTrue(q) && !IsFalse(q) {
      MergedGood(p, q);
      var cs := InsertAll(CmpClause, p.conjuncts, q.conjuncts);
      SimplifiedSound(cs);
      hide Simplified, Good, AllHold, InsertAll, SortedSet;
      if Simplified(cs).Some? {
        var ds := Simplified(cs).value;
        SortedClauses(ds);
        assert ds[0] in ds;
        if [] in ds {
          OnlyEmpty(ds);
        } else {
          NotFalse(SortedSet(CmpClause, ds));
        }
      }
    }
  }

  /** Whether simplifying the clauses of two propositions resolves two units, and so loses all atoms. */
  predicate OrLoses(p: Proposition, q: Proposition)
    requires Normal(p) && Normal(q)
  {
    && !IsTrue(p) && !IsFalse(p) && !IsTrue(q) && !IsFalse(q)
    && (MergedGood(p, q); LosesAtoms(InsertAll(CmpClause, p.conjuncts, q.conjuncts)))
  }

  /** A disjunction means what it should unless, and only unless, consensus resolves two unit clauses. */
  lemma OrExact(p: Proposition, q: Proposition)
    requires Normal(p) && Normal(q)
    ensures IsDisjunction(OrOf(p, q), p, q) <==> !OrLoses(p, q)
  {
    if !IsTrue(p) && !IsFalse(p) && !IsTrue(q) && !IsFalse(q) {
      MergedGood(p, q);
      MergedAtoms(p, q);
      var cs := InsertAll(CmpClause, p.conjuncts, q.conjuncts);
      SimplifiedSound(cs);
      LosesAtomsExact(cs);
      hide Simplified, Good, AllHold, InsertAll, SortedSet, LosesAtoms;
      if Simplified(cs).Some? {
        var ds := Simplified(cs).value;
        SortedClauses(ds);
        assert ds[0] in ds;
        if [] in ds {
          OnlyEmpty(ds);
          NormalSatisfiable(p);
        } else {
          NotFalse(SortedSet(CmpClause, ds));
        }
      }
    }
  }

  lemma MergedAtoms(p: Proposition, q: Proposition)
    requires Normal(p) && Normal(q) && !IsTrue(p) && !IsFalse(p) && !IsTrue(q) && !IsFalse(q)
    ensures [] !in InsertAll(CmpClause, p.conjuncts, q.conjuncts)
  {
    CmpClauseIsOrder();
    InsertAllSorts(CmpClause, p.conjuncts, q.conjuncts);
  }

  /** A disjunction of clauses which include both P and not P is true. */
  lemma OrNotices(p: Proposition, q: Proposition, a: Equality)
    requires Normal(p) && Normal(q) && !IsTrue(p) && !IsFalse(p) && !IsTrue(q) && !IsFalse(q)
    requires [a] in p.conjuncts + q.conjuncts && [Negate(a)] in p.conjuncts + q.conjuncts
    ensures OrOf(p, q) == TRUTH
  {
    MergedGood(p, q);
    MergedAtoms(p, q);
    hide Good, Simplified;
    CmpClauseIsOrder();
    InsertAllSorts(CmpClause, p.conjuncts, q.conjuncts);
    SimplifiedNotices(InsertAll(CmpClause, p.conjuncts, q.conjuncts), a);
  }

  /** It takes an atom together with its negation, and operands which cover all cases, for that to happen. */
  lemma OrLosesOnly(p: Proposition, q: Proposition)
    requires Normal(p) && Normal(q) && OrLoses(p, q)
    ensures CoverAll(p, q) && Clash(p.conjuncts + q.conjuncts)
  {
    OrExact(p, q);
    OrSound(p, q);
    MergedGood(p, q);
    hide Good, LosesAtoms, OrOf, CoverAll;
    var cs := InsertAll(CmpClause, p.conjuncts, q.conjuncts);
    CmpClauseIsOrder();
    InsertAllSorts(CmpClause, p.conjuncts, q.conjuncts);
    LosesAtomsClash(cs);
    hide InsertAll;
    ClashWithin(cs, p.conjuncts + q.conjuncts);
  }

  method Or(p: Proposition, q: Proposition) returns (r: Proposition)
    requires Normal(p) && Normal(q)
    ensures r == OrOf(p, q) && Normal(r)
    ensures IsDisjunction(r, p, q) || (IsFalse(r) && CoverAll(p, q))
    ensures IsDisjunction(r, p, q) <==> !OrLoses(p, q)
    ensures Reduced(r.conjuncts) || (IsFalse(p) && r == q) || (IsFalse(q) && r == p)
  {
    OrSound(p, q);
    OrExact(p, q);
    hide OrLoses, IsDisjunction, CoverAll;
    if IsTrue(p) || IsTrue(q) {
      return TRUTH;
    } else if IsFalse(p) {
      return q;
    } else if IsFalse(q) {
      return p;
    }
    MergedGood(p, q);
    var disjuncts := new Disjunction(InsertAll(CmpClause, p.conjuncts, q.conjuncts));
    var tautology := disjuncts.Simplify();
    return if tautology then TRUTH else Proposition(disjuncts.conjuncts);
  }

  // ---------------------------------------------------------------------------
  // Conjunction
  // ---------------------------------------------------------------------------

  lemma MergedClause(c: seq<Equality>, d: seq<Equality>)
    requires Good(c) && Good(d)
    ensures Clause(InsertAll(Cmp, c, d)) && (c != [] ==> InsertAll(Cmp, c, d) != [])
    ensures forall env: Env :: AllHold(InsertAll(Cmp, c, d), env) <==> AllHold(c, env) && AllHold(d, env)
  {
    CmpIsOrder();
    InsertAllSorts(Cmp, c, d);
  }

  lemma SimplifiedGood(was: seq<Equality>, atoms: seq<Equality>)
    requires Satisfiable(was) && Clause(atoms) && Same(atoms, was)
    ensures Good(atoms)
  {
  }

  lemma ClauseInserted(cs: seq<seq<Equality>>, c: seq<Equality>)
    requires Sorted(CmpClause, cs)
    ensures Sorted(CmpClause, Insert(CmpClause, cs, c))
    ensures forall d :: d in Insert(CmpClause, cs, c) <==> d in cs || d == c
    ensures forall env: Env :: AnyHold(Insert(CmpClause, cs, c), env) <==> AnyHold(cs, env) || AllHold(c, env)
  {
    CmpClauseIsOrder();
    InsertSorts(CmpClause, cs, c);
    forall d ensures d in Insert(CmpClause, cs, c) <==> d in cs || d == c {
      InsertMembers(CmpClause, cs, c, d);
    }
    hide AllHold;
  }

  lemma NothingHolds()
    ensures Sorted(CmpClause, []) && forall env: Env :: !AnyHold([], env)
  {
  }

  lemma AnyHoldSnoc(cs: seq<seq<Equality>>, d: seq<Equality>)
    ensures forall env: Env :: AnyHold(cs + [d], env) <==> AnyHold(cs, env) || AllHold(d, env)
  {
    hide AllHold;
    assert forall c :: c in cs + [d] <==> c in cs || c == d;
  }

  /** Whether a clause can be combined with others without any need to close the result. */
  ghost predicate Combinable(c: seq<Equality>, ds: seq<seq<Equality>>) {
    forall d :: d in ds ==> Closed(InsertAll(Cmp, c, d)) || !Satisfiable(InsertAll(Cmp, c, d))
  }

  /** What it is combined to in that case. */
  ghost function Combined(c: seq<Equality>, ds: seq<seq<Equality>>): seq<seq<Equality>> {
    if ds == [] then []
    else
      var before, m := Combined(c, ds[..|ds| - 1]), InsertAll(Cmp, c, ds[|ds| - 1]);
      if Satisfiable(m) then Insert(CmpClause, before, m) else before
  }

  ghost function CombinedWith(c: seq<Equality>, o: Proposition): Proposition {
    var cs := Combined(c, o.conjuncts);
    if cs == [] then FALSEHOOD else Proposition(cs)
  }

  /** What a clause and a proposition are combined to. */
  ghost predicate CombinationOf(r: Proposition, c: seq<Equality>, q: Proposition) {
    && Normal(r)
    && (forall env: Env :: Meaning(r, env) <==> AllHold(c, env) && Meaning(q, env))
    && (Combinable(c, q.conjuncts) ==> r == CombinedWith(c, q))
  }

  /** The conjunction of a clause and a proposition, with contradictory combinations left out. */
  method AndConjunctProposition(c: seq<Equality>, o: Proposition) returns (r: Proposition)
    requires Good(c) && c != [] && Normal(o) && !IsTrue(o) && !IsFalse(o)
    ensures CombinationOf(r, c, o)
  {
    hide AllHold, AnyHold, Closed, Good, Clause, Sorted, Insert, InsertAll;
    var disjuncts: seq<seq<Equality>> := [];
    assert Sorted(CmpClause, disjuncts) &&
           forall env: Env :: !AnyHold(disjuncts, env) && !AnyHold(o.conjuncts[..0], env) by {
      NothingHolds();
    }
    for i := 0 to |o.conjuncts|
      invariant Sorted(CmpClause, disjuncts) && AllGood(disjuncts) && [] !in disjuncts
      invariant forall env: Env :: AnyHold(disjuncts, env) <==> AllHold(c, env) && AnyHold(o.conjuncts[..i], env)
      invariant Combinable(c, o.conjuncts) ==> disjuncts == Combined(c, o.conjuncts[..i])
    {
      assert o.conjuncts[..i + 1][..i] == o.conjuncts[..i];
      var d := o.conjuncts[i];
      assert d in o.conjuncts;
      MergedClause(c, d);
      var nc := new Conjunction(InsertAll(Cmp, c, d));
      ghost var merged := nc.atoms;
      AnyHoldSnoc(o.conjuncts[..i], d);
      var ok := nc.Simplify();
      if ok {
        SimplifiedGood(merged, nc.atoms);
        ClauseInserted(disjuncts, nc.atoms);
        disjuncts := Insert(CmpClause, disjuncts, nc.atoms);
      } else {
        assert forall env: Env :: !AllHold(merged, env);
      }
      assert o.conjuncts[..i + 1] == o.conjuncts[..i] + [d];
    }
    assert o.conjuncts[..|o.conjuncts|] == o.conjuncts;
    return if |disjuncts| == 0 then FALSEHOOD else Proposition(disjuncts);
  }

  /** Whether all clauses of one proposition can be combined with those of another. */
  ghost predicate Distributes(p: Proposition, q: Proposition) {
    && !IsTrue(p) && !IsFalse(p) && !IsTrue(q) && !IsFalse(q)
    && forall c :: c in p.conjuncts ==> Combinable(c, q.conjuncts)
  }

  // Disjunction, extended to arguments which do not arise.
  ghost function OrTotal(p: Proposition, q: Proposition): Proposition {
    if Normal(p) && Normal(q) then OrOf(p, q) else p
  }

  /** The first n clauses of one proposition combined with another one, and joined one after the other. */
  ghost function AndFrom(p: Proposition, q: Proposition, n: nat): Proposition
    requires n <= |p.conjuncts|
  {
    if n == 0 then TRUTH
    else
      var ith := CombinedWith(p.conjuncts[n - 1], q);
      if n == 1 then ith else OrTotal(AndFrom(p, q, n - 1), ith)
  }

  // ---------------------------------------------------------------------------
  // What distribution comes to
  // ---------------------------------------------------------------------------

  /** Some propositions joined one after the other. */
  ghost function Joined(ps: seq<Proposition>): Proposition {
    if ps == [] then TRUTH
    else if |ps| == 1 then ps[0]
    else OrTotal(Joined(ps[..|ps| - 1]), ps[|ps| - 1])
  }

  /** How many of some propositions are lost as they are joined: all those up to the last step which loses any. */
  ghost function Lost(ps: seq<Proposition>): (n: nat)
    ensures n <= |ps|
  {
    if |ps| <= 1 then 0
    else
      var before, last := Joined(ps[..|ps| - 1]), ps[|ps| - 1];
      if Normal(before) && Normal(last) && OrLoses(before, last) then |ps| else Lost(ps[..|ps| - 1])
  }

  /** The first few clauses of a proposition, each combined with another proposition. */
  ghost predicate Combinations(ps: seq<Proposition>, p: Proposition, q: Proposition) {
    |ps| <= |p.conjuncts| && forall i :: 0 <= i < |ps| ==> CombinationOf(ps[i], p.conjuncts[i], q)
  }

  /** What the conjunction of some clauses, taken together, and a proposition means. */
  ghost predicate Distributed(r: Proposition, cs: seq<seq<Equality>>, q: Proposition) {
    forall env: Env :: Meaning(r, env) <==> AnyHold(cs, env) && Meaning(q, env)
  }

  /** What is joined means whatever is not lost; and something is lost only if both operands hold everywhere. */
  lemma {:induction false} JoinedMeans(ps: seq<Proposition>, p: Proposition, q: Proposition)
    requires !IsTrue(p) && !IsFalse(p) && ps != [] && Combinations(ps, p, q)
    ensures Normal(Joined(ps)) && Distributed(Joined(ps), p.conjuncts[Lost(ps)..|ps|], q)
    ensures Lost(ps) > 0 ==> Valid(p) && Valid(q)
  {
    hide AllHold, AnyHold, Meaning, Normal, OrOf, OrLoses, Distributed, Combinable, CombinedWith, CombinationOf;
    var n := |ps| - 1;
    assert CombinationOf(ps[n], p.conjuncts[n], q);
    JoinedNext(Joined(ps[..n]), ps[n], p, Lost(ps[..n]), n, q);
    if n > 0 {
      JoinedMeans(ps[..n], p, q);
    }
  }

  lemma JoinedNext(r: Proposition, ith: Proposition, p: Proposition, lost: nat, i: nat, q: Proposition)
    requires !IsTrue(p) && !IsFalse(p) && lost <= i < |p.conjuncts| && CombinationOf(ith, p.conjuncts[i], q)
    ensures Normal(ith) && Distributed(ith, p.conjuncts[i..i + 1], q)
    ensures Normal(r) && Distributed(r, p.conjuncts[lost..i], q) ==>
              && Normal(OrOf(r, ith))
              && (if OrLoses(r, ith) then
                    Distributed(OrOf(r, ith), p.conjuncts[i + 1..i + 1], q) && Valid(p) && Valid(q)
                  else Distributed(OrOf(r, ith), p.conjuncts[lost..i + 1], q))
  {
    hide AllHold, Normal, OrOf, OrLoses, Combinable;
    AnyHoldSnoc([], p.conjuncts[i]);
    assert p.conjuncts[i..i + 1] == [] + [p.conjuncts[i]];
    if Normal(r) && Distributed(r, p.conjuncts[lost..i], q) {
      OrSound(r, ith);
      OrExact(r, ith);
      AnyHoldSnoc(p.conjuncts[lost..i], p.conjuncts[i]);
      assert p.conjuncts[lost..i + 1] == p.conjuncts[lost..i] + [p.conjuncts[i]];
      if OrLoses(r, ith) {
        forall env: Env ensures Meaning(p, env) && Meaning(q, env) {
          assert Meaning(r, env) || Meaning(ith, env);
          PartHolds(p, lost, i, env);
        }
      }
    }
  }

  lemma PartHolds(p: Proposition, lost: nat, i: nat, env: Env)
    requires !IsTrue(p) && !IsFalse(p) && lost <= i < |p.conjuncts|
    ensures AnyHold(p.conjuncts[lost..i], env) || AllHold(p.conjuncts[i], env) ==> Meaning(p, env)
  {
    hide AllHold;
    assert p.conjuncts[i] in p.conjuncts;
  }

  lemma {:induction false} JoinedFrom(ps: seq<Proposition>, p: Proposition, q: Proposition)
    requires Distributes(p, q) && Combinations(ps, p, q)
    ensures Joined(ps) == AndFrom(p, q, |ps|)
  {
    hide Meaning, Normal, AllHold, Combinable, CombinedWith;
    if ps != [] {
      var n := |ps| - 1;
      assert CombinationOf(ps[n], p.conjuncts[n], q) && p.conjuncts[n] in p.conjuncts;
      JoinedFrom(ps[..n], p, q);
    }
  }

  /** The last clauses of a proposition, from the n-th on, hold whatever the assignment. */
  ghost predicate RestValid(p: Proposition, n: nat) {
    n <= |p.conjuncts| && forall env: Env :: AnyHold(p.conjuncts[n..], env)
  }

  lemma ClausesGood(p: Proposition)
    requires Normal(p) && !IsTrue(p) && !IsFalse(p)
    ensures forall i :: 0 <= i < |p.conjuncts| ==> Good(p.conjuncts[i]) && p.conjuncts[i] != []
  {
    hide Good;
    assert forall i :: 0 <= i < |p.conjuncts| ==> p.conjuncts[i] in p.conjuncts;
  }

  lemma NoneJoined(p: Proposition, q: Proposition)
    ensures Combinations([], p, q) && Joined([]) == TRUTH && Normal(TRUTH)
  {
  }

  lemma CombinationsSnoc(ps: seq<Proposition>, ith: Proposition, p: Proposition, q: Proposition)
    requires Combinations(ps, p, q) && |ps| < |p.conjuncts| && CombinationOf(ith, p.conjuncts[|ps|], q)
    ensures Combinations(ps + [ith], p, q)
  {
    hide CombinationOf;
  }

  lemma JoinedSnoc(ps: seq<Proposition>, ith: Proposition)
    ensures Joined(ps + [ith]) == if ps == [] then ith else OrTotal(Joined(ps), ith)
  {
    hide OrTotal;
    assert (ps + [ith])[..|ps|] == ps;
  }

  lemma OrTotalIsOr(p: Proposition, q: Proposition)
    requires Normal(p) && Normal(q)
    ensures OrTotal(p, q) == OrOf(p, q)
  {
    hide Normal, OrOf;
  }

  lemma CombinationNormal(r: Proposition, c: seq<Equality>, q: Proposition)
    requires CombinationOf(r, c, q)
    ensures Normal(r)
  {
    hide Normal, Meaning, AllHold, Combinable, CombinedWith;
  }

  lemma JoinedAll(ps: seq<Proposition>, p: Proposition, q: Proposition)
    requires !IsTrue(p) && !IsFalse(p) && Combinations(ps, p, q) && |ps| == |p.conjuncts|
    ensures Normal(Joined(ps))
    ensures IsConjunction(Joined(ps), p, q) || (Valid(p) && Valid(q))
    ensures IsConjunction(Joined(ps), p, q) <==> Lost(ps) == 0 || RestValid(p, Lost(ps))
    ensures Distributes(p, q) ==> Joined(ps) == AndFrom(p, q, |p.conjuncts|)
  {
    hide AllHold, AnyHold, Normal, Combinations, Joined, Lost, Distributes;
    JoinedMeans(ps, p, q);
    assert p.conjuncts[0..|ps|] == p.conjuncts;
    assert p.conjuncts[Lost(ps)..|ps|] == p.conjuncts[Lost(ps)..];
    if Distributes(p, q) {
      JoinedFrom(ps, p, q);
    }
  }

  /**
   * The conjunction of two propositions, by distributing one over the clauses of the other.  This
   * means what it should unless, and only unless, some clauses are lost as the combinations ps are
   * joined and those which remain do not hold whatever the assignment; which takes two operands which
   * do.
   */
  method And(p: Proposition, q: Proposition) returns (r: Proposition, ghost ps: seq<Proposition>)
    requires Normal(p) && Normal(q)
    ensures Normal(r) && Combinations(ps, p, q)
    ensures !IsTrue(p) && !IsFalse(p) && !IsTrue(q) && !IsFalse(q) ==> |ps| == |p.conjuncts| && r == Joined(ps)
    ensures IsConjunction(r, p, q) || (Valid(p) && Valid(q))
    ensures IsConjunction(r, p, q) <==> Lost(ps) == 0 || RestValid(p, Lost(ps))
    ensures Distributes(p, q) ==> r == AndFrom(p, q, |p.conjuncts|)
  {
    ps := [];
    if IsFalse(p) || IsFalse(q) {
      r := FALSEHOOD;
      return;
    } else if IsTrue(p) {
      r := q;
      return;
    } else if IsTrue(q) {
      r := p;
      return;
    }
    hide *;
    ClausesGood(p);
    NoneJoined(p, q);
    r := TRUTH;
    for i := 0 to |p.conjuncts|
      invariant |ps| == i && Combinations(ps, p, q) && r == Joined(ps) && Normal(r)
    {
      var ith := AndConjunctProposition(p.conjuncts[i], q);
      CombinationNormal(ith, p.conjuncts[i], q);
      CombinationsSnoc(ps, ith, p, q);
      JoinedSnoc(ps, ith);
      OrTotalIsOr(r, ith);
      if i == 0 {
        r := ith;
      } else {
        r := Or(r, ith);
      }
      ps := ps + [ith];
    }
    JoinedAll(ps, p, q);
  }

  // ---------------------------------------------------------------------------
  // Negation
  // ---------------------------------------------------------------------------

  /** The proposition which consists of a single atom. */
  function NewProposition(a: Equality): Proposition {
    if Is(a, true) then TRUTH
    else if Is(a, false) then FALSEHOOD
    else Proposition([[a]])
  }

  lemma NewPropositionSound(a: Equality)
    requires WellFormed(a)
    ensures Normal(NewProposition(a))
    ensures forall env: Env :: Meaning(NewProposition(a), env) <==> Holds(a, env)
  {
    if Proper(a) {
      var env: Env := (v: nat) => if a.right == Var(v) then 1 else if a.right.Const? && a.sign then a.right.value
                           else if a.right.Const? then a.right.value + 1
                           else if v == a.left && !a.sign then 0 else 1;
      assert Holds(a, env) by {
        assert a.right.Var? && a.sign ==> env(a.left) == 1 && env(a.right.id) == 1;
      }
      assert AllHold([a], env);
      assert forall env: Env :: AllHold([a], env) <==> Holds(a, env);
      assert forall c :: c in [[a]] <==> c == [a];
      assert [] !in [[a]];
    }
  }

  lemma AllHoldSnoc(c: seq<Equality>, i: nat)
    requires i < |c|
    ensures forall env: Env :: AllHold(c[..i + 1], env) <==> AllHold(c[..i], env) && Holds(c[i], env)
    ensures forall env: Env :: AllHold(c, env) ==> AllHold(c[..i], env) && Holds(c[i], env)
    ensures forall env: Env :: AllHold(c[..0], env)
  {
    assert c[..i + 1] == c[..i] + [c[i]];
    assert c[i] in c;
  }

  /** The negation of a clause is the disjunction of its negated atoms. */
  method NegateConjunct(c: seq<Equality>) returns (r: Proposition)
    requires Good(c) && c != []
    ensures Normal(r)
    ensures forall env: Env :: Meaning(r, env) <==> !AllHold(c, env)
  {
    ghost var witnessed: Env :| AllHold(c, witnessed);
    hide Meaning, Normal, AllHold;
    r := TRUTH;
    for i := 0 to |c|
      invariant i > 0 ==> Normal(r)
      invariant i > 0 ==> forall env: Env :: Meaning(r, env) <==> !AllHold(c[..i], env)
    {
      assert c[i] in c && WellFormed(Negate(c[i]));
      var ith := NewProposition(Negate(c[i]));
      NewPropositionSound(Negate(c[i]));
      AllHoldSnoc(c, i);
      assert forall env: Env :: Meaning(ith, env) <==> !Holds(c[i], env);
      if i == 0 {
        r := ith;
      } else {
        assert !CoverAll(r, ith) by {
          assert !Meaning(r, witnessed) && !Meaning(ith, witnessed);
        }
        r := Or(r, ith);
      }
    }
    assert c[..|c|] == c;
  }

  /** Negation always means what it should. */
  method NegateProposition(p: Proposition) returns (r: Proposition)
    requires Normal(p)
    ensures Normal(r)
    ensures forall env: Env :: Meaning(r, env) <==> !Meaning(p, env)
  {
    if IsTrue(p) {
      return FALSEHOOD;
    } else if IsFalse(p) {
      return TRUTH;
    }
    hide AllHold, Good, AnyHold;
    r := TRUTH;
    for i := 0 to |p.conjuncts|
      invariant i == 0 ==> r == TRUTH
      invariant Normal(r)
      invariant forall env: Env :: Meaning(r, env) <==> !AnyHold(p.conjuncts[..i], env)
    {
      var d := p.conjuncts[i];
      assert d in p.conjuncts;
      var ith := NegateConjunct(d);
      AnyHoldSnoc(p.conjuncts[..i], d);
      assert p.conjuncts[..i + 1] == p.conjuncts[..i] + [d];
      if i == 0 {
        r := ith;
      } else {
        ClauseRefuted(d, ith);
        ghost var ps;
        r, ps := And(r, ith);
      }
    }
    assert p.conjuncts[..|p.conjuncts|] == p.conjuncts;
  }

  lemma ClauseRefuted(c: seq<Equality>, r: Proposition)
    requires Good(c) && forall env: Env :: Meaning(r, env) <==> !AllHold(c, env)
    ensures !Valid(r)
  {
    var env: Env :| AllHold(c, env);
    assert !Meaning(r, env);
  }
}
