// A conjunction of propositions which both hold whatever the assignment, and which is simplified to falsehood.
module AndCollapse {
  import opened Options
  import opened SortedSets
  import opened Equalities
  import opened Conjunctions
  import opened DnfSimplification
  import opened UnitConsensus
  import opened Propositions
  import opened OrCollapse

  const ONE := Proposition([[R], [NOT_R]])
  const OTHER := Proposition([[P], [Q], [NOT_Q], [NOT_P, NOT_R]])

  // The clauses of the latter combined with either clause of the former, and all of these together.
  const FIRST := [[P, R], [Q, R], [R, NOT_Q]]
  const SECOND := [[P, NOT_R], [Q, NOT_R], [NOT_P, NOT_R], [NOT_Q, NOT_R]]
  const BOTH := [[P, R], [P, NOT_R], [Q, R], [Q, NOT_R], [R, NOT_Q], [NOT_P, NOT_R], [NOT_Q, NOT_R]]

  // How they go through the second pass.
  const REDUCED := [[P], [Q, R], [Q, NOT_R], [R, NOT_Q], [NOT_P, NOT_R], [NOT_Q, NOT_R]]
  const LINE0 := [[P], [Q, R], [Q, NOT_R], [R, NOT_Q], [NOT_R], [NOT_Q, NOT_R]]
  const LINE1 := [[P], [Q], [Q, NOT_R], [R, NOT_Q], [NOT_R], [NOT_R]]
  const LINE2 := [[P], [Q], [NOT_R], [R, NOT_Q], [NOT_R], [NOT_R]]
  const LINE3 := [[P], [Q], [NOT_R], [NOT_Q], [NOT_R], [NOT_R]]
  const LEFTOVER := [[P], [], [NOT_R], [NOT_R], [NOT_R]]

  // ---------------------------------------------------------------------------
  // The operands, and what they are combined to
  // ---------------------------------------------------------------------------

  lemma AtomsGood()
    ensures Good([P]) && Good([Q]) && Good([R]) && Good([NOT_Q]) && Good([NOT_R])
  {
    UnitGood([P], P);
    UnitGood([Q], Q);
    UnitGood([R], R);
    UnitGood([NOT_Q], NOT_Q);
    UnitGood([NOT_R], NOT_R);
  }

  lemma BothSorted()
    ensures Sorted(CmpClause, BOTH)
  {
    forall i, j | 0 <= i < j < |BOTH| ensures CmpClause(BOTH[i], BOTH[j]) < 0 {
      var c, d := BOTH[i], BOTH[j];
      assert c == [c[0], c[1]] && d == [d[0], d[1]];
      ComparePairs(c[0], c[1], d[0], d[1]);
    }
  }

  lemma BothGood()
    ensures AllGood(BOTH) && forall c :: c in BOTH ==> |c| == 2
  {
    PairGood([P, R], P, R);
    PairGood([P, NOT_R], P, NOT_R);
    PairGood([Q, R], Q, R);
    PairGood([Q, NOT_R], Q, NOT_R);
    PairGood([R, NOT_Q], R, NOT_Q);
    PairGood([NOT_P, NOT_R], NOT_P, NOT_R);
    PairGood([NOT_Q, NOT_R], NOT_Q, NOT_R);
    hide Good;
    forall c | c in BOTH ensures Good(c) && |c| == 2 {
      var i :| 0 <= i < 7 && BOTH[i] == c;
    }
  }

  lemma CompareUnits(a: Equality, b: Equality)
    ensures CmpClause([a], [b]) == Cmp(a, b)
  {
    assert [a][1..] == [] && [b][1..] == [];
    assert CompareElements(Cmp, [a], [b]) ==
           if Cmp(a, b) != 0 then Cmp(a, b) else CompareElements(Cmp, [a][1..], [b][1..]);
  }

  lemma OperandsNormal()
    ensures Normal(ONE) && Normal(OTHER)
  {
    AtomsGood();
    PairGood([NOT_P, NOT_R], NOT_P, NOT_R);
    hide Good;
    CompareUnits(R, NOT_R);
    CompareUnits(P, Q);
    CompareUnits(P, NOT_Q);
    CompareUnits(Q, NOT_Q);
    forall c | c in ONE.conjuncts ensures Good(c) && c != [] {
      var i :| 0 <= i < 2 && ONE.conjuncts[i] == c;
    }
    forall c | c in OTHER.conjuncts ensures Good(c) && c != [] {
      var i :| 0 <= i < 4 && OTHER.conjuncts[i] == c;
    }
    assert Sorted(CmpClause, ONE.conjuncts);
    forall i, j | 0 <= i < j < 4 ensures CmpClause(OTHER.conjuncts[i], OTHER.conjuncts[j]) < 0 {
      var c, d := OTHER.conjuncts[i], OTHER.conjuncts[j];
    }
  }

  /** Both hold whatever values the variables take. */
  lemma OperandsValid()
    ensures Valid(ONE) && Valid(OTHER)
  {
    forall env: Env ensures Meaning(ONE, env) && Meaning(OTHER, env) {
      if env(2) == 0 {
        assert ONE.conjuncts[0] in ONE.conjuncts && AllHold(ONE.conjuncts[0], env);
      } else {
        assert ONE.conjuncts[1] in ONE.conjuncts && AllHold(ONE.conjuncts[1], env);
      }
      if env(1) == 0 {
        assert OTHER.conjuncts[1] in OTHER.conjuncts && AllHold(OTHER.conjuncts[1], env);
      } else {
        assert OTHER.conjuncts[2] in OTHER.conjuncts && AllHold(OTHER.conjuncts[2], env);
      }
    }
  }

  // Two atoms about different variables are combined as they are.
  lemma CombinedAtoms(a: Equality, b: Equality)
    requires Proper(a) && Proper(b) && Cmp(a, b) < 0 && a.left != b.left && a.right.Const? && b.right.Const?
    ensures InsertAll(Cmp, [a], [b]) == [a, b] && InsertAll(Cmp, [b], [a]) == [a, b]
    ensures Closed([a, b]) && Satisfiable([a, b])
  {
    PairGood([a, b], a, b);
    CmpIsOrder();
    InsertAllSorts(Cmp, [a], [b]);
    InsertAllSorts(Cmp, [b], [a]);
    SortedUnique(Cmp, InsertAll(Cmp, [a], [b]), [a, b]);
    SortedUnique(Cmp, InsertAll(Cmp, [b], [a]), [a, b]);
  }

  lemma CombinedPair()
    ensures !Satisfiable(InsertAll(Cmp, [R], [NOT_P, NOT_R]))
    ensures InsertAll(Cmp, [NOT_R], [NOT_P, NOT_R]) == [NOT_P, NOT_R]
    ensures Closed([NOT_P, NOT_R]) && Satisfiable([NOT_P, NOT_R])
  {
    PairGood([NOT_P, NOT_R], NOT_P, NOT_R);
    CmpIsOrder();
    InsertAllSorts(Cmp, [R], [NOT_P, NOT_R]);
    InsertAllSorts(Cmp, [NOT_R], [NOT_P, NOT_R]);
    SortedUnique(Cmp, InsertAll(Cmp, [NOT_R], [NOT_P, NOT_R]), [NOT_P, NOT_R]);
    var m := InsertAll(Cmp, [R], [NOT_P, NOT_R]);
    assert R in m && NOT_R in m;
  }

  // Inserting a clause yields any sorted list with the right elements.
  lemma Inserted(cs: seq<seq<Equality>>, c: seq<Equality>, ds: seq<seq<Equality>>)
    requires Sorted(CmpClause, cs) && Sorted(CmpClause, ds) && forall d :: d in ds <==> d in cs || d == c
    ensures Insert(CmpClause, cs, c) == ds
  {
    ClauseInserted(cs, c);
    CmpClauseIsOrder();
    hide Sorted, Insert;
    SortedUnique(CmpClause, Insert(CmpClause, cs, c), ds);
  }

  lemma CombinedNext(c: seq<Equality>, ds: seq<seq<Equality>>, n: nat, before: seq<seq<Equality>>)
    requires n < |ds| && Combined(c, ds[..n]) == before
    ensures var m := InsertAll(Cmp, c, ds[n]);
            Combined(c, ds[..n + 1]) == if Satisfiable(m) then Insert(CmpClause, before, m) else before
  {
    assert ds[..n + 1][..n] == ds[..n];
  }

  lemma PartSorted(cs: seq<seq<Equality>>, ks: seq<nat>)
    requires Sorted(CmpClause, cs) && (forall i :: 0 <= i < |ks| ==> ks[i] < |cs|)
    requires forall i, j :: 0 <= i < j < |ks| ==> ks[i] < ks[j]
    ensures Sorted(CmpClause, seq(|ks|, i requires 0 <= i < |ks| => cs[ks[i]]))
  {
  }

  lemma NothingCombined(c: seq<Equality>, ds: seq<seq<Equality>>)
    ensures Combined(c, ds[..0]) == []
  {
  }

  // A clause is combined with another one, and put where it belongs.
  lemma CombineNext(
    c: seq<Equality>, ds: seq<seq<Equality>>, n: nat, before: seq<seq<Equality>>, m: seq<Equality>,
    after: seq<seq<Equality>>)
    requires n < |ds| && Combined(c, ds[..n]) == before
    requires InsertAll(Cmp, c, ds[n]) == m && Satisfiable(m)
    requires Sorted(CmpClause, before) && Sorted(CmpClause, after) && forall d :: d in after <==> d in before || d == m
    ensures Combined(c, ds[..n + 1]) == after
  {
    hide *;
    CombinedNext(c, ds, n, before);
    Inserted(before, m, after);
  }

  lemma FourCombinable(c: seq<Equality>, ds: seq<seq<Equality>>)
    requires |ds| == 4
    requires forall i :: 0 <= i < 4 ==>
               Closed(InsertAll(Cmp, c, ds[i])) || !Satisfiable(InsertAll(Cmp, c, ds[i]))
    ensures Combinable(c, ds)
  {
    hide InsertAll, Closed, Satisfiable;
  }

  lemma FirstSorted()
    ensures Sorted(CmpClause, []) && Sorted(CmpClause, [[P, R]]) && Sorted(CmpClause, [[P, R], [Q, R]])
    ensures Sorted(CmpClause, FIRST)
  {
    BothSorted();
    PartSorted(BOTH, [0, 2, 4]);
    hide Sorted;
    assert seq(3, i requires 0 <= i < 3 => BOTH[[0, 2, 4][i]]) == FIRST;
    SortedPart(FIRST, 0, 0);
    SortedPart(FIRST, 0, 1);
    SortedPart(FIRST, 0, 2);
    assert FIRST[0..0] == [] && FIRST[0..1] == [[P, R]] && FIRST[0..2] == [[P, R], [Q, R]];
  }

  lemma FirstCombined()
    ensures Combinable([R], OTHER.conjuncts) && Combined([R], OTHER.conjuncts) == FIRST
  {
    var ds := OTHER.conjuncts;
    CombinedAtoms(P, R);
    CombinedAtoms(Q, R);
    CombinedAtoms(R, NOT_Q);
    CombinedPair();
    FirstSorted();
    hide *;
    FourCombinable([R], ds);
    NothingCombined([R], ds);
    CombineNext([R], ds, 0, [], [P, R], [[P, R]]);
    CombineNext([R], ds, 1, [[P, R]], [Q, R], [[P, R], [Q, R]]);
    CombineNext([R], ds, 2, [[P, R], [Q, R]], [R, NOT_Q], FIRST);
    CombinedNext([R], ds, 3, FIRST);
    assert ds[..4] == ds;
  }

  const MOST := [[P, NOT_R], [Q, NOT_R], [NOT_Q, NOT_R]]

  lemma SecondSorted()
    ensures Sorted(CmpClause, []) && Sorted(CmpClause, [[P, NOT_R]]) && Sorted(CmpClause, [[P, NOT_R], [Q, NOT_R]])
    ensures Sorted(CmpClause, MOST) && Sorted(CmpClause, SECOND)
  {
    BothSorted();
    PartSorted(BOTH, [1, 3, 5, 6]);
    PartSorted(BOTH, [1, 3, 6]);
    hide Sorted;
    assert seq(4, i requires 0 <= i < 4 => BOTH[[1, 3, 5, 6][i]]) == SECOND;
    assert seq(3, i requires 0 <= i < 3 => BOTH[[1, 3, 6][i]]) == MOST;
    SortedPart(MOST, 0, 0);
    SortedPart(MOST, 0, 1);
    SortedPart(MOST, 0, 2);
    assert MOST[0..0] == [] && MOST[0..1] == [[P, NOT_R]] && MOST[0..2] == [[P, NOT_R], [Q, NOT_R]];
  }

  lemma SecondCombined()
    ensures Combinable([NOT_R], OTHER.conjuncts) && Combined([NOT_R], OTHER.conjuncts) == SECOND
  {
    var ds := OTHER.conjuncts;
    CombinedAtoms(P, NOT_R);
    CombinedAtoms(Q, NOT_R);
    CombinedAtoms(NOT_Q, NOT_R);
    CombinedPair();
    SecondSorted();
    hide *;
    FourCombinable([NOT_R], ds);
    NothingCombined([NOT_R], ds);
    CombineNext([NOT_R], ds, 0, [], [P, NOT_R], [[P, NOT_R]]);
    CombineNext([NOT_R], ds, 1, [[P, NOT_R]], [Q, NOT_R], [[P, NOT_R], [Q, NOT_R]]);
    CombineNext([NOT_R], ds, 2, [[P, NOT_R], [Q, NOT_R]], [NOT_Q, NOT_R], MOST);
    CombineNext([NOT_R], ds, 3, MOST, [NOT_P, NOT_R], SECOND);
    assert ds[..4] == ds;
  }

  // ---------------------------------------------------------------------------
  // Their disjunction
  // ---------------------------------------------------------------------------

  /** The first step of consensus, which is sound. */
  lemma FirstResolved()
    ensures Consensus(BOTH, 0, 1) == Some(REDUCED)
  {
    SurplusOfPair(P, R, [P, NOT_R]);
    WithoutFirst(R, P);
    hide Surplus;
    assert Negate(R) == NOT_R && NOT_R in [P, NOT_R] && [R][0] == R;
    assert Resolvent([P, R], [P, NOT_R]) == Some([P]);
    hide Resolvent;
    assert (BOTH[..1] + BOTH[2..])[0 := [P]] == REDUCED;
  }

  lemma ReducedGood()
    ensures AllGood(REDUCED) && AllGood(LEFTOVER)
  {
    AtomsGood();
    BothGood();
    assert Good([]) by {
      assert AllHold([], (v: nat) => 0);
    }
    hide Good;
    assert BOTH[2] in BOTH && BOTH[3] in BOTH && BOTH[4] in BOTH && BOTH[5] in BOTH && BOTH[6] in BOTH;
    forall c | c in REDUCED ensures Good(c) {
      var i :| 0 <= i < 6 && REDUCED[i] == c;
    }
    forall c | c in LEFTOVER ensures Good(c) {
      var i :| 0 <= i < 5 && LEFTOVER[i] == c;
    }
  }

  // Equal clauses are left alone.
  lemma Equals(cs: seq<seq<Equality>>, i: nat, j: nat, changed: bool, a: Equality)
    requires i < j < |cs| && cs[i] == cs[j] == [a]
    ensures Pass(cs, i, j, changed) == Pass(cs, i, j + 1, changed)
  {
    Visit(cs, i, j, changed, cs[i], cs[j]);
    assert cs[i := cs[i]][j := cs[j]] == cs;
  }

  // A unit clause removes the negation of its atom from a pair.
  lemma UnitAndPair(u: Equality, v: Equality, c: seq<Equality>)
    requires c == [v, Negate(u)] || c == [Negate(u), v]
    requires v != Negate(u)
    ensures PairOf([u], c) == ([u], [v]) && PairOf(c, [u]) == ([v], [u])
    ensures PairChanges([u], c) && PairChanges(c, [u]) && !Complementary([u], c) && !Complementary(c, [u])
  {
    WithoutFirst(Negate(u), v);
    WithoutFirst(v, Negate(u));
    assert Negate(u) in c && |c| == 2;
    assert Propagated([u], c) == ([u], [v]);
    assert Propagated(c, [u]) == ([v], [u]);
    assert Implies([u], [v]) <==> u == v by { assert u in [u]; }
    assert Implies([v], [u]) <==> u == v by { assert v in [v]; }
  }

  lemma Line0()
    ensures Pass(REDUCED, 0, 1, false) == Pass(LINE0, 1, 2, true)
  {
    assert P in [P] && Q in [Q, R] && Q in [Q, NOT_R] && R in [R, NOT_Q] && NOT_Q in [NOT_Q, NOT_R];
    Unrelated(REDUCED, 0, 1, false);
    Unrelated(REDUCED, 0, 2, false);
    Unrelated(REDUCED, 0, 3, false);
    UnitAndPair(P, NOT_R, [NOT_P, NOT_R]);
    Visit(REDUCED, 0, 4, false, [P], [NOT_R]);
    assert REDUCED[0 := [P]][4 := [NOT_R]] == LINE0;
    Unrelated(LINE0, 0, 5, true);
    assert Pass(LINE0, 0, 6, true) == Pass(LINE0, 1, 2, true);
  }

  lemma Line1()
    ensures Pass(LINE0, 1, 2, true) == Pass(LINE1, 2, 3, true)
  {
    assert R in [Q, R] && NOT_R in [Q, NOT_R] && Q in [Q, R] && R in [R, NOT_Q] && NOT_Q in [R, NOT_Q];
    Unrelated(LINE0, 1, 2, true);
    Unrelated(LINE0, 1, 3, true);
    UnitAndPair(NOT_R, Q, [Q, R]);
    Visit(LINE0, 1, 4, true, [Q], [NOT_R]);
    var mid := LINE0[1 := [Q]][4 := [NOT_R]];
    UnitAndPair(Q, NOT_R, [NOT_Q, NOT_R]);
    Visit(mid, 1, 5, true, [Q], [NOT_R]);
    assert mid[1 := [Q]][5 := [NOT_R]] == LINE1;
    assert Pass(LINE1, 1, 6, true) == Pass(LINE1, 2, 3, true);
  }

  lemma Line2()
    ensures Pass(LINE1, 2, 3, true) == Pass(LINE2, 3, 4, true)
  {
    assert Q in [Q, NOT_R] && NOT_R in [Q, NOT_R] && R in [R, NOT_Q];
    Unrelated(LINE1, 2, 3, true);
    Visit(LINE1, 2, 4, true, [NOT_R], [NOT_R]);
    assert LINE1[2 := [NOT_R]][4 := [NOT_R]] == LINE2;
    Equals(LINE2, 2, 5, true, NOT_R);
    assert Pass(LINE2, 2, 6, true) == Pass(LINE2, 3, 4, true);
  }

  lemma Line3()
    ensures Pass(LINE2, 3, 4, true) == Clauses(LINE3, true)
  {
    assert NOT_Q in [NOT_Q] && NOT_R in [NOT_R];
    UnitAndPair(NOT_R, NOT_Q, [R, NOT_Q]);
    Visit(LINE2, 3, 4, true, [NOT_Q], [NOT_R]);
    assert LINE2[3 := [NOT_Q]][4 := [NOT_R]] == LINE3;
    Unrelated(LINE3, 3, 5, true);
    assert Pass(LINE3, 3, 6, true) == Pass(LINE3, 4, 5, true);
    Equals(LINE3, 4, 5, true, NOT_R);
    assert Pass(LINE3, 4, 6, true) == Pass(LINE3, 5, 6, true);
    assert Pass(LINE3, 5, 6, true) == Pass(LINE3, 6, 7, true);
  }

  /** The second step of consensus, which is not. */
  lemma SecondResolved()
    ensures Consensus(LINE3, 0, 1) == Some(LEFTOVER)
  {
    ResolventOfUnits(P, Q);
    ResolventOfUnits(P, NOT_R);
    ResolventOfUnits(P, NOT_Q);
    ResolventOfUnits(Q, NOT_R);
    ResolventOfUnits(Q, NOT_Q);
    hide Resolvent;
    assert Consensus(LINE3, 0, 1) == Consensus(LINE3, 0, 2) == Consensus(LINE3, 0, 3);
    assert Consensus(LINE3, 0, 3) == Consensus(LINE3, 0, 4) == Consensus(LINE3, 0, 5);
    assert Consensus(LINE3, 0, 5) == Consensus(LINE3, 0, 6) == Consensus(LINE3, 1, 2) == Consensus(LINE3, 1, 3);
    assert (LINE3[..3] + LINE3[4..])[1 := []] == LEFTOVER;
  }

  lemma LeftoverPass()
    ensures Pass(LEFTOVER, 0, 1, false) == Clauses([[], [], [], [], []], false) && AllEmpty([[], [], [], [], []])
  {
    EmptySubsumes(P);
    EmptySubsumes(NOT_R);
    hide PairOf;
    Visit(LEFTOVER, 0, 1, false, [], []);
    var mid: seq<seq<Equality>> := [[], [], [NOT_R], [NOT_R], [NOT_R]];
    assert LEFTOVER[0 := []][1 := []] == mid;
    Visit(mid, 0, 2, false, [], []);
    var late: seq<seq<Equality>> := [[], [], [], [NOT_R], [NOT_R]];
    assert mid[0 := []][2 := []] == late;
    Visit(late, 0, 3, false, [], []);
    var last: seq<seq<Equality>> := [[], [], [], [], [NOT_R]];
    assert late[0 := []][3 := []] == last;
    Visit(last, 0, 4, false, [], []);
    var empty: seq<seq<Equality>> := [[], [], [], [], []];
    assert last[0 := []][4 := []] == empty;
    EmptyPass(empty, 0, 5, false);
  }

  lemma ReducedPass()
    ensures Pass(BOTH, 0, 1, false) == Clauses(BOTH, false) && Pass(REDUCED, 0, 1, false) == Clauses(LINE3, true)
  {
    BothGood();
    BothSorted();
    SortedMeansDistinct(BOTH);
    PairsSettled(BOTH, 0, 1);
    hide *;
    Line0();
    Line1();
    Line2();
    Line3();
  }

  // One step of simplification, in which consensus applies.
  lemma ResolvedOnce(cs: seq<seq<Equality>>, ds: seq<seq<Equality>>, changed: bool, es: seq<seq<Equality>>)
    requires AllGood(cs) && AllGood(es) && Pass(cs, 0, 1, false) == Clauses(ds, changed)
    requires Consensus(ds, 0, 1) == Some(es)
    ensures Simplified(cs) == Simplified(es)
  {
    hide Pass, Consensus, Good;
  }

  lemma Settled(cs: seq<seq<Equality>>, ds: seq<seq<Equality>>)
    requires AllGood(cs) && Pass(cs, 0, 1, false) == Clauses(ds, false) && AllEmpty(ds)
    ensures Simplified(cs) == Some(ds)
  {
    EmptyPass(ds, 0, 1, false);
    hide Pass, Consensus, Good;
  }

  lemma BothSimplified()
    ensures AllGood(BOTH) && Simplified(BOTH) == Some([[], [], [], [], []])
  {
    hide *;
    BothGood();
    ReducedGood();
    ReducedPass();
    FirstResolved();
    SecondResolved();
    LeftoverPass();
    ResolvedOnce(BOTH, BOTH, false, REDUCED);
    ResolvedOnce(REDUCED, LINE3, true, LEFTOVER);
    Settled(LEFTOVER, [[], [], [], [], []]);
  }

  lemma PartsGood()
    ensures AllGood(FIRST) && AllGood(SECOND) && [] !in FIRST && [] !in SECOND
    ensures forall c :: c in BOTH <==> c in FIRST || c in SECOND
  {
    BothGood();
    hide Good;
    assert FIRST == [BOTH[0], BOTH[2], BOTH[4]] && SECOND == [BOTH[1], BOTH[3], BOTH[5], BOTH[6]];
    forall c | c in FIRST || c in SECOND ensures c in BOTH {
      assert c == BOTH[0] || c == BOTH[1] || c == BOTH[2] || c == BOTH[3] ||
             c == BOTH[4] || c == BOTH[5] || c == BOTH[6];
    }
    forall c | c in BOTH ensures c in FIRST || c in SECOND {
      var i :| 0 <= i < 7 && BOTH[i] == c;
      assert c == FIRST[0] || c == FIRST[1] || c == FIRST[2] ||
             c == SECOND[0] || c == SECOND[1] || c == SECOND[2] || c == SECOND[3];
    }
  }

  lemma PartsOfBoth()
    ensures Normal(Proposition(FIRST)) && Normal(Proposition(SECOND))
    ensures InsertAll(CmpClause, FIRST, SECOND) == BOTH
  {
    PartsGood();
    BothSorted();
    FirstSorted();
    SecondSorted();
    CmpClauseIsOrder();
    InsertAllSorts(CmpClause, FIRST, SECOND);
    hide Good, Sorted, InsertAll, Cmp;
    SortedUnique(CmpClause, InsertAll(CmpClause, FIRST, SECOND), BOTH);
  }

  /** The conjunction of two propositions which hold whatever the assignment can be simplified to falsehood. */
  lemma AndCollapses()
    ensures Normal(ONE) && Normal(OTHER) && Valid(ONE) && Valid(OTHER)
    ensures Distributes(ONE, OTHER) && AndFrom(ONE, OTHER, |ONE.conjuncts|) == FALSEHOOD
  {
    OperandsNormal();
    OperandsValid();
    FirstCombined();
    SecondCombined();
    PartsOfBoth();
    BothSimplified();
    hide Simplified, Good, Combined, Valid, Combinable, InsertAll, Normal;
    OnlyEmpty([[], [], [], [], []]);
    var p, q := Proposition(FIRST), Proposition(SECOND);
    assert OrOf(p, q) == FALSEHOOD;
    assert CombinedWith([R], OTHER) == p && CombinedWith([NOT_R], OTHER) == q;
    assert AndFrom(ONE, OTHER, 1) == p;
  }
}
