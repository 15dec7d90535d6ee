// A disjunction which holds whatever the assignment, and is nevertheless simplified to falsehood.
module OrCollapse {
  import opened Options
  import opened SortedSets
  import opened Equalities
  import opened Conjunctions
  import opened DnfSimplification
  import opened UnitConsensus
  import opened Propositions

  // P, Q, R and S say that one of four variables is 0, and the others that it is not.
  const P := Equality(true, 0, Const(0))
  const Q := Equality(true, 1, Const(0))
  const R := Equality(true, 2, Const(0))
  const S := Equality(true, 3, Const(0))
  const NOT_P := Equality(false, 0, Const(0))
  const NOT_Q := Equality(false, 1, Const(0))
  const NOT_R := Equality(false, 2, Const(0))
  const NOT_S := Equality(false, 3, Const(0))

  const LEFT := Proposition([[NOT_S]])
  const RIGHT := Proposition([[P, Q], [R, NOT_P], [S, NOT_Q], [S, NOT_R]])

  // The clauses of both, as they go through the first pass.
  const START := [[NOT_S], [P, Q], [R, NOT_P], [S, NOT_Q], [S, NOT_R]]
  const ROW0 := [[NOT_S], [P, Q], [R, NOT_P], [NOT_Q], [NOT_R]]
  const ROW1 := [[NOT_S], [P], [R, NOT_P], [NOT_Q], [NOT_R]]
  const ROW2 := [[NOT_S], [P], [NOT_P], [NOT_Q], [NOT_R]]
  const RESOLVED := [[NOT_S], [], [NOT_Q], [NOT_R]]

  lemma PairGood(c: seq<Equality>, a: Equality, b: Equality)
    requires c == [a, b] && Proper(a) && Proper(b) && Cmp(a, b) < 0 && a.left != b.left
    requires a.right.Const? && b.right.Const?
    ensures Good(c)
  {
    var env: Env := (v: nat) =>
      if v == a.left then (if a.sign then a.right.value else a.right.value + 1)
      else if b.sign then b.right.value else b.right.value + 1;
    assert AllHold(c, env);
  }

  lemma UnitGood(c: seq<Equality>, a: Equality)
    requires c == [a] && Proper(a) && a.right.Const?
    ensures Good(c)
  {
    var env: Env := (v: nat) => if a.sign then a.right.value else a.right.value + 1;
    assert AllHold(c, env);
  }

  lemma ComparePairs(a: Equality, b: Equality, c: Equality, d: Equality)
    ensures CmpClause([a, b], [c, d]) == if Cmp(a, c) != 0 then Cmp(a, c) else Cmp(b, d)
  {
    assert [a, b][1..] == [b] && [c, d][1..] == [d] && [b][1..] == [] && [d][1..] == [];
    assert CompareElements(Cmp, [b], [d]) == Cmp(b, d) by {
      if Cmp(b, d) == 0 {
        assert CompareElements(Cmp, [b][1..], [d][1..]) == 0;
      }
    }
    assert CompareElements(Cmp, [a, b], [c, d]) == if Cmp(a, c) != 0 then Cmp(a, c) else CompareElements(Cmp, [b], [d]);
  }

  lemma StartSorted()
    ensures Sorted(CmpClause, START)
  {
    forall i, j | 0 <= i < j < |START| ensures CmpClause(START[i], START[j]) < 0 {
      var c, d := START[i], START[j];
      if i > 0 {
        assert |c| == 2 && |d| == 2;
        assert c == [c[0], c[1]] && d == [d[0], d[1]];
        ComparePairs(c[0], c[1], d[0], d[1]);
      }
    }
  }

  lemma StartGood()
    ensures AllGood(START) && [] !in START
  {
    UnitGood([NOT_S], NOT_S);
    PairGood([P, Q], P, Q);
    PairGood([R, NOT_P], R, NOT_P);
    PairGood([S, NOT_Q], S, NOT_Q);
    PairGood([S, NOT_R], S, NOT_R);
    hide Good;
    forall c | c in START ensures Good(c) && c != [] {
      var i :| 0 <= i < 5 && START[i] == c;
    }
  }

  lemma PartNormal(cs: seq<seq<Equality>>, i: nat, j: nat)
    requires Sorted(CmpClause, cs) && AllGood(cs) && [] !in cs && i <= j <= |cs|
    ensures Normal(Proposition(cs[i..j]))
  {
    hide Good;
    SortedPart(cs, i, j);
  }

  lemma BothNormal()
    ensures Normal(LEFT) && Normal(RIGHT) && AllGood(START)
  {
    assert LEFT.conjuncts == START[0..1] && RIGHT.conjuncts == START[1..5];
    hide *;
    StartGood();
    StartSorted();
    PartNormal(START, 0, 1);
    PartNormal(START, 1, 5);
  }

  lemma SortedPart(cs: seq<seq<Equality>>, i: nat, j: nat)
    requires Sorted(CmpClause, cs) && i <= j <= |cs|
    ensures Sorted(CmpClause, cs[i..j]) && forall c :: c in cs[i..j] ==> c in cs
  {
  }

  /** Whatever values the variables take, one side holds. */
  lemma BothCoverAll()
    ensures CoverAll(LEFT, RIGHT)
  {
    forall env: Env ensures Meaning(LEFT, env) || Meaning(RIGHT, env) {
      if env(3) != 0 {
        assert [NOT_S] in LEFT.conjuncts && AllHold([NOT_S], env);
      } else if env(1) != 0 {
        assert RIGHT.conjuncts[2] in RIGHT.conjuncts && AllHold(RIGHT.conjuncts[2], env);
      } else if env(2) != 0 {
        assert RIGHT.conjuncts[3] in RIGHT.conjuncts && AllHold(RIGHT.conjuncts[3], env);
      } else if env(0) != 0 {
        assert RIGHT.conjuncts[1] in RIGHT.conjuncts && AllHold(RIGHT.conjuncts[1], env);
      } else {
        assert RIGHT.conjuncts[0] in RIGHT.conjuncts && AllHold(RIGHT.conjuncts[0], env);
      }
    }
  }

  lemma MergedIsStart()
    ensures InsertAll(CmpClause, LEFT.conjuncts, RIGHT.conjuncts) == START
  {
    BothNormal();
    CmpClauseIsOrder();
    assert START == LEFT.conjuncts + RIGHT.conjuncts;
    InsertAllSorts(CmpClause, LEFT.conjuncts, RIGHT.conjuncts);
    StartSorted();
    SortedUnique(CmpClause, InsertAll(CmpClause, LEFT.conjuncts, RIGHT.conjuncts), START);
  }

  // Visiting a pair of clauses.
  lemma Visit(cs: seq<seq<Equality>>, i: nat, j: nat, changed: bool, x: seq<Equality>, y: seq<Equality>)
    requires i < j < |cs| && !Complementary(cs[i], cs[j]) && PairOf(cs[i], cs[j]) == (x, y)
    ensures Pass(cs, i, j, changed) == Pass(cs[i := x][j := y], i, j + 1, changed || PairChanges(cs[i], cs[j]))
  {
  }

  // Clauses which have nothing to do with each other are left alone.
  lemma Unrelated(cs: seq<seq<Equality>>, i: nat, j: nat, changed: bool)
    requires i < j < |cs| && !Complementary(cs[i], cs[j]) && !PairChanges(cs[i], cs[j])
    requires !Implies(cs[i], cs[j]) && !Implies(cs[j], cs[i])
    ensures Pass(cs, i, j, changed) == Pass(cs, i, j + 1, changed)
  {
    Visit(cs, i, j, changed, cs[i], cs[j]);
    assert cs[i := cs[i]][j := cs[j]] == cs;
  }

  lemma WithoutFirst(a: Equality, b: Equality)
    requires a != b
    ensures Without([a, b], a) == [b] && Without([b, a], a) == [b] && Without([a], a) == []
  {
    assert [a, b][1..] == [b] && [b, a][1..] == [a] && [a][1..] == [] && [b][1..] == [];
  }

  lemma FirstRow()
    ensures Pass(START, 0, 1, false) == Pass(ROW0, 1, 2, true)
  {
    assert NOT_S in [NOT_S] && P in [P, Q] && R in [R, NOT_P] && NOT_Q in [NOT_Q] && NOT_R in [NOT_R];
    Unrelated(START, 0, 1, false);
    Unrelated(START, 0, 2, false);
    WithoutFirst(S, NOT_Q);
    WithoutFirst(S, NOT_R);
    Visit(START, 0, 3, false, [NOT_S], [NOT_Q]);
    var mid := START[0 := [NOT_S]][3 := [NOT_Q]];
    Visit(mid, 0, 4, true, [NOT_S], [NOT_R]);
    assert mid[0 := [NOT_S]][4 := [NOT_R]] == ROW0;
  }

  lemma SecondRow()
    ensures Pass(ROW0, 1, 2, true) == Pass(ROW1, 2, 3, true)
  {
    assert P in [P, Q] && R in [R, NOT_P] && P in [P] && NOT_Q in [NOT_Q] && NOT_R in [NOT_R];
    Unrelated(ROW0, 1, 2, true);
    WithoutFirst(Q, P);
    Visit(ROW0, 1, 3, true, [P], [NOT_Q]);
    assert ROW0[1 := [P]][3 := [NOT_Q]] == ROW1;
    Unrelated(ROW1, 1, 4, true);
    assert Pass(ROW1, 1, 5, true) == Pass(ROW1, 2, 3, true);
  }

  lemma ThirdRow()
    ensures Pass(ROW1, 2, 3, true) == Clauses(ROW2, true)
  {
    assert R in [R, NOT_P] && NOT_P in [NOT_P] && NOT_Q in [NOT_Q] && NOT_R in [NOT_R];
    Unrelated(ROW1, 2, 3, true);
    WithoutFirst(R, NOT_P);
    Visit(ROW1, 2, 4, true, [NOT_P], [NOT_R]);
    assert ROW1[2 := [NOT_P]][4 := [NOT_R]] == ROW2;
    Unrelated(ROW2, 3, 4, true);
    assert Pass(ROW2, 2, 5, true) == Pass(ROW2, 3, 4, true) && Pass(ROW2, 3, 5, true) == Pass(ROW2, 4, 5, true);
    assert Pass(ROW2, 4, 5, true) == Pass(ROW2, 5, 6, true);
  }

  lemma ResolventOfUnits(a: Equality, b: Equality)
    ensures Resolvent([a], [b]) == if b == Negate(a) then Some([]) else None
  {
    assert [a][1..] == [];
    assert Surplus([a], [b]) == if a == b then [] else [a];
    if b == Negate(a) {
      assert b in [b];
      WithoutFirst(a, b);
    }
  }

  /** Consensus between the two complementary unit clauses leaves one without atoms. */
  lemma UnitsResolved()
    ensures Consensus(ROW2, 0, 1) == Some(RESOLVED)
  {
    ResolventOfUnits(NOT_S, P);
    ResolventOfUnits(NOT_S, NOT_P);
    ResolventOfUnits(NOT_S, NOT_Q);
    ResolventOfUnits(NOT_S, NOT_R);
    ResolventOfUnits(P, NOT_P);
    hide Resolvent;
    assert Consensus(ROW2, 0, 1) == Consensus(ROW2, 0, 2) == Consensus(ROW2, 0, 3);
    assert Consensus(ROW2, 0, 3) == Consensus(ROW2, 0, 4) == Consensus(ROW2, 0, 5) == Consensus(ROW2, 1, 2);
    assert (ROW2[..2] + ROW2[3..])[1 := []] == RESOLVED;
  }

  lemma ResolvedGood()
    ensures AllGood(RESOLVED)
  {
    UnitGood([NOT_S], NOT_S);
    UnitGood([NOT_Q], NOT_Q);
    UnitGood([NOT_R], NOT_R);
    assert Good([]) by {
      assert AllHold([], (v: nat) => 0);
    }
    hide Good;
    forall c | c in RESOLVED ensures Good(c) {
      var i :| 0 <= i < 4 && RESOLVED[i] == c;
    }
  }

  // A clause without atoms replaces a unit clause.
  lemma EmptySubsumes(a: Equality)
    ensures PairOf([a], []) == ([], []) && PairOf([], [a]) == ([], [])
  {
    assert a in [a];
  }

  lemma ResolvedPass()
    ensures Pass(RESOLVED, 0, 1, false) == Clauses([[], [], [], []], false)
  {
    EmptySubsumes(NOT_S);
    EmptySubsumes(NOT_Q);
    EmptySubsumes(NOT_R);
    hide PairOf;
    Visit(RESOLVED, 0, 1, false, [], []);
    var mid: seq<seq<Equality>> := [[], [], [NOT_Q], [NOT_R]];
    assert RESOLVED[0 := []][1 := []] == mid;
    Visit(mid, 0, 2, false, [], []);
    var late: seq<seq<Equality>> := [[], [], [], [NOT_R]];
    assert mid[0 := []][2 := []] == late;
    Visit(late, 0, 3, false, [], []);
    var empty: seq<seq<Equality>> := [[], [], [], []];
    assert late[0 := []][3 := []] == empty;
    EmptyPass(empty, 1, 2, false);
  }

  /** The clause without atoms then subsumes all others. */
  lemma ResolvedCollapses()
    ensures AllGood(RESOLVED) && Simplified(RESOLVED) == Some([[], [], [], []])
  {
    ResolvedGood();
    ResolvedPass();
    EmptyPass([[], [], [], []], 0, 1, false);
    hide Pass, Consensus, Good;
  }

  /** Disjunction can go wrong: this one holds whatever the assignment, and yet is simplified to falsehood. */
  lemma OrCollapses()
    ensures Normal(LEFT) && Normal(RIGHT) && CoverAll(LEFT, RIGHT) && OrOf(LEFT, RIGHT) == FALSEHOOD
  {
    BothNormal();
    BothCoverAll();
    MergedIsStart();
    FirstRow();
    SecondRow();
    ThirdRow();
    UnitsResolved();
    ResolvedCollapses();
    hide Pass, Consensus, Good, CoverAll, Normal;
    assert Simplified(START) == Simplified(RESOLVED);
    OnlyEmpty([[], [], [], []]);
  }

  // ---------------------------------------------------------------------------
  // The right-hand side is itself a disjunction of clauses
  // ---------------------------------------------------------------------------

  // Sorted clauses of equal length only imply each other if they are the same.
  lemma EqualLengthImplies(c: seq<Equality>, d: seq<Equality>)
    requires Clause(c) && Clause(d) && |c| == |d| && Implies(c, d)
    ensures c == d
  {
    CmpIsOrder();
    SortedDistinct(Cmp, c);
    SameElements(c, d);
    SortedUnique(Cmp, c, d);
  }

  lemma PairUnrelated(c: seq<Equality>, d: seq<Equality>)
    requires Good(c) && Good(d) && |c| == |d| == 2 && c != d
    ensures !Complementary(c, d) && !PairChanges(c, d) && !Implies(c, d) && !Implies(d, c)
  {
    if Implies(c, d) {
      EqualLengthImplies(c, d);
    }
    if Implies(d, c) {
      EqualLengthImplies(d, c);
    }
  }

  /** Different clauses of two atoms each. */
  ghost predicate Pairs(cs: seq<seq<Equality>>) {
    && AllGood(cs) && (forall c :: c in cs ==> |c| == 2)
    && forall k, l :: 0 <= k < l < |cs| ==> cs[k] != cs[l]
  }

  lemma PairsAt(cs: seq<seq<Equality>>, i: nat, j: nat)
    requires i < j < |cs| && Pairs(cs)
    ensures Pass(cs, i, j, false) == Pass(cs, i, j + 1, false)
  {
    hide Good, Complementary, Implies, PairChanges;
    assert cs[i] in cs && cs[j] in cs;
    PairUnrelated(cs[i], cs[j]);
    Unrelated(cs, i, j, false);
  }

  /** These have nothing to do with each other, short of consensus. */
  lemma {:induction false} PairsSettled(cs: seq<seq<Equality>>, i: nat, j: nat)
    requires i < j && Pairs(cs)
    ensures Pass(cs, i, j, false) == Clauses(cs, false)
    decreases |cs| - i, |cs| - j
  {
    hide Pairs;
    if i >= |cs| {
    } else if j >= |cs| {
      PairsSettled(cs, i + 1, i + 2);
    } else {
      hide Pass;
      PairsAt(cs, i, j);
      PairsSettled(cs, i, j + 1);
    }
  }

  predicate NoResolvents(cs: seq<seq<Equality>>) {
    forall i, j :: 0 <= i < j < |cs| ==> Resolvent(cs[i], cs[j]) == None
  }

  lemma {:induction false} NoConsensus(cs: seq<seq<Equality>>, i: nat, j: nat)
    requires i < j && NoResolvents(cs)
    ensures Consensus(cs, i, j) == None
    decreases |cs| - i, |cs| - j
  {
    hide Resolvent, NoResolvents;
    if i < |cs| {
      if j >= |cs| {
        NoConsensus(cs, i + 1, i + 2);
      } else {
        NoResolvent(cs, i, j);
        NoConsensus(cs, i, j + 1);
      }
    }
  }

  lemma NoResolvent(cs: seq<seq<Equality>>, i: nat, j: nat)
    requires i < j < |cs| && NoResolvents(cs)
    ensures Resolvent(cs[i], cs[j]) == None
  {
  }

  lemma SortedMeansDistinct(cs: seq<seq<Equality>>)
    requires Sorted(CmpClause, cs)
    ensures forall k, l :: 0 <= k < l < |cs| ==> cs[k] != cs[l]
  {
    CmpClauseIsOrder();
  }

  lemma PairsSimplified(cs: seq<seq<Equality>>)
    requires Sorted(CmpClause, cs) && AllGood(cs) && (forall c :: c in cs ==> |c| == 2) && NoResolvents(cs)
    ensures Simplified(cs) == Some(cs) && SortedSet(CmpClause, cs) == cs
  {
    SortedMeansDistinct(cs);
    PairsSettled(cs, 0, 1);
    NoConsensus(cs, 0, 1);
    assert [] + cs == cs;
    MergedSorted([], cs);
    hide Good, Pass, Consensus, InsertAll, NoResolvents;
  }

  lemma PartsNormal(p: Proposition, q: Proposition)
    requires var cs := p.conjuncts + q.conjuncts; Sorted(CmpClause, cs) && AllGood(cs) && [] !in cs
    requires p.conjuncts != [] && q.conjuncts != []
    ensures Normal(p) && Normal(q) && !IsTrue(p) && !IsFalse(p) && !IsTrue(q) && !IsFalse(q)
  {
    var cs := p.conjuncts + q.conjuncts;
    assert cs[0..|p.conjuncts|] == p.conjuncts && cs[|p.conjuncts|..|cs|] == q.conjuncts;
    assert p.conjuncts[0] in cs && q.conjuncts[0] in cs;
    hide Sorted, Good;
    PartNormal(cs, 0, |p.conjuncts|);
    PartNormal(cs, |p.conjuncts|, |cs|);
  }

  /** Sorted clauses of two atoms each which cannot be resolved are joined as they are. */
  lemma PairsJoined(p: Proposition, q: Proposition)
    requires var cs := p.conjuncts + q.conjuncts;
      && Sorted(CmpClause, cs) && AllGood(cs) && (forall c :: c in cs ==> |c| == 2) && NoResolvents(cs)
    requires p.conjuncts != [] && q.conjuncts != []
    ensures Normal(p) && Normal(q) && OrOf(p, q) == Proposition(p.conjuncts + q.conjuncts)
  {
    hide Good, Sorted, InsertAll, NoResolvents, SortedSet, Simplified, Normal;
    PartsNormal(p, q);
    PairsSimplified(p.conjuncts + q.conjuncts);
    MergedSorted(p.conjuncts, q.conjuncts);
    MergedGood(p, q);
  }

  // Merging sorted clauses which are sorted one after the other anyway.
  lemma MergedSorted(cs: seq<seq<Equality>>, ds: seq<seq<Equality>>)
    requires Sorted(CmpClause, cs + ds)
    ensures InsertAll(CmpClause, cs, ds) == cs + ds
  {
    CmpClauseIsOrder();
    SortedPart(cs + ds, 0, |cs|);
    assert (cs + ds)[0..|cs|] == cs;
    InsertAllSorts(CmpClause, cs, ds);
    SortedUnique(CmpClause, InsertAll(CmpClause, cs, ds), cs + ds);
  }

  lemma SurplusOfPair(a: Equality, b: Equality, d: seq<Equality>)
    ensures Surplus([a, b], d) == (if a in d then [] else [a]) + (if b in d then [] else [b])
  {
    assert [a, b][1..] == [b] && [b][1..] == [];
    assert Surplus([b], d) == if b in d then [] else [b];
  }

  lemma RightUnresolved()
    ensures NoResolvents(RIGHT.conjuncts)
  {
    var cs := RIGHT.conjuncts;
    forall i, j | 0 <= i < j < |cs| ensures Resolvent(cs[i], cs[j]) == None {
      assert cs[i] == [cs[i][0], cs[i][1]];
      SurplusOfPair(cs[i][0], cs[i][1], cs[j]);
    }
  }

  /** Each step of building up the right-hand side gives just what it should. */
  lemma RightBuilt(n: nat)
    requires 0 < n < |RIGHT.conjuncts|
    ensures var p, q := Proposition(RIGHT.conjuncts[..n]), Proposition([RIGHT.conjuncts[n]]);
            Normal(p) && Normal(q) && OrOf(p, q) == Proposition(RIGHT.conjuncts[..n + 1])
  {
    assert RIGHT.conjuncts == START[1..];
    StartGood();
    StartSorted();
    RightUnresolved();
    hide *;
    var ds := RIGHT.conjuncts;
    PrefixOf(START, ds, n);
    SortedPart(START, 1, n + 2);
    RightPairs();
    NoResolventsPrefix(ds, n + 1);
    assert forall c :: c in ds[..n + 1] ==> c in ds;
    PairsJoined(Proposition(ds[..n]), Proposition([ds[n]]));
  }

  lemma PrefixOf<T>(s: seq<T>, t: seq<T>, n: nat)
    requires s != [] && t == s[1..] && n < |t|
    ensures t[..n + 1] == s[1..n + 2] == t[..n] + [t[n]]
  {
  }

  lemma RightPairs()
    ensures forall c :: c in RIGHT.conjuncts ==> |c| == 2
  {
    forall c | c in RIGHT.conjuncts ensures |c| == 2 {
      var i :| 0 <= i < 4 && RIGHT.conjuncts[i] == c;
    }
  }

  lemma NoResolventsPrefix(cs: seq<seq<Equality>>, n: nat)
    requires NoResolvents(cs) && n <= |cs|
    ensures NoResolvents(cs[..n])
  {
    hide Resolvent;
  }
}
