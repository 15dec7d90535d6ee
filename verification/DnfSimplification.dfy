// Simplifying disjunctions of clauses: unit propagation, subsumption and consensus.
module DnfSimplification {
  import opened Options
  import opened SortedSets
  import opened Equalities
  import opened Conjunctions

  ghost predicate AnyHold(cs: seq<seq<Equality>>, env: Env) {
    exists c :: c in cs && AllHold(c, env)
  }

  /** Clauses as they arise: sorted, without trivial atoms, and not contradictory. */
  ghost predicate Good(c: seq<Equality>) {
    Clause(c) && Satisfiable(c)
  }

  ghost predicate AllGood(cs: seq<seq<Equality>>) {
    forall c :: c in cs ==> Good(c)
  }

  /** Disjunctions with the same meaning. */
  ghost predicate SameDisjunction(cs: seq<seq<Equality>>, ds: seq<seq<Equality>>) {
    forall env: Env :: AnyHold(cs, env) <==> AnyHold(ds, env)
  }

  ghost predicate ValidDisjunction(cs: seq<seq<Equality>>) {
    forall env: Env :: AnyHold(cs, env)
  }

  /** The number of atoms in all clauses. */
  function Count(cs: seq<seq<Equality>>): nat {
    if cs == [] then 0 else |cs[0]| + Count(cs[1..])
  }

  lemma {:induction false} CountUpdate(cs: seq<seq<Equality>>, i: nat, c: seq<Equality>)
    requires i < |cs|
    ensures Count(cs[i := c]) == Count(cs) - |cs[i]| + |c|
  {
    if i == 0 {
      assert cs[i := c][1..] == cs[1..];
    } else {
      CountUpdate(cs[1..], i - 1, c);
      assert cs[i := c][1..] == cs[1..][i - 1 := c];
    }
  }

  lemma {:induction false} CountRemove(cs: seq<seq<Equality>>, j: nat)
    requires j < |cs|
    ensures Count(cs[..j] + cs[j + 1..]) == Count(cs) - |cs[j]|
  {
    if j == 0 {
      assert cs[..0] + cs[1..] == cs[1..];
    } else {
      CountRemove(cs[1..], j - 1);
      assert (cs[..j] + cs[j + 1..])[1..] == cs[1..][..j - 1] + cs[1..][j..];
    }
  }

  // ---------------------------------------------------------------------------
  // Two clauses at a time
  // ---------------------------------------------------------------------------

  /** P or not P */
  predicate Complementary(c: seq<Equality>, d: seq<Equality>) {
    |c| == 1 && |d| == 1 && c[0] == Negate(d[0])
  }

  /** A unit clause can remove the negation of its atom from a longer clause. */
  predicate Propagates(unit: seq<Equality>, d: seq<Equality>) {
    |unit| == 1 && |d| > 1 && Negate(unit[0]) in d
  }

  /** One clause is at least as weak as another when all of its atoms occur in the other. */
  predicate Implies(c: seq<Equality>, d: seq<Equality>) {
    forall a :: a in c ==> a in d
  }

  /** Two clauses after unit propagation between them. */
  function Propagated(c: seq<Equality>, d: seq<Equality>): (seq<Equality>, seq<Equality>) {
    if Propagates(c, d) then (c, Without(d, Negate(c[0])))
    else if Propagates(d, c) then (Without(c, Negate(d[0])), d)
    else (c, d)
  }

  /** Two clauses of which one may have been subsumed by the other. */
  function Subsumed(c: seq<Equality>, d: seq<Equality>): (seq<Equality>, seq<Equality>) {
    if Implies(c, d) && !Implies(d, c) then (c, c)
    else if !Implies(c, d) && Implies(d, c) then (d, d)
    else (c, d)
  }

  predicate PairChanges(c: seq<Equality>, d: seq<Equality>) {
    Propagates(c, d) || Propagates(d, c)
  }

  function PairOf(c: seq<Equality>, d: seq<Equality>): (seq<Equality>, seq<Equality>) {
    var (x, y) := Propagated(c, d);
    Subsumed(x, y)
  }

  lemma WithoutGood(c: seq<Equality>, a: Equality)
    requires Good(c)
    ensures Good(Without(c, a)) && |Without(c, a)| == |c| - (if a in c then 1 else 0)
    ensures forall env: Env :: AllHold(c, env) <==> AllHold(Without(c, a), env) && (a in c ==> Holds(a, env))
  {
    CmpIsOrder();
    SortedDistinct(Cmp, c);
    WithoutMembers(c, a);
    WithoutSorts(Cmp, c, a);
    var env: Env :| AllHold(c, env);
    assert AllHold(Without(c, a), env);
  }

  /** Unit propagation preserves the disjunction of two clauses, and removes an atom when it does anything. */
  lemma PropagatedSound(c: seq<Equality>, d: seq<Equality>)
    requires Good(c) && Good(d)
    ensures var (x, y) := Propagated(c, d);
      && Good(x) && Good(y)
      && |x| + |y| == |c| + |d| - (if PairChanges(c, d) then 1 else 0)
      && (x == [] <==> c == []) && (y == [] <==> d == [])
      && forall env: Env :: AllHold(x, env) || AllHold(y, env) <==> AllHold(c, env) || AllHold(d, env)
  {
    if Propagates(c, d) {
      WithoutGood(d, Negate(c[0]));
    } else if Propagates(d, c) {
      WithoutGood(c, Negate(d[0]));
    }
  }

  lemma SubsumedSound(c: seq<Equality>, d: seq<Equality>)
    requires Good(c) && Good(d)
    ensures var (x, y) := Subsumed(c, d);
      && Good(x) && Good(y) && |x| + |y| <= |c| + |d|
      && (if c == [] || d == [] then x == y == [] else x != [] && y != [])
      && forall env: Env :: AllHold(x, env) || AllHold(y, env) <==> AllHold(c, env) || AllHold(d, env)
  {
    CmpIsOrder();
    SortedDistinct(Cmp, c);
    SortedDistinct(Cmp, d);
    if Implies(c, d) {
      SubsetIsSmaller(c, d);
    }
    if Implies(d, c) {
      SubsetIsSmaller(d, c);
    }
    assert d != [] ==> d[0] in d;
    assert c != [] ==> c[0] in c;
  }

  /** Simplifying a pair of clauses preserves their disjunction, and never adds any atoms. */
  lemma PairSound(c: seq<Equality>, d: seq<Equality>)
    requires Good(c) && Good(d)
    ensures var (x, y) := PairOf(c, d);
      && Good(x) && Good(y)
      && |x| + |y| <= |c| + |d| - (if PairChanges(c, d) then 1 else 0)
      && (if c == [] || d == [] then x == y == [] else x != [] && y != [])
      && forall env: Env :: AllHold(x, env) || AllHold(y, env) <==> AllHold(c, env) || AllHold(d, env)
  {
    PropagatedSound(c, d);
    var (x, y) := Propagated(c, d);
    SubsumedSound(x, y);
  }

  /** The clauses after simplifying the i-th and j-th one. */
  function PairStep(cs: seq<seq<Equality>>, i: nat, j: nat): (ds: seq<seq<Equality>>)
    requires i < j < |cs|
    ensures |ds| == |cs|
  {
    var (x, y) := PairOf(cs[i], cs[j]);
    cs[i := x][j := y]
  }

  lemma PairStepSound(cs: seq<seq<Equality>>, i: nat, j: nat)
    requires i < j < |cs| && AllGood(cs)
    ensures var ds := PairStep(cs, i, j);
      && AllGood(ds) && SameDisjunction(ds, cs)
      && Count(ds) <= Count(cs) - (if PairChanges(cs[i], cs[j]) then 1 else 0)
      && (if cs[i] == [] || cs[j] == [] then ds[i] == ds[j] == [] else ds[i] != [] && ds[j] != [])
  {
    assert cs[i] in cs && cs[j] in cs;
    PairSound(cs[i], cs[j]);
    hide PairOf, Good, AllHold, AnyHold, SameDisjunction;
    var (x, y) := PairOf(cs[i], cs[j]);
    CountUpdate(cs, i, x);
    CountUpdate(cs[i := x], j, y);
    PairStepSame(cs, i, j, x, y);
  }

  lemma PairStepSame(cs: seq<seq<Equality>>, i: nat, j: nat, x: seq<Equality>, y: seq<Equality>)
    requires i < j < |cs|
    requires forall env: Env :: AllHold(x, env) || AllHold(y, env) <==> AllHold(cs[i], env) || AllHold(cs[j], env)
    ensures SameDisjunction(cs[i := x][j := y], cs)
  {
    hide AllHold, AnyHold;
    forall env: Env ensures AnyHold(cs[i := x][j := y], env) <==> AnyHold(cs, env) {
      var ds := cs[i := x][j := y];
      assert ds[i := cs[i]][j := cs[j]] == cs;
      if AnyHold(cs, env) {
        TwoReplaced(cs, i, j, x, y, env);
      }
      if AnyHold(ds, env) {
        TwoReplaced(ds, i, j, cs[i], cs[j], env);
      }
    }
  }

  lemma TwoReplaced(cs: seq<seq<Equality>>, i: nat, j: nat, x: seq<Equality>, y: seq<Equality>, env: Env)
    requires i < j < |cs| && AnyHold(cs, env)
    requires AllHold(x, env) || AllHold(y, env) <==> AllHold(cs[i], env) || AllHold(cs[j], env)
    ensures AnyHold(cs[i := x][j := y], env)
  {
    var ds := cs[i := x][j := y];
    assert ds[i] == x && ds[j] == y;
    var c :| c in cs && AllHold(c, env);
    var k :| 0 <= k < |cs| && cs[k] == c;
    if k == i || k == j {
      assert ds[i] in ds && ds[j] in ds;
    } else {
      assert ds[k] in ds;
    }
  }

  // ---------------------------------------------------------------------------
  // Passes over all pairs
  // ---------------------------------------------------------------------------

  datatype Outcome = Tautology | Clauses(cs: seq<seq<Equality>>, changed: bool)

  /** Simplify all pairs of clauses in turn, starting with the i-th and j-th one. */
  function Pass(cs: seq<seq<Equality>>, i: nat, j: nat, changed: bool): Outcome
    requires i < j
    decreases |cs| - i, |cs| - j
  {
    if i >= |cs| then Clauses(cs, changed)
    else if j >= |cs| then Pass(cs, i + 1, i + 2, changed)
    else if Complementary(cs[i], cs[j]) then Tautology
    else Pass(PairStep(cs, i, j), i, j + 1, changed || PairChanges(cs[i], cs[j]))
  }

  /** A pass either exposes a tautology, or preserves the meaning of the disjunction. */
  lemma {:induction false} PassSound(cs: seq<seq<Equality>>, i: nat, j: nat, changed: bool)
    requires i < j && AllGood(cs)
    ensures match Pass(cs, i, j, changed)
            case Tautology => ValidDisjunction(cs)
            case Clauses(ds, c) =>
              && |ds| == |cs| && AllGood(ds) && SameDisjunction(ds, cs) && Count(ds) <= Count(cs)
              && (changed ==> c) && (c && !changed ==> Count(ds) < Count(cs))
    decreases |cs| - i, |cs| - j
  {
    if i >= |cs| {
    } else if j >= |cs| {
      PassSound(cs, i + 1, i + 2, changed);
    } else if Complementary(cs[i], cs[j]) {
      forall env: Env ensures AnyHold(cs, env) {
        assert cs[i] in cs && cs[j] in cs;
        assert AllHold(if Holds(cs[i][0], env) then cs[i] else cs[j], env);
      }
    } else {
      PairStepSound(cs, i, j);
      PassSound(PairStep(cs, i, j), i, j + 1, changed || PairChanges(cs[i], cs[j]));
    }
  }

  // Pairs of indices visited before the i-th and j-th clause are.
  predicate Visited(k: nat, e: nat, i: nat, j: nat) {
    var (lo, hi) := if k < e then (k, e) else (e, k);
    k != e && (lo < i || (lo == i && hi < j))
  }

  predicate AllEmpty(cs: seq<seq<Equality>>) {
    forall k :: 0 <= k < |cs| ==> cs[k] == []
  }

  /** A clause without atoms subsumes all others. */
  lemma {:induction false} PassSpreads(cs: seq<seq<Equality>>, i: nat, j: nat, changed: bool, e: nat)
    requires i < j && AllGood(cs) && e < |cs| && cs[e] == []
    requires forall k :: 0 <= k < |cs| && Visited(k, e, i, j) ==> cs[k] == []
    ensures var r := Pass(cs, i, j, changed); r.Clauses? ==> AllEmpty(r.cs)
    decreases |cs| - i, |cs| - j
  {
    if i >= |cs| {
      forall k | 0 <= k < |cs| ensures cs[k] == [] {
        assert k == e || Visited(k, e, i, j);
      }
    } else if j >= |cs| {
      PassSpreads(cs, i + 1, i + 2, changed, e);
    } else if Complementary(cs[i], cs[j]) {
      assert Pass(cs, i, j, changed) == Tautology;
    } else {
      PairStepSound(cs, i, j);

      var ds := PairStep(cs, i, j);
      forall k | 0 <= k < |ds| && Visited(k, e, i, j + 1) ensures ds[k] == [] {
        if Visited(k, e, i, j) {
          assert cs[k] == [];
        }
      }
      PassSpreads(ds, i, j + 1, changed || PairChanges(cs[i], cs[j]), e);
    }
  }

  /** Otherwise, no clause without atoms appears. */
  lemma {:induction false} PassKeepsAtoms(cs: seq<seq<Equality>>, i: nat, j: nat, changed: bool)
    requires i < j && AllGood(cs) && [] !in cs
    ensures var r := Pass(cs, i, j, changed); r.Clauses? ==> [] !in r.cs
    decreases |cs| - i, |cs| - j
  {
    if i >= |cs| {
    } else if j >= |cs| {
      PassKeepsAtoms(cs, i + 1, i + 2, changed);
    } else if Complementary(cs[i], cs[j]) {
      assert Pass(cs, i, j, changed) == Tautology;
    } else {
      PairStepSound(cs, i, j);
      assert cs[i] in cs && cs[j] in cs;
      PassKeepsAtoms(PairStep(cs, i, j), i, j + 1, changed || PairChanges(cs[i], cs[j]));
    }
  }

  // ---------------------------------------------------------------------------
  // Consensus
  // ---------------------------------------------------------------------------

  /** The atoms of one clause which are absent from another. */
  function Surplus(c: seq<Equality>, d: seq<Equality>): (r: seq<Equality>)
    ensures forall a :: a in r <==> a in c && a !in d
    ensures |r| <= |c|
  {
    if c == [] then []
    else if c[0] in d then Surplus(c[1..], d)
    else [c[0]] + Surplus(c[1..], d)
  }

  /** What two clauses share, if they agree on all atoms but one which is negated in the other. */
  function Resolvent(c: seq<Equality>, d: seq<Equality>): Option<seq<Equality>> {
    var s := Surplus(c, d);
    if |c| == |d| && |s| == 1 && Negate(s[0]) in d then Some(Without(c, s[0])) else None
  }

  /** Two clauses are together equivalent to their resolvent. */
  lemma ResolventSound(c: seq<Equality>, d: seq<Equality>)
    requires Good(c) && Good(d) && Resolvent(c, d).Some?
    ensures var r := Resolvent(c, d).value;
      && Good(r) && |r| == |c| - 1
      && forall env: Env :: AllHold(r, env) <==> AllHold(c, env) || AllHold(d, env)
  {
    var pivot := Surplus(c, d)[0];
    assert Surplus(c, d) == [pivot];
    WithoutGood(c, pivot);
    WithoutGood(d, Negate(pivot));
    SameRest(c, d, pivot);
    hide Good, Surplus;
    forall env: Env ensures AllHold(Without(c, pivot), env) <==> AllHold(Without(d, Negate(pivot)), env) {
    }
  }

  // Two clauses which differ in one atom agree once it is removed.
  lemma SameRest(c: seq<Equality>, d: seq<Equality>, pivot: Equality)
    requires Good(c) && Good(d) && |c| == |d|
    requires Surplus(c, d) == [pivot] && Negate(pivot) in d
    ensures forall a :: a in Without(c, pivot) <==> a in Without(d, Negate(pivot))
  {
    var r, s := Without(c, pivot), Without(d, Negate(pivot));
    assert pivot in Surplus(c, d);
    assert Negate(pivot) !in c by {
      var env: Env :| AllHold(c, env);
      assert Holds(pivot, env) && !Holds(Negate(pivot), env);
    }
    DistinctRest(c, pivot);
    DistinctRest(d, Negate(pivot));
    forall a | a in r ensures a in s {
      assert a in c && a !in Surplus(c, d);
    }
    SameElements(r, s);
  }

  lemma DistinctRest(c: seq<Equality>, a: Equality)
    requires Clause(c)
    ensures Distinct(Without(c, a)) && |Without(c, a)| == |c| - (if a in c then 1 else 0)
    ensures forall b :: b in Without(c, a) <==> b in c && b != a
  {
    CmpIsOrder();
    SortedDistinct(Cmp, c);
    WithoutMembers(c, a);
    WithoutSorts(Cmp, c, a);
    SortedDistinct(Cmp, Without(c, a));
  }

  /** A list of distinct elements within another of the same length holds the same elements. */
  lemma SameElements(r: seq<Equality>, s: seq<Equality>)
    requires Distinct(r) && |r| == |s| && forall a :: a in r ==> a in s
    ensures forall a :: a in s ==> a in r
  {
    forall a | a in s ensures a in r {
      if a !in r {
        SubsetIsSmaller([a] + r, s);
      }
    }
  }

  /** Replace the first two clauses which can be resolved by their resolvent, searching from the i-th and j-th one. */
  function Consensus(cs: seq<seq<Equality>>, i: nat, j: nat): Option<seq<seq<Equality>>>
    requires i < j
    decreases |cs| - i, |cs| - j
  {
    if i >= |cs| then None
    else if j >= |cs| then Consensus(cs, i + 1, i + 2)
    else
      match Resolvent(cs[i], cs[j])
      case Some(r) => Some((cs[..j] + cs[j + 1..])[i := r])
      case None => Consensus(cs, i, j + 1)
  }

  /** Consensus preserves the meaning of a disjunction, and removes atoms. */
  lemma {:induction false} ConsensusSound(cs: seq<seq<Equality>>, i: nat, j: nat)
    requires i < j && AllGood(cs)
    ensures match Consensus(cs, i, j)
            case None => true
            case Some(ds) => ds != [] && AllGood(ds) && SameDisjunction(ds, cs) && Count(ds) < Count(cs)
    decreases |cs| - i, |cs| - j
  {
    if i >= |cs| {
    } else if j >= |cs| {
      ConsensusSound(cs, i + 1, i + 2);
    } else if Resolvent(cs[i], cs[j]).Some? {
      assert cs[i] in cs && cs[j] in cs;
      ResolventSound(cs[i], cs[j]);
      hide Resolvent, Good;
      Resolved(cs, i, j, Resolvent(cs[i], cs[j]).value);
    } else {
      ConsensusSound(cs, i, j + 1);
    }
  }

  lemma Resolved(cs: seq<seq<Equality>>, i: nat, j: nat, r: seq<Equality>)
    requires i < j < |cs| && AllGood(cs) && Good(r) && |r| == |cs[i]| - 1
    requires forall env: Env :: AllHold(r, env) <==> AllHold(cs[i], env) || AllHold(cs[j], env)
    ensures var ds := (cs[..j] + cs[j + 1..])[i := r];
            ds != [] && AllGood(ds) && SameDisjunction(ds, cs) && Count(ds) < Count(cs)
  {
    hide Good, AllHold, AnyHold;
    var rest := cs[..j] + cs[j + 1..];
    var ds := rest[i := r];
    CountRemove(cs, j);
    CountUpdate(rest, i, r);
    ResolvedMembers(cs, i, j, r);
    forall env: Env ensures AnyHold(ds, env) <==> AnyHold(cs, env) {
      ResolvedHolds(cs, ds, cs[i], cs[j], r, env);
    }
  }

  lemma ResolvedMembers(cs: seq<seq<Equality>>, i: nat, j: nat, r: seq<Equality>)
    requires i < j < |cs|
    ensures var ds := (cs[..j] + cs[j + 1..])[i := r];
      && r in ds && (forall d :: d in ds ==> d == r || d in cs)
      && forall c :: c in cs ==> c in ds || c == cs[i] || c == cs[j]
  {
    var ds := (cs[..j] + cs[j + 1..])[i := r];
    assert ds[i] == r;
    forall d | d in ds ensures d == r || d in cs {
      var k :| 0 <= k < |ds| && ds[k] == d;
      assert k != i ==> d == cs[if k < j then k else k + 1];
    }
    forall c | c in cs ensures c in ds || c == cs[i] || c == cs[j] {
      var k :| 0 <= k < |cs| && cs[k] == c;
      assert k != i && k != j ==> c == ds[if k < j then k else k - 1];
    }
  }

  lemma ResolvedHolds(
    cs: seq<seq<Equality>>, ds: seq<seq<Equality>>, c: seq<Equality>, d: seq<Equality>, r: seq<Equality>, env: Env)
    requires c in cs && d in cs && r in ds && (forall e :: e in ds ==> e == r || e in cs)
    requires forall e :: e in cs ==> e in ds || e == c || e == d
    requires AllHold(r, env) <==> AllHold(c, env) || AllHold(d, env)
    ensures AnyHold(ds, env) <==> AnyHold(cs, env)
  {
    hide AllHold;
  }

  // ---------------------------------------------------------------------------
  // To a fixpoint
  // ---------------------------------------------------------------------------

  /** The clauses once no pass changes them any more, or nothing when they were found to cover all cases. */
  function Simplified(cs: seq<seq<Equality>>): Option<seq<seq<Equality>>>
    requires AllGood(cs)
    decreases Count(cs)
  {
    PassSound(cs, 0, 1, false);
    match Pass(cs, 0, 1, false)
    case Tautology => None
    case Clauses(ds, changed) =>
      ConsensusSound(ds, 0, 1);
      match Consensus(ds, 0, 1)
      case Some(es) => Simplified(es)
      case None => if changed then Simplified(ds) else Some(ds)
  }

  /**
   * Simplification preserves the meaning of a disjunction. The one anomaly is that of clauses
   * which cover all cases: these may be left as a single clause without any atoms.
   */
  lemma {:induction false} SimplifiedSound(cs: seq<seq<Equality>>)
    requires AllGood(cs) && cs != []
    ensures match Simplified(cs)
            case None => ValidDisjunction(cs)
            case Some(ds) =>
              && ds != [] && AllGood(ds) && SameDisjunction(ds, cs)
              && ([] in ds ==> AllEmpty(ds) && ValidDisjunction(cs))
    decreases Count(cs)
  {
    hide Good, AnyHold, Consensus, Pass;
    PassSound(cs, 0, 1, false);
    match Pass(cs, 0, 1, false)
    case Tautology =>
    case Clauses(ds, changed) =>
      ConsensusSound(ds, 0, 1);
      match Consensus(ds, 0, 1) {
        case Some(es) => SimplifiedSound(es);
        case None =>
          if changed {
            SimplifiedSound(ds);
          } else {
            SettledSound(cs, ds);
          }
      }
  }

  lemma SettledSound(cs: seq<seq<Equality>>, ds: seq<seq<Equality>>)
    requires AllGood(cs) && Pass(cs, 0, 1, false) == Clauses(ds, false)
    ensures [] in ds ==> AllEmpty(ds) && ValidDisjunction(cs)
  {
    if [] in cs {
      var e :| 0 <= e < |cs| && cs[e] == [];
      PassSpreads(cs, 0, 1, false, e);
      forall env: Env ensures AnyHold(cs, env) {
        assert AllHold(cs[e], env);
      }
    } else {
      PassKeepsAtoms(cs, 0, 1, false);
    }
  }

  // ---------------------------------------------------------------------------
  // What is left once nothing applies any more
  // ---------------------------------------------------------------------------

  /** Two clauses of equal length which agree on all atoms but one, whose negation the other holds. */
  predicate DifferIn(c: seq<Equality>, d: seq<Equality>, a: Equality) {
    |c| == |d| && a in c && Negate(a) in d && forall b :: b in c && b != a ==> b in d
  }

  /**
   * No two clauses can be resolved, no atom can be removed by a unit clause, and no clause holds all atoms
   * of another one.
   */
  ghost predicate Reduced(cs: seq<seq<Equality>>) {
    && (forall c, d, a :: c in cs && d in cs ==> !DifferIn(c, d, a))
    && (forall c, d, a :: c in cs && d in cs && c == [a] && |d| >= 2 ==> Negate(a) !in d)
    && (forall c, d :: c in cs && d in cs && Implies(c, d) ==> c == d)
  }

  lemma {:induction false} SurplusOne(c: seq<Equality>, d: seq<Equality>, a: Equality)
    requires Distinct(c) && a in c && a !in d && forall b :: b in c && b != a ==> b in d
    ensures Surplus(c, d) == [a]
  {
    if c[0] == a {
      assert a !in c[1..];
      SurplusNone(c[1..], d);
    } else {
      assert c == [c[0]] + c[1..];
      SurplusOne(c[1..], d, a);
    }
  }

  lemma {:induction false} SurplusNone(c: seq<Equality>, d: seq<Equality>)
    requires forall b :: b in c ==> b in d
    ensures Surplus(c, d) == []
  {
    if c != [] {
      SurplusNone(c[1..], d);
    }
  }

  // A clause which can be satisfied does not hold an atom together with its negation.
  lemma NotBoth(c: seq<Equality>, a: Equality)
    requires Satisfiable(c) && Negate(a) in c
    ensures a !in c && Negate(Negate(a)) == a
  {
    var env: Env :| AllHold(c, env);
    assert Holds(Negate(a), env) && !Holds(a, env);
  }

  /** Clauses are resolved if and only if they differ in one atom, and then just that atom goes. */
  lemma ResolventIff(c: seq<Equality>, d: seq<Equality>)
    requires Good(c) && Good(d)
    ensures Resolvent(c, d).Some? <==> exists a :: DifferIn(c, d, a)
    ensures forall a :: DifferIn(c, d, a) ==>
              Resolvent(c, d) == Some(Without(c, a)) && DifferIn(d, c, Negate(a))
  {
    CmpIsOrder();
    SortedDistinct(Cmp, c);
    if Resolvent(c, d).Some? {
      var a := Surplus(c, d)[0];
      assert Surplus(c, d) == [a];
      assert a in Surplus(c, d) && DifferIn(c, d, a);
    }
    forall a | DifferIn(c, d, a)
      ensures Resolvent(c, d) == Some(Without(c, a)) && DifferIn(d, c, Negate(a))
    {
      NotBoth(d, a);
      SurplusOne(c, d, a);
      SameRest(c, d, a);
      DistinctRest(c, a);
      DistinctRest(d, Negate(a));
    }
  }

  lemma {:induction false} NothingResolves(cs: seq<seq<Equality>>, i: nat, j: nat)
    requires i < j && Consensus(cs, i, j) == None
    ensures forall k, l :: i <= k < l < |cs| && (k == i ==> j <= l) ==> Resolvent(cs[k], cs[l]) == None
    decreases |cs| - i, |cs| - j
  {
    hide Resolvent;
    if i >= |cs| {
    } else if j >= |cs| {
      NothingResolves(cs, i + 1, i + 2);
    } else {
      NothingResolves(cs, i, j + 1);
    }
  }

  lemma NoneDiffer(cs: seq<seq<Equality>>, c: seq<Equality>, d: seq<Equality>, a: Equality)
    requires AllGood(cs) && Consensus(cs, 0, 1) == None && c in cs && d in cs
    ensures !DifferIn(c, d, a)
  {
    hide Good, DifferIn, Consensus, Resolvent;
    var k :| 0 <= k < |cs| && cs[k] == c;
    var l :| 0 <= l < |cs| && cs[l] == d;
    if DifferIn(c, d, a) {
      ResolventIff(c, d);
      ResolventIff(d, c);
      DifferentClauses(c, d, a);
      NothingResolves(cs, 0, 1);
      assert false;
    }
  }

  lemma DifferentClauses(c: seq<Equality>, d: seq<Equality>, a: Equality)
    requires Good(c) && Good(d) && DifferIn(c, d, a)
    ensures c != d
  {
    NotBoth(d, a);
  }

  /** A clause which no other one is properly contained in. */
  ghost predicate Minimal(w: seq<Equality>, cs: seq<seq<Equality>>) {
    w in cs && forall v :: v in cs && Implies(v, w) ==> Implies(w, v)
  }

  /** A clause has no effect on another one. */
  predicate Spares(w: seq<Equality>, d: seq<Equality>) {
    !Propagates(w, d) && (Implies(w, d) ==> Implies(d, w))
  }

  lemma SparesLess(w: seq<Equality>, d: seq<Equality>, e: seq<Equality>)
    requires Spares(w, d) && Implies(e, d) && Good(e) && Good(d)
    ensures Spares(w, e)
  {
    CmpIsOrder();
    SortedDistinct(Cmp, e);
    SubsetIsSmaller(e, d);
  }

  // A step which is not reported as a change does no more than copy one clause over another.
  lemma QuietStep(cs: seq<seq<Equality>>, i: nat, j: nat, k: nat)
    requires i < j < |cs| && AllGood(cs) && k < |cs| && Minimal(cs[k], cs) && !PairChanges(cs[i], cs[j])
    ensures var ds := PairStep(cs, i, j);
      && |ds| == |cs| && (forall l :: 0 <= l < |ds| ==> ds[l] in cs && Implies(ds[l], cs[l]))
      && ds[k] == cs[k]
      && (k == i ==> Spares(cs[k], ds[j])) && (k == j ==> Spares(cs[k], ds[i]))
  {
    assert cs[i] in cs && cs[j] in cs;
  }

  // A minimal clause has no effect on any it has been paired with.
  ghost predicate SparesVisited(cs: seq<seq<Equality>>, i: nat, j: nat, k: nat) {
    && k < |cs| && Minimal(cs[k], cs)
    && forall l :: 0 <= l < |cs| && Visited(l, k, i, j) ==> Spares(cs[k], cs[l])
  }

  lemma SparesNext(cs: seq<seq<Equality>>, i: nat, j: nat, k: nat)
    requires i < j < |cs| && AllGood(cs) && SparesVisited(cs, i, j, k) && !PairChanges(cs[i], cs[j])
    ensures var ds := PairStep(cs, i, j);
            |ds| == |cs| && SparesVisited(ds, i, j + 1, k) && ds[k] == cs[k] && forall d :: d in ds ==> d in cs
  {
    QuietStep(cs, i, j, k);
    PairStepSound(cs, i, j);
    hide Good, Spares, PairStep, PairChanges, Implies, SameDisjunction;
    var ds := PairStep(cs, i, j);
    forall d | d in ds ensures d in cs {
      var l :| 0 <= l < |ds| && ds[l] == d;
    }
    assert ds[k] in ds;
    forall l | 0 <= l < |ds| && Visited(l, k, i, j + 1) ensures Spares(ds[k], ds[l]) {
      if Visited(l, k, i, j) {
        assert cs[l] in cs && ds[l] in ds;
        SparesLess(cs[k], cs[l], ds[l]);
      }
    }
  }

  /** A minimal clause outlasts a pass which changes nothing, and has no effect on any clause left by it. */
  lemma {:induction false} PassSpares(cs: seq<seq<Equality>>, i: nat, j: nat, k: nat, ds: seq<seq<Equality>>)
    requires i < j && AllGood(cs) && SparesVisited(cs, i, j, k) && Pass(cs, i, j, false) == Clauses(ds, false)
    ensures |ds| == |cs| && ds[k] == cs[k] && forall d :: d in ds ==> d in cs
    ensures forall l :: 0 <= l < |ds| && l != k ==> Spares(cs[k], ds[l])
    decreases |cs| - i, |cs| - j
  {
    hide Good, Spares, PairStep, PairChanges, Minimal, SameDisjunction, Complementary;
    if i >= |cs| {
      assert forall l :: 0 <= l < |cs| && l != k ==> Visited(l, k, i, j);
    } else if j >= |cs| {
      PassSpares(cs, i + 1, i + 2, k, ds);
    } else {
      PairStepSound(cs, i, j);
      PassSound(PairStep(cs, i, j), i, j + 1, PairChanges(cs[i], cs[j]));
      SparesNext(cs, i, j, k);
      PassSpares(PairStep(cs, i, j), i, j + 1, k, ds);
    }
  }

  /** Below every clause there is a minimal one. */
  lemma {:induction false} MinimalBelow(cs: seq<seq<Equality>>, c: seq<Equality>) returns (w: seq<Equality>)
    requires AllGood(cs) && c in cs
    ensures Minimal(w, cs) && Implies(w, c)
    decreases |c|
  {
    if v :| v in cs && Implies(v, c) && !Implies(c, v) {
      ProperlyLess(v, c);
      w := MinimalBelow(cs, v);
    } else {
      w := c;
    }
  }

  lemma ProperlyLess(v: seq<Equality>, c: seq<Equality>)
    requires Good(v) && Good(c) && Implies(v, c) && !Implies(c, v)
    ensures |v| < |c|
  {
    CmpIsOrder();
    SortedDistinct(Cmp, v);
    var a :| a in c && a !in v;
    SubsetIsSmaller([a] + v, c);
  }

  lemma SameAtoms(c: seq<Equality>, d: seq<Equality>)
    requires Good(c) && Good(d) && Implies(c, d) && Implies(d, c)
    ensures c == d
  {
    CmpIsOrder();
    SortedUnique(Cmp, c, d);
  }

  /** Where neither a pass nor consensus changes anything, nothing is left to be simplified. */
  lemma SettledReduced(cs: seq<seq<Equality>>, ds: seq<seq<Equality>>)
    requires AllGood(cs) && Pass(cs, 0, 1, false) == Clauses(ds, false) && Consensus(ds, 0, 1) == None
    ensures Reduced(ds)
  {
    PassSound(cs, 0, 1, false);
    if [] in cs {
      var e :| 0 <= e < |cs| && cs[e] == [];
      PassSpreads(cs, 0, 1, false, e);
    } else {
      forall c, d, a | c in ds && d in ds ensures !DifferIn(c, d, a) {
        NoneDiffer(ds, c, d, a);
      }
      if ds != [] {
        SettledAbsorbed(cs, ds);
        SettledUnits(cs, ds);
      }
    }
  }

  lemma SettledUnits(cs: seq<seq<Equality>>, ds: seq<seq<Equality>>)
    requires AllGood(cs) && AllGood(ds) && [] !in cs && Pass(cs, 0, 1, false) == Clauses(ds, false)
    ensures forall c, d, a :: c in ds && d in ds && c == [a] && |d| >= 2 ==> Negate(a) !in d
  {
    hide Good, Pass, Consensus;
    forall c, d, a | c in ds && d in ds && c == [a] && |d| >= 2 ensures Negate(a) !in d {
      SettledMembers(cs, ds);
      var k :| 0 <= k < |cs| && cs[k] == c;
      var l :| 0 <= l < |ds| && ds[l] == d;
      forall v | v in cs && Implies(v, c) ensures Implies(c, v) {
        assert v[0] in v;
      }
      PassSpares(cs, 0, 1, k, ds);
      assert Spares(c, d);
    }
  }

  lemma SettledAbsorbed(cs: seq<seq<Equality>>, ds: seq<seq<Equality>>)
    requires AllGood(cs) && AllGood(ds) && Pass(cs, 0, 1, false) == Clauses(ds, false)
    ensures forall c, d :: c in ds && d in ds && Implies(c, d) ==> c == d
  {
    hide Good, Pass, Consensus;
    forall c, d | c in ds && d in ds && Implies(c, d) ensures c == d {
      SettledMembers(cs, ds);
      if Implies(d, c) {
        SameAtoms(c, d);
      } else {
        var w := MinimalBelow(cs, c);
        var k :| 0 <= k < |cs| && cs[k] == w;
        var l :| 0 <= l < |ds| && ds[l] == d;
        PassSpares(cs, 0, 1, k, ds);
        assert false;
      }
    }
  }

  lemma SettledMembers(cs: seq<seq<Equality>>, ds: seq<seq<Equality>>)
    requires AllGood(cs) && Pass(cs, 0, 1, false) == Clauses(ds, false)
    ensures |ds| == |cs| && forall d :: d in ds ==> d in cs
  {
    hide Good, Pass;
    PassSound(cs, 0, 1, false);
    if cs != [] {
      var w := MinimalBelow(cs, cs[0]);
      var k :| 0 <= k < |cs| && cs[k] == w;
      PassSpares(cs, 0, 1, k, ds);
    }
  }

  /** Simplification is carried out to the end: no rule applies to its result. */
  lemma {:induction false} SimplifiedReduced(cs: seq<seq<Equality>>)
    requires AllGood(cs)
    ensures Simplified(cs).Some? ==> Reduced(Simplified(cs).value)
    decreases Count(cs)
  {
    hide Good, AnyHold, Consensus, Pass, Reduced;
    PassSound(cs, 0, 1, false);
    match Pass(cs, 0, 1, false)
    case Tautology =>
    case Clauses(ds, changed) =>
      ConsensusSound(ds, 0, 1);
      match Consensus(ds, 0, 1) {
        case Some(es) => SimplifiedReduced(es);
        case None =>
          if changed {
            SimplifiedReduced(ds);
          } else {
            SettledReduced(cs, ds);
          }
      }
  }

  // Whatever a pass does, it leaves unit clauses alone, and notices two which cover all cases.
  lemma {:induction false} PassNotices(cs: seq<seq<Equality>>, i: nat, j: nat, changed: bool, k: nat, l: nat)
    requires i < j && AllGood(cs) && [] !in cs && k < l < |cs| && !Visited(k, l, i, j) && Complementary(cs[k], cs[l])
    ensures Pass(cs, i, j, changed) == Tautology
    decreases |cs| - i, |cs| - j
  {
    if j >= |cs| {
      PassNotices(cs, i + 1, i + 2, changed, k, l);
    } else if !Complementary(cs[i], cs[j]) {
      PairStepSound(cs, i, j);
      UnitsStay(cs, i, j);
      hide Good, PairStep, PairChanges;
      PassNotices(PairStep(cs, i, j), i, j + 1, changed || PairChanges(cs[i], cs[j]), k, l);
    }
  }

  lemma UnitsStay(cs: seq<seq<Equality>>, i: nat, j: nat)
    requires i < j < |cs| && AllGood(cs) && [] !in cs
    ensures var ds := PairStep(cs, i, j);
            |ds| == |cs| && [] !in ds && forall k :: 0 <= k < |cs| && |cs[k]| == 1 ==> ds[k] == cs[k]
  {
    assert cs[i] in cs && cs[j] in cs;
    PairStepSound(cs, i, j);
    PropagatedSound(cs[i], cs[j]);
    var (c, d) := Propagated(cs[i], cs[j]);
    if |c| == 1 && Implies(d, c) {
      assert d[0] in d && d[0] == c[0];
    }
    if |d| == 1 && Implies(c, d) {
      assert c[0] in c && c[0] == d[0];
    }
  }

  /** Clauses which include both P and not P are found to cover all cases. */
  lemma SimplifiedNotices(cs: seq<seq<Equality>>, a: Equality)
    requires AllGood(cs) && [] !in cs && [a] in cs && [Negate(a)] in cs
    ensures Simplified(cs) == None
  {
    var k :| 0 <= k < |cs| && cs[k] == [a];
    var l :| 0 <= l < |cs| && cs[l] == [Negate(a)];
    assert Negate(Negate(a)) == a && Negate(a) != a;
    if k < l {
      PassNotices(cs, 0, 1, false, k, l);
    } else {
      PassNotices(cs, 0, 1, false, l, k);
    }
  }

  lemma ReducedSet(cs: seq<seq<Equality>>)
    requires Reduced(cs)
    ensures Reduced(SortedSet(CmpClause, cs))
  {
    CmpClauseIsOrder();
    InsertAllSorts(CmpClause, [], cs);
    hide DifferIn, Implies, SortedSet;
  }

  /** The order of clauses: by length, then atom by atom. */
  function CmpClause(c: seq<Equality>, d: seq<Equality>): int {
    SortedSets.Compare(Cmp, c, d)
  }

  /** Shorter clauses come first, and among equally long ones the first difference decides. */
  lemma CmpClauseFirst(c: seq<Equality>, d: seq<Equality>, i: nat)
    ensures |c| < |d| ==> CmpClause(c, d) < 0
    ensures |c| == |d| && i < |c| && c[..i] == d[..i] && Cmp(c[i], d[i]) < 0 ==> CmpClause(c, d) < 0
  {
    CmpIsOrder();
    SortedSets.CompareFirst(Cmp, c, d, i);
  }

  lemma CmpClauseIsOrder()
    ensures TotalOrder(CmpClause)
  {
    CmpIsOrder();
    forall c, d, e
      ensures CmpClause(c, d) == 0 <==> c == d
      ensures CmpClause(c, d) < 0 <==> CmpClause(d, c) > 0
      ensures CmpClause(c, d) < 0 && CmpClause(d, e) < 0 ==> CmpClause(c, e) < 0
    {
      CompareOrders(Cmp, c, d, e);
    }
  }

  // ---------------------------------------------------------------------------
  // As carried out in place
  // ---------------------------------------------------------------------------

  /** Remove an atom from a clause, if it is there. */
  method Remove(c: seq<Equality>, a: Equality) returns (r: seq<Equality>, ok: bool)
    requires Clause(c)
    ensures r == Without(c, a) && ok == (a in c)
  {
    CmpIsOrder();
    SortedDistinct(Cmp, c);
    WithoutMembers(c, a);
    var i := Find(Cmp, c, a);
    if i < |c| {
      WithoutAt(c, i);
      return c[..i] + c[i + 1..], true;
    }
    WithoutAbsent(c, a);
    return c, false;
  }

  lemma {:induction false} WithoutAbsent(c: seq<Equality>, a: Equality)
    requires a !in c
    ensures Without(c, a) == c
  {
    if c != [] {
      WithoutAbsent(c[1..], a);
    }
  }

  /** Find the resolvent of two clauses by counting the atoms of one which the other lacks. */
  method Resolve(c: seq<Equality>, d: seq<Equality>) returns (r: Option<seq<Equality>>)
    requires Clause(c) && Clause(d)
    ensures r == Resolvent(c, d)
  {
    if |c| != |d| {
      return None;
    }
    var pivot, surplus := Equals(0, 0), 0;
    for i := 0 to |c|
      invariant surplus == |Surplus(c[..i], d)|
      invariant surplus > 0 ==> pivot == Surplus(c[..i], d)[surplus - 1]
    {
      SurplusSnoc(c[..i], c[i], d);
      assert c[..i + 1] == c[..i] + [c[i]];
      CmpIsOrder();
      var k := Find(Cmp, d, c[i]);
      if k == |d| {
        pivot := c[i];
        surplus := surplus + 1;
      }
    }
    assert c[..|c|] == c;
    CmpIsOrder();
    var k := Find(Cmp, d, Negate(pivot));
    if surplus != 1 || k == |d| {
      return None;
    }
    var rest, _ := Remove(c, pivot);
    return Some(rest);
  }

  lemma {:induction false} SurplusSnoc(c: seq<Equality>, a: Equality, d: seq<Equality>)
    ensures Surplus(c + [a], d) == Surplus(c, d) + if a in d then [] else [a]
  {
    if c != [] {
      SurplusSnoc(c[1..], a, d);
      assert (c + [a])[1..] == c[1..] + [a];
    }
  }

  /** A disjunction of clauses under simplification. */
  class Disjunction {
    var conjuncts: seq<seq<Equality>>

    constructor (conjuncts: seq<seq<Equality>>)
      ensures this.conjuncts == conjuncts
    {
      this.conjuncts := conjuncts;
    }

    method UnitPropagation(i: nat, j: nat) returns (changed: bool, tautology: bool)
      requires i < j < |conjuncts| && AllGood(conjuncts)
      modifies this
      ensures tautology == Complementary(old(conjuncts[i]), old(conjuncts[j]))
      ensures changed == PairChanges(old(conjuncts[i]), old(conjuncts[j]))
      ensures var (x, y) := Propagated(old(conjuncts[i]), old(conjuncts[j]));
              conjuncts == old(conjuncts)[i := x][j := y]
    {
      var ci, cj := conjuncts[i], conjuncts[j];
      assert ci in conjuncts && cj in conjuncts;
      if |ci| == 1 && |cj| == 1 {
        return false, Cmp(ci[0], Negate(cj[0])) == 0;
      } else if (|ci| != 1 && |cj| != 1) || |ci| == 0 || |cj| == 0 {
        return false, false;
      }
      var unit, long := i, j;
      if |ci| > |cj| {
        unit, long := j, i;
      }
      var kth, ok := Remove(conjuncts[long], Negate(conjuncts[unit][0]));
      if ok {
        conjuncts := conjuncts[long := kth];
        return true, false;
      }
      return false, false;
    }

    /** Apply unit propagation, then subsumption, to a pair of clauses. */
    method SimplifyConjuncts(i: nat, j: nat) returns (changed: bool, tautology: bool)
      requires i < j < |conjuncts| && AllGood(conjuncts)
      modifies this
      ensures tautology == Complementary(old(conjuncts[i]), old(conjuncts[j]))
      ensures changed == PairChanges(old(conjuncts[i]), old(conjuncts[j]))
      ensures !tautology ==> conjuncts == PairStep(old(conjuncts), i, j)
    {
      changed, tautology := UnitPropagation(i, j);
      if !tautology {
        var ith, jth := conjuncts[i], conjuncts[j];
        if Implies(ith, jth) && !Implies(jth, ith) {
          conjuncts := conjuncts[j := ith];
        } else if !Implies(ith, jth) && Implies(jth, ith) {
          conjuncts := conjuncts[i := jth];
        }
      }
    }

    /** Apply a single step of consensus, if there is one. */
    method ApplyConsensus() returns (ok: bool)
      requires AllGood(conjuncts)
      modifies this
      ensures match Consensus(old(conjuncts), 0, 1)
              case Some(cs) => ok && conjuncts == cs
              case None => !ok && conjuncts == old(conjuncts)
    {
      hide Resolvent, Satisfiable, Clause;
      var i := 0;
      while i < |conjuncts|
        invariant 0 <= i <= |conjuncts| && conjuncts == old(conjuncts)
        invariant Consensus(conjuncts, i, i + 1) == Consensus(conjuncts, 0, 1)
      {
        var j := i + 1;
        while j < |conjuncts|
          invariant i < j <= |conjuncts| && conjuncts == old(conjuncts)
          invariant Consensus(conjuncts, i, j) == Consensus(conjuncts, 0, 1)
        {
          assert conjuncts[i] in conjuncts && conjuncts[j] in conjuncts;
          var resolvent := Resolve(conjuncts[i], conjuncts[j]);
          if resolvent.Some? {
            conjuncts := (conjuncts[..j] + conjuncts[j + 1..])[i := resolvent.value];
            return true;
          }
          j := j + 1;
        }
        i := i + 1;
      }
      return false;
    }

    /** Simplify until nothing changes, unless the clauses turn out to cover all cases. */
    method Simplify() returns (tautology: bool)
      requires AllGood(conjuncts)
      modifies this
      ensures match Simplified(old(conjuncts))
              case None => tautology
              case Some(cs) => !tautology && conjuncts == SortedSet(CmpClause, cs)
      ensures !tautology ==> Reduced(conjuncts)
    {
      hide Good, PairStep, PairChanges, Complementary, Consensus, SameDisjunction, Reduced, SortedSet;
      SimplifiedReduced(conjuncts);
      var changed := true;
      while changed
        invariant AllGood(conjuncts)
        invariant Simplified(old(conjuncts)) == if changed then Simplified(conjuncts) else Some(conjuncts)
        decreases Count(conjuncts), changed
      {
        changed := false;
        ghost var before := conjuncts;
        PassSound(before, 0, 1, false);
        var i := 0;
        while i < |conjuncts|
          invariant 0 <= i <= |conjuncts| == |before| && AllGood(conjuncts)
          invariant Pass(conjuncts, i, i + 1, changed) == Pass(before, 0, 1, false)
        {
          var j := i + 1;
          while j < |conjuncts|
            invariant i < j <= |conjuncts| == |before| && AllGood(conjuncts)
            invariant Pass(conjuncts, i, j, changed) == Pass(before, 0, 1, false)
          {
            PairStepSound(conjuncts, i, j);
            var c, t := SimplifyConjuncts(i, j);
            if t {
              return true;
            }
            changed := changed || c;
            j := j + 1;
          }
          i := i + 1;
        }
        assert Pass(before, 0, 1, false) == Clauses(conjuncts, changed);
        ConsensusSound(conjuncts, 0, 1);
        var ok := ApplyConsensus();
        if ok {
          changed := true;
        }
      }
      ReducedSet(conjuncts);
      conjuncts := SortedSet(CmpClause, conjuncts);
      return false;
    }
  }
}
