// When consensus goes too far: two complementary unit clauses leave a clause without atoms.
module UnitConsensus {
  import opened Options
  import opened SortedSets
  import opened Equalities
  import opened DnfSimplification

  /** Whether the first two clauses which can be resolved, searching from the i-th and j-th one, are units. */
  predicate ResolvesUnits(cs: seq<seq<Equality>>, i: nat, j: nat)
    requires i < j
    decreases |cs| - i, |cs| - j
  {
    if i >= |cs| then false
    else if j >= |cs| then ResolvesUnits(cs, i + 1, i + 2)
    else if Resolvent(cs[i], cs[j]).Some? then |cs[i]| == 1
    else ResolvesUnits(cs, i, j + 1)
  }

  /**
   * Whether simplification resolves two unit clauses, and does not come across a complementary pair
   * of its own later on, which would still make it give the right answer.
   */
  predicate LosesAtoms(cs: seq<seq<Equality>>)
    requires AllGood(cs)
    decreases Count(cs)
  {
    PassSound(cs, 0, 1, false);
    match Pass(cs, 0, 1, false)
    case Tautology => false
    case Clauses(ds, changed) =>
      ConsensusSound(ds, 0, 1);
      match Consensus(ds, 0, 1)
      case Some(es) => if ResolvesUnits(ds, 0, 1) then Simplified(es).Some? else LosesAtoms(es)
      case None => changed && LosesAtoms(ds)
  }

  // Clauses without atoms are never changed.
  lemma {:induction false} EmptyPass(cs: seq<seq<Equality>>, i: nat, j: nat, changed: bool)
    requires i < j && AllEmpty(cs)
    ensures Pass(cs, i, j, changed) == Clauses(cs, changed) && Consensus(cs, i, j) == None
    decreases |cs| - i, |cs| - j
  {
    if i >= |cs| {
    } else if j >= |cs| {
      EmptyPass(cs, i + 1, i + 2, changed);
    } else {
      assert PairStep(cs, i, j) == cs;
      EmptyPass(cs, i, j + 1, changed);
    }
  }

  lemma EmptySettled(cs: seq<seq<Equality>>)
    requires AllGood(cs) && AllEmpty(cs)
    ensures Simplified(cs) == Some(cs)
  {
    EmptyPass(cs, 0, 1, false);
  }

  /** Once there is a clause without atoms, there is no way back, unless all cases are seen to be covered. */
  lemma EmptyStays(cs: seq<seq<Equality>>)
    requires AllGood(cs) && [] in cs
    ensures var s := Simplified(cs); s.Some? ==> [] in s.value
  {
    hide Good, Consensus;
    var e :| 0 <= e < |cs| && cs[e] == [];
    PassSound(cs, 0, 1, false);
    PassSpreads(cs, 0, 1, false, e);
    match Pass(cs, 0, 1, false)
    case Tautology =>
    case Clauses(ds, changed) =>
      EmptyPass(ds, 0, 1, false);
      EmptySettled(ds);
      assert ds[e] in ds;
  }

  lemma {:induction false} ConsensusAtoms(cs: seq<seq<Equality>>, i: nat, j: nat)
    requires i < j && AllGood(cs) && [] !in cs
    ensures match Consensus(cs, i, j)
            case None => true
            case Some(es) => [] in es <==> ResolvesUnits(cs, i, j)
    decreases |cs| - i, |cs| - j
  {
    hide Good;
    if i >= |cs| {
    } else if j >= |cs| {
      ConsensusAtoms(cs, i + 1, i + 2);
    } else if Resolvent(cs[i], cs[j]).Some? {
      assert cs[i] in cs && cs[j] in cs;
      ResolventSound(cs[i], cs[j]);
      var r, rest := Resolvent(cs[i], cs[j]).value, cs[..j] + cs[j + 1..];
      assert rest[i := r][i] == r;
      forall c | c in rest[i := r] && c != r ensures c in cs {
      }
    } else {
      ConsensusAtoms(cs, i, j + 1);
    }
  }

  /** What is left of clauses with atoms lacks some exactly if two unit clauses were resolved. */
  lemma {:induction false} LosesAtomsExact(cs: seq<seq<Equality>>)
    requires AllGood(cs) && [] !in cs
    ensures LosesAtoms(cs) <==> Simplified(cs).Some? && [] in Simplified(cs).value
    decreases Count(cs)
  {
    hide Good, Consensus, Pass, ResolvesUnits;
    PassSound(cs, 0, 1, false);
    PassKeepsAtoms(cs, 0, 1, false);
    match Pass(cs, 0, 1, false)
    case Tautology =>
    case Clauses(ds, changed) =>
      ConsensusSound(ds, 0, 1);
      ConsensusAtoms(ds, 0, 1);
      match Consensus(ds, 0, 1) {
        case Some(es) =>
          if ResolvesUnits(ds, 0, 1) {
            EmptyStays(es);
          } else {
            LosesAtomsExact(es);
          }
        case None =>
          if changed {
            LosesAtomsExact(ds);
          }
      }
  }

  // ---------------------------------------------------------------------------
  // What this takes
  // ---------------------------------------------------------------------------

  /** Whether some atom occurs in some clause, and its negation in another. */
  predicate Clash(cs: seq<seq<Equality>>) {
    exists c, d, a :: c in cs && d in cs && a in c && Negate(a) in d
  }

  predicate AtomsWithin(ds: seq<seq<Equality>>, cs: seq<seq<Equality>>) {
    forall d, a :: d in ds && a in d ==> exists c :: c in cs && a in c
  }

  lemma ClashWithin(ds: seq<seq<Equality>>, cs: seq<seq<Equality>>)
    requires AtomsWithin(ds, cs) && Clash(ds)
    ensures Clash(cs)
  {
    var c, d, a :| c in ds && d in ds && a in c && Negate(a) in d;
    var c' :| c' in cs && a in c';
    var d' :| d' in cs && Negate(a) in d';
  }

  lemma PairStepAtoms(cs: seq<seq<Equality>>, i: nat, j: nat)
    requires i < j < |cs| && AllGood(cs)
    ensures AtomsWithin(PairStep(cs, i, j), cs)
  {
    assert cs[i] in cs && cs[j] in cs;
    PairAtoms(cs[i], cs[j]);
    hide Good, PairOf;
    var (x, y) := PairOf(cs[i], cs[j]);
    var ds := cs[i := x][j := y];
    forall d, a | d in ds && a in d ensures exists c :: c in cs && a in c {
      if d == x || d == y {
        assert a in cs[i] || a in cs[j];
      } else {
        assert d in cs;
      }
    }
  }

  lemma PairAtoms(c: seq<Equality>, d: seq<Equality>)
    ensures var (x, y) := PairOf(c, d); forall a :: a in x || a in y ==> a in c || a in d
  {
    if |c| == 1 {
      WithoutAtoms(d, Negate(c[0]));
    }
    if |d| == 1 {
      WithoutAtoms(c, Negate(d[0]));
    }
  }

  lemma {:induction false} WithoutAtoms(c: seq<Equality>, a: Equality)
    ensures forall b :: b in Without(c, a) ==> b in c
  {
    if c != [] {
      WithoutAtoms(c[1..], a);
    }
  }

  lemma {:induction false} PassAtoms(cs: seq<seq<Equality>>, i: nat, j: nat, changed: bool)
    requires i < j && AllGood(cs)
    ensures var r := Pass(cs, i, j, changed); r.Clauses? ==> AtomsWithin(r.cs, cs)
    decreases |cs| - i, |cs| - j
  {
    hide Good, PairOf, Complementary, AtomsWithin;
    if i >= |cs| {
      AtomsWithinItself(cs);
    } else if j >= |cs| {
      PassAtoms(cs, i + 1, i + 2, changed);
    } else if !Complementary(cs[i], cs[j]) {
      var ds := PairStep(cs, i, j);
      PairStepSound(cs, i, j);
      PairStepAtoms(cs, i, j);
      PassAtoms(ds, i, j + 1, changed || PairChanges(cs[i], cs[j]));
      var r := Pass(ds, i, j + 1, changed || PairChanges(cs[i], cs[j]));
      if r.Clauses? {
        AtomsWithinTransitive(r.cs, ds, cs);
      }
    }
  }

  lemma AtomsWithinItself(cs: seq<seq<Equality>>)
    ensures AtomsWithin(cs, cs)
  {
  }

  lemma AtomsWithinTransitive(es: seq<seq<Equality>>, ds: seq<seq<Equality>>, cs: seq<seq<Equality>>)
    requires AtomsWithin(es, ds) && AtomsWithin(ds, cs)
    ensures AtomsWithin(es, cs)
  {
  }

  lemma {:induction false} ConsensusClash(cs: seq<seq<Equality>>, i: nat, j: nat)
    requires i < j && Consensus(cs, i, j).Some?
    ensures Clash(cs)
    decreases |cs| - i, |cs| - j
  {
    if j >= |cs| {
      ConsensusClash(cs, i + 1, i + 2);
    } else if Resolvent(cs[i], cs[j]).Some? {
      var pivot := Surplus(cs[i], cs[j])[0];
      assert pivot in Surplus(cs[i], cs[j]);
      assert cs[i] in cs && cs[j] in cs && pivot in cs[i] && Negate(pivot) in cs[j];
    } else {
      ConsensusClash(cs, i, j + 1);
    }
  }

  /** Without an atom and its negation among them, clauses are safe. */
  lemma {:induction false} LosesAtomsClash(cs: seq<seq<Equality>>)
    requires AllGood(cs) && LosesAtoms(cs)
    ensures Clash(cs)
    decreases Count(cs)
  {
    hide Good, Consensus, Pass, ResolvesUnits, Clash;
    PassSound(cs, 0, 1, false);
    PassAtoms(cs, 0, 1, false);
    var Clauses(ds, changed) := Pass(cs, 0, 1, false);
    ConsensusSound(ds, 0, 1);
    if Consensus(ds, 0, 1).Some? {
      ConsensusClash(ds, 0, 1);
    } else {
      LosesAtomsClash(ds);
    }
    ClashWithin(ds, cs);
  }
}
