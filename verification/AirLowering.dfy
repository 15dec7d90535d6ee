// The lowering itself: from constraints of a module to terms which must vanish on all of its rows.
module AirLowering {
  import opened Options
  import opened PrimeField
  import opened Tables
  import opened Terms
  import opened Builders
  import opened Ranges
  import opened Simplify
  import opened Logic
  import opened LogicProperties
  import opened Expansion
  import opened Packing
  import opened TermLowering
  import opened NonZeroChecks
  import opened ExactFolding
  import opened Modules
  import opened Normalisation
  import opened Lowerability
  import opened CrossProducts
  import opened PseudoInverses
  import opened Reaches
  import opened Pieces
  import opened PieceMeanings
  import opened RowTests
  import opened Realisations

  /**
   * Some terms express a constraint: on every row of every trace, all terms vanish only if the
   * constraint holds; on rows where it is defined, and in traces whose inverse registers satisfy their
   * proofs, they do if it holds.
   */
  ghost predicate Faithful(p: Prime, m: Module, e: Logical, ts: seq<Term>, b: Bounds) {
    forall tb: Table, k: int :: TraceOf(p, m, tb) ==> FaithfulOn(p, m, e, ts, b, tb, k)
  }

  ghost predicate FaithfulOn(p: Prime, m: Module, e: Logical, ts: seq<Term>, b: Bounds, tb: Table, k: int) {
    && (AllVanish(ts, Row(p, tb, k)) ==> Holds(e, Row(p, tb, k)))
    && (InversesHold(p, m, tb) && b.Covers(k, tb.height) && Holds(e, Row(p, tb, k)) ==> AllVanish(ts, Row(p, tb, k)))
  }

  /**
   * Terms which express a constraint, reach no further than it does, simplify exactly, and match
   * its pieces one by one.
   */
  ghost predicate Lowered(st: Setting, m: Module, e: Logical, ts: seq<Term>, b: Bounds) {
    && AllShaped(ts, Scope(st.p, m.registers, b))
    && AllExact(st.p, ts)
    && Realises(st, m, ts, PiecesOf(st, e), b)
    && Faithful(st.p, m, e, ts, b)
  }

  lemma {:induction false} LowerableIsCore(cfg: Config, p: Prime, e: Logical)
    requires Lowerable(cfg, p, e)
    ensures Core(e)
  {
    if e.Conjunct? || e.Disjunct? {
      forall a | a in e.args ensures Core(a) {
        LowerableIsCore(cfg, p, a);
      }
    }
  }

  /** Terms which match all pieces of a constraint express it. */
  lemma RealisedIsLowered(st: Setting, m: Module, e: Logical, ts: seq<Term>, b: Bounds)
    requires st.Valid() && st.regs <= m.registers && LogicalShaped(e, st.Within(b)) && Lowerable(st.config, st.p, e)
    requires AllShaped(ts, Scope(st.p, m.registers, b)) && AllExact(st.p, ts)
    requires Realises(st, m, ts, PiecesOf(st, e), b)
    ensures Lowered(st, m, e, ts, b)
  {
    hide Shaped, LogicalShaped, FoldsExactly, PiecesOf;
    var p, ps := st.p, PiecesOf(st, e);
    LowerableIsCore(st.config, p, e);
    forall tb: Table, k: int | TraceOf(p, m, tb) ensures FaithfulOn(p, m, e, ts, b, tb, k) {
      var at := Row(p, tb, k);
      PiecesMean(st, e, b, at);
      forall i | 0 <= i < |ts| ensures ExpressesOn(st, m, ts[i], ps[i].goal, b, tb, k) {
        assert Expresses(st, m, ts[i], ps[i].goal, b);
      }
      assert AllVanish(ts, at) <==> forall i :: 0 <= i < |ts| ==> Eval(ts[i], at) == 0;
      assert (forall q :: q in ps ==> Holds(q.goal, at)) <==> forall i :: 0 <= i < |ps| ==> Holds(ps[i].goal, at);
    }
  }

  lemma LoweredLater(st: Setting, m: Module, n: Module, e: Logical, ts: seq<Term>, b: Bounds)
    requires Lowered(st, m, e, ts, b) && Extends(m, n)
    ensures Lowered(st, n, e, ts, b)
  {
    hide Realises;
    forall t | t in ts ensures Shaped(t, Scope(st.p, n.registers, b)) {
      ShapedWiden(t, Scope(st.p, m.registers, b), Scope(st.p, n.registers, b));
    }
    RealisesLater(st, m, n, ts, PiecesOf(st, e), b);
    FaithfulLater(st.p, m, n, e, ts, b);
  }

  lemma FaithfulLater(p: Prime, m: Module, n: Module, e: Logical, ts: seq<Term>, b: Bounds)
    requires Faithful(p, m, e, ts, b) && Extends(m, n)
    ensures Faithful(p, n, e, ts, b)
  {
    forall tb: Table, k: int | TraceOf(p, n, tb) ensures FaithfulOn(p, n, e, ts, b, tb, k) {
      assert FaithfulOn(p, m, e, ts, b, tb, k);
      if InversesHold(p, n, tb) {
        InversesHoldBefore(p, m, n, tb);
      }
    }
  }

  lemma AssignmentValidLater(p: Prime, m: Module, n: Module, a: PseudoInverse)
    requires AssignmentValid(p, m, a) && Extends(m, n)
    ensures AssignmentValid(p, n, a)
  {
    assert m.registers[..a.target] == n.registers[..a.target];
  }

  /** Lists of terms, each expressing the constraint at the same position. */
  ghost predicate LoweredLists(st: Setting, m: Module, es: seq<Logical>, tss: seq<seq<Term>>, b: Bounds) {
    |tss| == |es| && forall i :: 0 <= i < |es| ==> Lowered(st, m, es[i], tss[i], b)
  }

  lemma LoweredListsLater(st: Setting, m: Module, n: Module, es: seq<Logical>, tss: seq<seq<Term>>, b: Bounds)
    requires LoweredLists(st, m, es, tss, b) && Extends(m, n)
    ensures LoweredLists(st, n, es, tss, b)
  {
    forall i | 0 <= i < |es| ensures Lowered(st, n, es[i], tss[i], b) {
      LoweredLater(st, m, n, es[i], tss[i], b);
    }
  }

  // Why junctions are expressed by what they are lowered to.

  lemma ConjunctLowered(st: Setting, m: Module, args: seq<Logical>, tss: seq<seq<Term>>, sums: seq<Term>, b: Bounds)
    requires st.Valid() && st.regs <= m.registers && LoweredLists(st, m, args, tss, b)
    requires LogicalShaped(Conjunct(args), st.Within(b)) && Lowerable(st.config, st.p, Conjunct(args))
    requires AllShaped(sums, Scope(st.p, m.registers, b)) && AllExact(st.p, sums)
    requires sums == Sums(st.config.fieldBandwidth, Concat(tss))
    ensures Lowered(st, m, Conjunct(args), sums, b)
  {
    hide Realises, Shaped, FoldsExactly, PiecesOf, Sums, Summed, Faithful, Concat;
    var pss := seq(|args|, i requires 0 <= i < |args| => PiecesOf(st, args[i]));
    forall i | 0 <= i < |args| ensures Realises(st, m, tss[i], pss[i], b) {
      assert Lowered(st, m, args[i], tss[i], b);
    }
    RealisesAll(st, m, tss, pss, b);
    ListsShaped(st, m, args, tss, b);
    SumsRealised(st.config.fieldBandwidth, st, m, Concat(tss), Concat(pss), b);
    ConjunctPieces(st, args);
    RealisedIsLowered(st, m, Conjunct(args), sums, b);
  }

  lemma DisjunctLowered(st: Setting, m: Module, args: seq<Logical>, tss: seq<seq<Term>>, b: Bounds)
    requires st.Valid() && st.regs <= m.registers && LoweredLists(st, m, Regrouped(st, args), tss, b)
    requires LogicalShaped(Disjunct(args), st.Within(b)) && Lowerable(st.config, st.p, Disjunct(args))
    ensures Lowered(st, m, Disjunct(args), DisjunctionOf(tss), b)
  {
    hide Realises, Shaped, FoldsExactly, PiecesOf, Choices, DisjunctionOf, Faithful, Regrouped;
    var es := Regrouped(st, args);
    var pss := seq(|es|, i requires 0 <= i < |es| => PiecesOf(st, es[i]));
    forall i | 0 <= i < |es|
      ensures Realises(st, m, tss[i], pss[i], b)
      ensures AllShaped(tss[i], Scope(st.p, m.registers, b)) && AllExact(st.p, tss[i])
    {
      assert Lowered(st, m, es[i], tss[i], b);
    }
    ChoicesRealised(st, m, tss, pss, b);
    DisjunctionShaped(tss, Scope(st.p, m.registers, b));
    DisjunctPieces(st, args);
    RealisedIsLowered(st, m, Disjunct(args), DisjunctionOf(tss), b);
  }

  lemma ListsShaped(st: Setting, m: Module, es: seq<Logical>, tss: seq<seq<Term>>, b: Bounds)
    requires LoweredLists(st, m, es, tss, b)
    ensures AllShaped(Concat(tss), Scope(st.p, m.registers, b)) && AllExact(st.p, Concat(tss))
  {
    forall t | t in Concat(tss) ensures Shaped(t, Scope(st.p, m.registers, b)) && FoldsExactly(st.p, t) {
      ConcatMembers(tss, t);
      var i :| 0 <= i < |tss| && t in tss[i];
      assert Lowered(st, m, es[i], tss[i], b);
    }
  }

  // ---------------------------------------------------------------------------
  // Whole constraints
  // ---------------------------------------------------------------------------

  /** Simplifying each term keeps what they express together. */
  function SimplifyEach(p: Prime, ts: seq<Term>): (rs: seq<Term>)
    ensures |rs| == |ts| && forall i :: 0 <= i < |ts| ==> rs[i] == SimplifyTerm(p, ts[i])
  {
    seq(|ts|, i requires 0 <= i < |ts| => SimplifyTerm(p, ts[i]))
  }

  /**
   * Terms which carry out some tests: each has the bounds of its test and, provided inverses have been
   * filled, decides its goal.
   */
  ghost predicate CarriesOut(st: Setting, m: Module, ts: seq<Term>, tests: seq<Test>) {
    && |ts| == |tests|
    && forall i :: 0 <= i < |ts| ==> BoundsOf(ts[i]) == tests[i].bounds && Decides(st, m, ts[i], tests[i])
  }

  /**
   * Within the bounds of a test, its term vanishes if and only if the goal holds; on any row, if and only
   * if it does without taking an inverse from outside of the table.
   */
  ghost predicate Decides(st: Setting, m: Module, t: Term, test: Test) {
    forall tb: Table, k: int :: InversesFilled(st.p, m, tb) ==> DecidesOn(st, t, test, tb, k)
  }

  ghost predicate DecidesOn(st: Setting, t: Term, test: Test, tb: Table, k: int) {
    var at := Row(st.p, tb, k);
    && (test.bounds.Covers(k, tb.height) ==> (Eval(t, at) == 0 <==> Holds(test.goal, at)))
    && (Eval(t, at) == 0 <==> Met(Inside(st), test.goal, at))
  }

  /** What a constraint is lowered to expresses it, and carries out its tests. */
  ghost predicate ConstraintLowered(st: Setting, m: Module, e: Logical, ts: seq<Term>) {
    && AllShaped(ts, Scope(st.p, m.registers, BoundsOfLogical(e)))
    && Faithful(st.p, m, e, ts, BoundsOfLogical(e))
    && CarriesOut(st, m, ts, TestsOf(st, e))
  }

  lemma SimplifiedLowered(st: Setting, m: Module, e: Logical, ts: seq<Term>)
    requires st.Valid() && st.regs <= m.registers && LogicalShaped(e, st.Within(BoundsOfLogical(e)))
    requires LogicalFoldsExactly(st.p, Expand(true, e))
    requires Lowered(st, m, CoreOf(st.p, e), ts, BoundsOfLogical(e))
    ensures ConstraintLowered(st, m, e, SimplifyEach(st.p, ts))
  {
    hide Shaped, LogicalShaped, FoldsExactly, PiecesOf, CoreOf, SimplifyTerm, LogicalFoldsExactly;
    var p, b, rs := st.p, BoundsOfLogical(e), SimplifyEach(st.p, ts);
    var sc, tests := Scope(p, m.registers, b), TestsOf(st, e);
    forall i | 0 <= i < |ts|
      ensures Shaped(rs[i], sc) && forall at: Row :: at.Over(sc) ==> Eval(rs[i], at) == Eval(ts[i], at)
    {
      assert ts[i] in ts;
      SimplifyShaped(ts[i], sc);
      forall at: Row | at.Over(sc) ensures Eval(rs[i], at) == Eval(ts[i], at) {
        SimplifyEval(ts[i], sc, at);
      }
    }
    forall i | 0 <= i < |ts| ensures BoundsOf(rs[i]) == tests[i].bounds && Decides(st, m, rs[i], tests[i]) {
      OutlineReach(p, ts[i]);
      SimplifiedDecides(st, m, ts[i], rs[i], tests[i], sc);
    }
    forall tb: Table, k: int | TraceOf(p, m, tb) ensures FaithfulOn(p, m, e, rs, b, tb, k) {
      var at := Row(p, tb, k);
      assert FaithfulOn(p, m, CoreOf(p, e), ts, b, tb, k);
      CoreHolds(p, e, st.Within(b), at);
      assert AllVanish(ts, at) <==> forall i :: 0 <= i < |ts| ==> Eval(ts[i], at) == 0;
      assert AllVanish(rs, at) <==> forall i :: 0 <= i < |rs| ==> Eval(rs[i], at) == 0;
    }
  }

  lemma SimplifiedDecides(st: Setting, m: Module, t: Term, r: Term, test: Test, sc: Scope)
    requires sc.p == st.p && sc.regs == m.registers && test.bounds == Reach(st.p, t)
    requires forall at: Row :: at.Over(sc) ==> Eval(r, at) == Eval(t, at)
    requires Expresses(st, m, t, test.goal, sc.bounds)
    ensures Decides(st, m, r, test)
  {
    forall tb: Table, k: int | InversesFilled(st.p, m, tb) ensures DecidesOn(st, r, test, tb, k) {
      assert TraceOf(st.p, m, tb) && ExpressesOn(st, m, t, test.goal, sc.bounds, tb, k);
      assert Row(st.p, tb, k).Over(sc);
    }
  }

  /** The syntactic condition under which a constraint is lowered without loss. */
  predicate LowersExactly(cfg: Config, p: Prime, e: Logical) {
    && LogicalFoldsExactly(p, Expand(true, e))
    && Lowerable(cfg, p, CoreOf(p, e))
  }

  /** Constraints to which lowering applies. */
  predicate Accepted(st: Setting, e: Logical) {
    && FitsInt(BoundsOfLogical(e)) && LowersExactly(st.config, st.p, e)
    && LogicalShaped(e, st.Within(BoundsOfLogical(e)))
  }

  /** Every trace accepted by a module satisfies a constraint. */
  ghost predicate Enforces(p: Prime, m: Module, c: Vanishing<Logical>) {
    forall tb: Table :: TraceOf(p, m, tb) && AllObeyed(p, m.constraints, tb) ==> Satisfies(p, c, tb)
  }

  lemma EnforcesLater(p: Prime, m: Module, n: Module, c: Vanishing<Logical>)
    requires Enforces(p, m, c) && Extends(m, n)
    ensures Enforces(p, n, c)
  {
    forall tb: Table | TraceOf(p, n, tb) && AllObeyed(p, n.constraints, tb) ensures Satisfies(p, c, tb) {
      assert AllObeyed(p, m.constraints, tb) by {
        assert forall x :: x in m.constraints ==> x in n.constraints;
      }
    }
  }

  lemma EverywhereObeyed(p: Prime, t: Term, tb: Table)
    ensures Obeys(p, Everywhere(t), tb) <==> Accepts(p, t, tb)
  {
    if Obeys(p, Everywhere(t), tb) {
      forall k | BoundsOf(t).Covers(k, tb.height) ensures Eval(t, Row(p, tb, k)) == 0 {
        assert TestedOn(None, BoundsOf(t), k, tb.height);
      }
    }
  }

  /** Constraints built from terms which express e, none of which is defined on fewer rows, enforce e. */
  lemma FaithfulEnforces(p: Prime, m: Module, c: Vanishing<Logical>, ts: seq<Term>)
    requires forall t :: t in ts ==> Vanishing(c.domain, t) in m.constraints
    requires AllShaped(ts, Scope(p, m.registers, BoundsOfLogical(c.constraint)))
    requires Faithful(p, m, c.constraint, ts, BoundsOfLogical(c.constraint))
    ensures Enforces(p, m, c)
  {
    var e, b := c.constraint, BoundsOfLogical(c.constraint);
    forall tb: Table | TraceOf(p, m, tb) && AllObeyed(p, m.constraints, tb) ensures Satisfies(p, c, tb) {
      forall k | TestedOn(c.domain, b, k, tb.height) ensures Holds(e, Row(p, tb, k)) {
        forall t | t in ts ensures Eval(t, Row(p, tb, k)) == 0 {
          ShapedBounds(t, Scope(p, m.registers, b));
          assert Obeys(p, Vanishing(c.domain, t), tb);
          assert TestedOn(c.domain, BoundsOf(t), k, tb.height);
        }
        assert AllVanish(ts, Row(p, tb, k)) && FaithfulOn(p, m, e, ts, b, tb, k);
      }
    }
  }

  lemma LoweredEnforces(st: Setting, m: Module, c: Vanishing<Logical>, ts: seq<Term>)
    requires forall t :: t in ts ==> Vanishing(c.domain, t) in m.constraints
    requires ConstraintLowered(st, m, c.constraint, ts)
    ensures Enforces(st.p, m, c)
  {
    FaithfulEnforces(st.p, m, c, ts);
  }

  // ---------------------------------------------------------------------------
  // Whole modules
  // ---------------------------------------------------------------------------

  /** Terms for each of some constraints, which are all a module holds besides the proofs of its inverses. */
  ghost predicate ModuleLowers(st: Setting, m: Module, cs: seq<Vanishing<Logical>>, tss: seq<seq<Term>>) {
    && ModuleValid(st.p, m) && st.regs == m.registers[..SourceWidth(m)] && |tss| == |cs|
    && (forall i :: 0 <= i < |cs| ==> ConstraintLowered(st, m, cs[i].constraint, tss[i]))
    && (forall i, t :: 0 <= i < |cs| && t in tss[i] ==> Vanishing(cs[i].domain, t) in m.constraints)
    && (forall c :: c in m.constraints ==> IsProof(m, c) || IsLowered(cs, tss, c))
  }

  ghost predicate IsLowered(cs: seq<Vanishing<Logical>>, tss: seq<seq<Term>>, c: Vanishing<Term>) {
    exists i :: 0 <= i < |cs| && i < |tss| && c.domain == cs[i].domain && c.constraint in tss[i]
  }

  /** All lowered terms of a constraint, on the domain it has. */
  ghost predicate TermsObeyed(p: Prime, domain: Option<int>, ts: seq<Term>, tb: Table) {
    forall t :: t in ts ==> Obeys(p, Vanishing(domain, t), tb)
  }

  /** A filled trace obeys what a constraint is lowered to if and only if it passes its tests. */
  lemma TestsDecide(st: Setting, m: Module, c: Vanishing<Logical>, ts: seq<Term>, tb: Table)
    requires ConstraintLowered(st, m, c.constraint, ts) && InversesFilled(st.p, m, tb)
    ensures TermsObeyed(st.p, c.domain, ts, tb) <==> Passes(st, c, tb)
  {
    hide Met, Holds, BoundsOfLogical, BoundsOf, TestsOf, InversesFilled, Faithful;
    var p, tests := st.p, TestsOf(st, c.constraint);
    forall i, k | 0 <= i < |ts| && TestedOn(c.domain, tests[i].bounds, k, tb.height)
      ensures Eval(ts[i], Row(p, tb, k)) == 0 <==> Succeeds(st, c.domain, tests[i].goal, Row(p, tb, k))
    {
      assert Decides(st, m, ts[i], tests[i]) && DecidesOn(st, ts[i], tests[i], tb, k);
    }
    if TermsObeyed(p, c.domain, ts, tb) {
      forall t, k | t in tests && TestedOn(c.domain, t.bounds, k, tb.height)
        ensures Succeeds(st, c.domain, t.goal, Row(p, tb, k))
      {
        var i :| 0 <= i < |tests| && tests[i] == t;
        assert ts[i] in ts && Obeys(p, Vanishing(c.domain, ts[i]), tb);
      }
    }
    if Passes(st, c, tb) {
      forall t, k | t in ts && TestedOn(c.domain, BoundsOf(t), k, tb.height) ensures Eval(t, Row(p, tb, k)) == 0 {
        var i :| 0 <= i < |ts| && ts[i] == t;
        assert tests[i] in tests;
      }
    }
  }

  /**
   * What acceptance comes down to: a trace of the source registers, completed with pseudo-inverses,
   * is accepted by the lowered module if and only if it passes all tests of all source constraints.
   */
  lemma LoweringDecides(st: Setting, m: Module, cs: seq<Vanishing<Logical>>, tss: seq<seq<Term>>, tb: Table)
    requires st.Valid() && ModuleLowers(st, m, cs, tss) && tb.Valid(st.p) && tb.registers == st.regs
    requires forall c :: c in cs ==> Accepted(st, c.constraint)
    ensures AllObeyed(st.p, m.constraints, Completed(st.p, m, tb, |m.assignments|)) <==>
            forall c :: c in cs ==> Passes(st, c, tb)
  {
    hide Accepted, Passes, Obeys, Completed, ConstraintLowered, InversesFilled;
    var p, wide := st.p, Completed(st.p, m, tb, |m.assignments|);
    CompletedTrusted(st, m, tb);
    forall i | 0 <= i < |cs| ensures TermsObeyed(p, cs[i].domain, tss[i], wide) <==> Passes(st, cs[i], tb) {
      assert cs[i] in cs;
      TestsDecide(st, m, cs[i], tss[i], wide);
      PassesExtended(st, cs[i], tb, wide);
    }
    if forall c :: c in cs ==> Passes(st, c, tb) {
      forall c | c in m.constraints ensures Obeys(p, c, wide) {
        if !IsProof(m, c) {
          var i :| 0 <= i < |cs| && c.domain == cs[i].domain && c.constraint in tss[i];
          assert cs[i] in cs && TermsObeyed(p, cs[i].domain, tss[i], wide);
          assert c == Vanishing(cs[i].domain, c.constraint);
        } else {
          var a :| a in m.assignments && c == Everywhere(InverseProof(a));
          EverywhereObeyed(p, InverseProof(a), wide);
        }
      }
    }
    if AllObeyed(p, m.constraints, wide) {
      forall c | c in cs ensures Passes(st, c, tb) {
        var i :| 0 <= i < |cs| && cs[i] == c;
        forall t | t in tss[i] ensures Obeys(p, Vanishing(c.domain, t), wide) {
          assert Vanishing(cs[i].domain, t) in m.constraints;
        }
        assert TermsObeyed(p, c.domain, tss[i], wide);
      }
    }
  }

  lemma CompletedTrusted(st: Setting, m: Module, tb: Table)
    requires ModuleValid(st.p, m) && tb.Valid(st.p) && tb.registers == st.regs == m.registers[..SourceWidth(m)]
    ensures var wide := Completed(st.p, m, tb, |m.assignments|);
      && InversesFilled(st.p, m, wide) && TableExtends(tb, wide)
      && forall a :: a in m.assignments ==> Accepts(st.p, InverseProof(a), wide)
  {
    CompletedHolds(st.p, m, tb, |m.assignments|);
    CompletedFilled(st.p, m, tb, |m.assignments|);
    assert m.registers[..SourceWidth(m) + |m.assignments|] == m.registers;
  }

  /** What is asked of a table by a constraint: to satisfy it, where this comes to the same as its tests. */
  ghost predicate Asked(st: Setting, c: Vanishing<Logical>, tb: Table) {
    if Direct(st, c, tb.height) then Satisfies(st.p, c, tb) else Passes(st, c, tb)
  }

  /** The same in terms of the constraints themselves, for each which is tested directly. */
  lemma LoweringDecidesDirect(st: Setting, m: Module, cs: seq<Vanishing<Logical>>, tss: seq<seq<Term>>, tb: Table)
    requires st.Valid() && ModuleLowers(st, m, cs, tss) && tb.Valid(st.p) && tb.registers == st.regs
    requires forall c :: c in cs ==> Accepted(st, c.constraint)
    ensures AllObeyed(st.p, m.constraints, Completed(st.p, m, tb, |m.assignments|)) <==>
            forall c :: c in cs ==> Asked(st, c, tb)
  {
    hide Passes, Satisfies, Direct, AllObeyed, Table.Valid, ModuleLowers;
    LoweringDecides(st, m, cs, tss, tb);
    forall c | c in cs ensures Passes(st, c, tb) <==> Asked(st, c, tb) {
      if Direct(st, c, tb.height) {
        DirectPasses(st, c, tb);
      }
    }
  }

  /** Terms defined on exactly those rows on which the constraint they express is. */
  ghost predicate SameRows(e: Logical, ts: seq<Term>) {
    forall t :: t in ts ==> BoundsOf(t) == BoundsOfLogical(e)
  }

  /** Whether lowering keeps the rows of a constraint can be told before it is carried out. */
  lemma AlignedIffSameRows(st: Setting, m: Module, e: Logical, ts: seq<Term>)
    requires ConstraintLowered(st, m, e, ts)
    ensures SameRows(e, ts) <==> Aligned(st, e)
  {
    var tests := TestsOf(st, e);
    forall i | 0 <= i < |ts| ensures BoundsOf(ts[i]) == tests[i].bounds && ts[i] in ts && tests[i] in tests {
    }
  }

  lemma PassesExtended(st: Setting, c: Vanishing<Logical>, tb: Table, wide: Table)
    requires Accepted(st, c.constraint) && st.Valid() && tb.Valid(st.p) && tb.registers == st.regs
    requires TableExtends(tb, wide) && wide.Valid(st.p)
    ensures Passes(st, c, wide) <==> Passes(st, c, tb)
  {
    hide Holds, LogicalShaped, PiecesOf, CoreOf, Lowerable, LogicalFoldsExactly, BoundsOfLogical, Table.Valid;
    var e, b := c.constraint, BoundsOfLogical(c.constraint);
    CoreIsCore(st.p, e, st.Within(b));
    PiecesShaped(st, CoreOf(st.p, e), b);
    var ps, tests := PiecesOf(st, CoreOf(st.p, e)), TestsOf(st, e);
    forall t, k | t in tests
      ensures Succeeds(st, c.domain, t.goal, Row(st.p, wide, k)) <==> Succeeds(st, c.domain, t.goal, Row(st.p, tb, k))
    {
      var i :| 0 <= i < |tests| && tests[i] == t;
      assert ps[i] in ps;
      HoldsExtended(t.goal, st.Within(b), st.p, tb, wide, k);
      MetExtended(Inside(st), t.goal, st.Within(b), st.p, tb, wide, k);
    }
  }

  lemma {:induction false} MetExtended(
    rd: Reading, e: Logical, sc: Scope, p: Prime, tb: Table, wide: Table, k: int)
    requires LogicalShaped(e, sc) && sc.p == p && sc.regs <= tb.registers && tb.Valid(p)
    requires TableExtends(tb, wide) && wide.Valid(p)
    ensures Met(rd, e, Row(p, wide, k)) <==> Met(rd, e, Row(p, tb, k))
  {
    if e.Conjunct? || e.Disjunct? {
      forall a | a in e.args ensures Met(rd, a, Row(p, wide, k)) <==> Met(rd, a, Row(p, tb, k)) {
        MetExtended(rd, a, sc, p, tb, wide, k);
      }
    } else {
      HoldsExtended(e, sc, p, tb, wide, k);
    }
  }

  lemma {:induction false} HoldsExtended(e: Logical, sc: Scope, p: Prime, tb: Table, wide: Table, k: int)
    requires LogicalShaped(e, sc) && sc.p == p && sc.regs <= tb.registers && tb.Valid(p)
    requires TableExtends(tb, wide) && wide.Valid(p)
    ensures Holds(e, Row(p, wide, k)) <==> Holds(e, Row(p, tb, k))
  {
    match e
    case Equal(l, r) => EvalExtended(l, sc, p, tb, wide, k); EvalExtended(r, sc, p, tb, wide, k);
    case NotEqual(l, r) => EvalExtended(l, sc, p, tb, wide, k); EvalExtended(r, sc, p, tb, wide, k);
    case Conjunct(args) =>
      forall a | a in args ensures Holds(a, Row(p, wide, k)) <==> Holds(a, Row(p, tb, k)) {
        HoldsExtended(a, sc, p, tb, wide, k);
      }
    case Disjunct(args) =>
      forall a | a in args ensures Holds(a, Row(p, wide, k)) <==> Holds(a, Row(p, tb, k)) {
        HoldsExtended(a, sc, p, tb, wide, k);
      }
    case Negate(arg) => HoldsExtended(arg, sc, p, tb, wide, k);
    case Ite(c, t, f) =>
      HoldsExtended(c, sc, p, tb, wide, k);
      if t.Some? { HoldsExtended(t.value, sc, p, tb, wide, k); }
      if f.Some? { HoldsExtended(f.value, sc, p, tb, wide, k); }
  }

  // ---------------------------------------------------------------------------
  // The lowering
  // ---------------------------------------------------------------------------

  /** Lowers constraints into a module which grows as inverse registers are needed. */
  class Lowering {
    const st: Setting
    var registers: seq<Register>
    var assignments: seq<PseudoInverse>
    var constraints: seq<Vanishing<Term>>

    ghost function State(): Module
      reads this
    {
      Module(registers, assignments, constraints)
    }

    ghost function Over(b: Bounds): Scope
      reads this
    {
      Scope(st.p, registers, b)
    }

    ghost predicate Valid()
      reads this
    {
      st.Valid() && ModuleValid(st.p, State()) && st.regs == registers[..SourceWidth(State())]
    }

    constructor (st: Setting)
      requires st.Valid()
      ensures Valid() && State() == Module(st.regs, [], []) && this.st == st
    {
      this.st := st;
      this.registers := st.regs;
      this.assignments := [];
      this.constraints := [];
    }

    /** The register holding the pseudo-inverse of an expression, which is added unless it exists. */
    method PseudoInverseOf(e: Term) returns (index: nat)
      requires Valid() && Shaped(e, Over(BoundsOf(e)))
      modifies this
      ensures Valid() && Grows(old(State()), State())
      ensures PseudoInverse(index, e) in assignments
      ensures (exists i :: PseudoInverse(i, e) in old(assignments)) ==> State() == old(State())
      ensures |assignments| > |old(assignments)| ==>
                && (forall i :: PseudoInverse(i, e) !in old(assignments))
                && registers == old(registers) + [INVERSE_REGISTER] && index == |old(registers)|
    {
      for i := 0 to |assignments|
        invariant forall a :: a in assignments[..i] ==> a.expr != e
        invariant State() == old(State())
      {
        if assignments[i].expr == e {
          return assignments[i].target;
        }
        assert assignments[..i + 1] == assignments[..i] + [assignments[i]];
      }
      assert assignments[..|assignments|] == assignments;
      ghost var before := State();
      index := |registers|;
      var a := PseudoInverse(index, e);
      registers := registers + [INVERSE_REGISTER];
      assignments := assignments + [a];
      constraints := constraints + [Everywhere(InverseProof(a))];
      forall x | x in assignments ensures AssignmentValid(st.p, State(), x) {
        if x in before.assignments {
          AssignmentValidLater(st.p, before, State(), x);
        } else {
          assert registers[..index] == before.registers;
        }
      }
    }

    /** The general way to normalise a term: multiply it with its pseudo-inverse. */
    method NormaliseByInverse(arg: Term, ghost b: Bounds) returns (norm: Term, ghost inverse: nat)
      requires Valid() && Shaped(arg, Over(b)) && FitsInt(b) && (st.config.shiftNormalisation ==> Reads(arg))
      requires TakesInverse(st.config, arg)
      requires FoldsExactly(st.p, ApplyShift(arg, -NormalisingShift(st.config, arg)))
      requires FoldsExactly(st.p, ApplyShift(Inverted(st.config, st.p, arg), NormalisingShift(st.config, arg)))
      modifies this
      ensures Valid() && Grows(old(State()), State())
      ensures norm == Normalised(st.config, st.p, arg, inverse)
      ensures var e := Inverted(st.config, st.p, arg);
        && PseudoInverse(inverse, e) in assignments
        && ((exists i :: PseudoInverse(i, e) in old(assignments)) ==> State() == old(State()))
      ensures NormalisedBy(st, State(), arg, norm, b)
      ensures FoldsExactly(st.p, Subtract([Constant(1), norm]))
    {
      hide FoldsExactly, NormalisedBy, InverseProof, Shaped, BoundsOf, ApplyShift, NormalisingShift, Reads, RangeOf;
      ghost var sc := Over(b);
      var shift := NormalisingShift(st.config, arg);
      var inverted := SimplifyTerm(st.p, ApplyShift(arg, -shift));
      InvertedShaped(st.config, arg, sc);
      var index := PseudoInverseOf(inverted);
      inverse := index;
      norm := ApplyShift(Product([inverted, FieldAccess(index)]), shift);
      ShapedWiden(arg, sc, Over(b));
      InverseNormal(st, State(), arg, index, b);
      NormalisedExact(st.p, inverted, FieldAccess(index), shift);
      OneMinusExact(st.p, norm);
    }

    /** A term which is 0 where the given term vanishes, and 1 otherwise. */
    method Normalise(arg: Term, ghost b: Bounds) returns (norm: Term, ghost inverse: nat)
      requires Valid() && Shaped(arg, Over(b)) && FitsInt(b) && InequalityExact(st.config, st.p, arg)
      modifies this
      ensures Valid() && Grows(old(State()), State())
      ensures norm == NormalForm(st.config, st.p, arg, inverse)
      ensures NormalisedBy(st, State(), arg, norm, b)
      ensures FoldsExactly(st.p, Subtract([Constant(1), norm]))
      ensures IsBinary(st.config, arg) || IsTernary(st.config, arg) ==> State() == old(State())
    {
      inverse := 0;
      if IsBinary(st.config, arg) {
        AlreadyNormal(st, State(), arg, b);
        norm := arg;
        return;
      } else if IsTernary(st.config, arg) {
        SquareNormal(st, State(), arg, b);
        norm := Product([arg, arg]);
        return;
      }
      norm, inverse := NormaliseByInverse(arg, b);
    }

    method LowerNonEquality(l: Term, r: Term, ghost b: Bounds) returns (ts: seq<Term>)
      requires Valid() && FitsInt(b)
      requires LogicalShaped(NotEqual(l, r), st.Within(b)) && Lowerable(st.config, st.p, NotEqual(l, r))
      modifies this
      ensures Valid() && Grows(old(State()), State())
      ensures Lowered(st, State(), NotEqual(l, r), ts, b)
    {
      var eq := Difference(l, r);
      LogicalShapedWiden(NotEqual(l, r), st.Within(b), Over(b));
      DifferenceShaped(l, r, Over(b));
      ghost var sc := Over(b);
      ghost var inverse;
      var norm;
      norm, inverse := Normalise(eq, b);
      LogicalShapedWiden(NotEqual(l, r), sc, Over(b));
      InequalityRealised(st, State(), l, r, inverse, b);
      ts := [Subtract([Constant(1), norm])];
      RealisedIsLowered(st, State(), NotEqual(l, r), ts, b);
    }

    method LowerLogicals(es: seq<Logical>, ghost n: nat, ghost b: Bounds) returns (tss: seq<seq<Term>>)
      requires Valid() && FitsInt(b)
      requires forall e :: e in es ==> LogicalShaped(e, st.Within(b)) && Lowerable(st.config, st.p, e) && Size(e) <= n
      modifies this
      ensures Valid() && Grows(old(State()), State())
      ensures LoweredLists(st, State(), es, tss, b)
      decreases n, 3
    {
      hide Lowered, ModuleValid, LogicalShaped, Lowerable, Grows, FitsInt;
      GrowsItself(State());
      tss := [];
      for i := 0 to |es|
        invariant Valid() && Grows(old(State()), State())
        invariant LoweredLists(st, State(), es[..i], tss, b)
      {
        assert es[i] in es;
        ghost var before := State();
        var ts := LowerLogical(es[i], b);
        GrowsExtends(before, State());
        LoweredListsLater(st, before, State(), es[..i], tss, b);
        GrowsTransitive(old(State()), before, State());
        tss := tss + [ts];
      }
      assert es[..|es|] == es;
    }

    method LowerConjunct(args: seq<Logical>, ghost b: Bounds) returns (sums: seq<Term>)
      requires Valid() && FitsInt(b)
      requires LogicalShaped(Conjunct(args), st.Within(b)) && Lowerable(st.config, st.p, Conjunct(args))
      modifies this
      ensures Valid() && Grows(old(State()), State())
      ensures Lowered(st, State(), Conjunct(args), sums, b)
      decreases Size(Conjunct(args)), 1
    {
      forall a | a in args ensures Size(a) <= SizeOfAll(args) {
        MemberSize(args, a);
      }
      var tss := LowerLogicals(args, SizeOfAll(args), b);
      // flatten conjuncts
      var worklist: seq<Term> := [];
      for i := 0 to |tss|
        invariant worklist == Concat(tss[..i])
      {
        assert tss[..i + 1][..i] == tss[..i];
        worklist := worklist + tss[i];
      }
      assert tss[..|tss|] == tss;
      ListsShaped(st, State(), args, tss, b);
      ghost var packets;
      sums, packets := SumByBounds(st.config.fieldBandwidth, worklist, Over(b));
      forall s | s in sums ensures FoldsExactly(st.p, s) {
        var packet: seq<Term> :| s == Sum(packet) && forall t :: t in packet ==> t in worklist;
        BuiltExact(st.p, packet);
      }
      ConjunctLowered(st, State(), args, tss, sums, b);
    }

    method LowerDisjunct(args: seq<Logical>, ghost b: Bounds) returns (ts: seq<Term>)
      requires Valid() && FitsInt(b)
      requires LogicalShaped(Disjunct(args), st.Within(b)) && Lowerable(st.config, st.p, Disjunct(args))
      modifies this
      ensures Valid() && Grows(old(State()), State())
      ensures Lowered(st, State(), Disjunct(args), ts, b)
      decreases Size(Disjunct(args)), 1
    {
      ghost var sc := st.Within(b);
      var nterms, worklist := SplitChecks(args, registers, sc);
      ghost var packets;
      var packed;
      packed, packets := PackChecks(st.config.fieldBandwidth, worklist, sc);
      assert nterms + packed == Regrouped(st, args);
      RegroupedLowerable(st, args, b);
      var tss := LowerLogicals(nterms + packed, SizeOfAll(args), b);
      DisjunctLowered(st, State(), args, tss, b);
      ts := DisjunctionOf(tss);
    }

    /** Lower a constraint without conditionals or negations. */
    method LowerLogical(e: Logical, ghost b: Bounds) returns (ts: seq<Term>)
      requires Valid() && FitsInt(b)
      requires LogicalShaped(e, st.Within(b)) && Lowerable(st.config, st.p, e)
      modifies this
      ensures Valid() && Grows(old(State()), State())
      ensures Lowered(st, State(), e, ts, b)
      decreases Size(e), 2
    {
      match e {
        case Conjunct(args) =>
          ts := LowerConjunct(args, b);
        case Disjunct(args) =>
          ts := LowerDisjunct(args, b);
        case Equal(l, r) =>
          LogicalShapedWiden(e, st.Within(b), Over(b));
          DifferenceShaped(l, r, Over(b));
          EqualityRealised(st, State(), l, r, b);
          ts := [Difference(l, r)];
          RealisedIsLowered(st, State(), e, ts, b);
        case NotEqual(l, r) =>
          ts := LowerNonEquality(l, r, b);
      }
    }

    /** Expand, simplify and lower an arbitrary constraint, then simplify what it was lowered to. */
    method LowerAndSimplify(e: Logical) returns (ts: seq<Term>)
      requires Valid() && Accepted(st, e)
      modifies this
      ensures Valid() && Grows(old(State()), State())
      ensures ConstraintLowered(st, State(), e, ts)
    {
      ghost var b := BoundsOfLogical(e);
      CoreIsCore(st.p, e, st.Within(b));
      var terms := LowerLogical(CoreOf(st.p, e), b);
      SimplifiedLowered(st, State(), e, terms);
      ts := SimplifyEach(st.p, terms);
    }

    /** Add a constraint, on a given domain, for each of some terms. */
    method AddConstraints(domain: Option<int>, terms: seq<Term>)
      requires Valid()
      modifies this
      ensures Valid() && Extends(old(State()), State())
      ensures registers == old(registers) && assignments == old(assignments)
      ensures forall t :: t in terms ==> Vanishing(domain, t) in constraints
      ensures forall x :: x in constraints ==> x in old(constraints) || (x.domain == domain && x.constraint in terms)
    {
      hide AssignmentValid;
      ghost var before := State();
      for i := 0 to |terms|
        invariant registers == before.registers && assignments == before.assignments
        invariant before.constraints <= constraints
        invariant forall t :: t in terms[..i] ==> Vanishing(domain, t) in constraints
        invariant forall x :: x in constraints ==>
                    x in before.constraints || (x.domain == domain && x.constraint in terms[..i])
      {
        assert terms[..i + 1] == terms[..i] + [terms[i]];
        constraints := constraints + [Vanishing(domain, terms[i])];
      }
      assert terms[..|terms|] == terms;
      forall a | a in assignments ensures AssignmentValid(st.p, State(), a) {
        AssignmentValidLater(st.p, before, State(), a);
      }
    }

    /** Add a vanishing constraint, on the same domain, for each of the terms expressing a constraint. */
    method LowerVanishing(c: Vanishing<Logical>) returns (ghost ts: seq<Term>)
      requires Valid() && Accepted(st, c.constraint)
      modifies this
      ensures Valid() && Extends(old(State()), State())
      ensures ConstraintLowered(st, State(), c.constraint, ts) && Enforces(st.p, State(), c)
      ensures forall t :: t in ts ==> Vanishing(c.domain, t) in constraints
      ensures forall x :: x in constraints ==>
                x in old(constraints) || (x.domain == c.domain && x.constraint in ts) || IsProof(State(), x)
    {
      hide AssignmentValid, ConstraintLowered, Accepted, InverseProof;
      var terms := LowerAndSimplify(c.constraint);
      ghost var before := State();
      ts := terms;
      AddConstraints(c.domain, terms);
      ConstraintLoweredLater(st, before, State(), c.constraint, ts);
      LoweredEnforces(st, State(), c, ts);
    }

    /** Lower all constraints of a module. */
    method LowerModule(cs: seq<Vanishing<Logical>>) returns (ghost tss: seq<seq<Term>>)
      requires Valid() && constraints == []
      requires forall c :: c in cs ==> Accepted(st, c.constraint)
      modifies this
      ensures Valid() && Extends(old(State()), State())
      ensures ModuleLowers(st, State(), cs, tss)
      ensures forall c :: c in cs ==> Enforces(st.p, State(), c)
    {
      hide ConstraintLowered, AssignmentValid, Accepted, Enforces, IsProof, IsLowered;
      tss := [];
      NothingLowered(st, State());
      for i := 0 to |cs|
        invariant Valid() && Extends(old(State()), State())
        invariant ModuleLowers(st, State(), cs[..i], tss)
        invariant forall c :: c in cs[..i] ==> Enforces(st.p, State(), c)
      {
        assert cs[i] in cs;
        ghost var before := State();
        ghost var ts := LowerVanishing(cs[i]);
        ModuleLowersNext(st, before, State(), cs[..i], tss, cs[i], ts);
        forall c | c in cs[..i] ensures Enforces(st.p, State(), c) {
          EnforcesLater(st.p, before, State(), c);
        }
        tss := tss + [ts];
        assert cs[..i + 1] == cs[..i] + [cs[i]];
      }
      assert cs[..|cs|] == cs;
    }
  }

  lemma GrowsItself(m: Module)
    ensures Grows(m, m)
  {
  }

  lemma GrowsExtends(m: Module, n: Module)
    requires Grows(m, n)
    ensures Extends(m, n)
  {
  }

  lemma RegroupedLowerable(st: Setting, args: seq<Logical>, b: Bounds)
    requires st.Valid() && LogicalShaped(Disjunct(args), st.Within(b))
    requires Lowerable(st.config, st.p, Disjunct(args))
    ensures forall e :: e in Regrouped(st, args) ==> LogicalShaped(e, st.Within(b)) && Lowerable(st.config, st.p, e)
  {
    var sc, bandwidth := st.Within(b), st.config.fieldBandwidth;
    AmongHold(args, sc);
    PackedChecksHold(bandwidth, ChecksAmong(args, st.regs), sc);
    forall e | e in Regrouped(st, args) ensures LogicalShaped(e, sc) && Lowerable(st.config, st.p, e) {
      if e in PackedChecks(bandwidth, ChecksAmong(args, st.regs)) {
        PacketLowerable(st.config, st.p, e, sc);
      }
    }
  }

  lemma NothingLowered(st: Setting, m: Module)
    requires ModuleValid(st.p, m) && st.regs == m.registers[..SourceWidth(m)] && m.constraints == []
    ensures ModuleLowers(st, m, [], [])
  {
  }

  lemma ModuleLowersNext(st: Setting, m: Module, n: Module, cs: seq<Vanishing<Logical>>, tss: seq<seq<Term>>,
    c: Vanishing<Logical>, ts: seq<Term>)
    requires ModuleLowers(st, m, cs, tss) && ModuleValid(st.p, n) && Extends(m, n)
    requires st.regs == n.registers[..SourceWidth(n)] && ConstraintLowered(st, n, c.constraint, ts)
    requires forall t :: t in ts ==> Vanishing(c.domain, t) in n.constraints
    requires forall x :: x in n.constraints ==>
               x in m.constraints || (x.domain == c.domain && x.constraint in ts) || IsProof(n, x)
    ensures ModuleLowers(st, n, cs + [c], tss + [ts])
  {
    hide ConstraintLowered, AssignmentValid, InverseProof;
    var ds, uss := cs + [c], tss + [ts];
    forall i | 0 <= i < |cs| ensures ConstraintLowered(st, n, cs[i].constraint, tss[i]) {
      ConstraintLoweredLater(st, m, n, cs[i].constraint, tss[i]);
    }
    forall i, t | 0 <= i < |cs| && t in tss[i] ensures Vanishing(cs[i].domain, t) in n.constraints {
      assert Vanishing(cs[i].domain, t) in m.constraints;
    }
    forall x | x in n.constraints && !IsProof(n, x) ensures IsLowered(ds, uss, x) {
      if x in m.constraints {
        assert !IsProof(m, x) by {
          assert forall a :: a in m.assignments ==> a in n.assignments;
        }
        var i :| 0 <= i < |cs| && i < |tss| && x.domain == cs[i].domain && x.constraint in tss[i];
        assert uss[i] == tss[i] && ds[i] == cs[i];
      } else {
        assert uss[|cs|] == ts && ds[|cs|] == c;
      }
    }
  }

  lemma ConstraintLoweredLater(st: Setting, m: Module, n: Module, e: Logical, ts: seq<Term>)
    requires ConstraintLowered(st, m, e, ts) && Extends(m, n)
    ensures ConstraintLowered(st, n, e, ts)
  {
    var p, b, tests := st.p, BoundsOfLogical(e), TestsOf(st, e);
    forall t | t in ts ensures Shaped(t, Scope(p, n.registers, b)) {
      ShapedWiden(t, Scope(p, m.registers, b), Scope(p, n.registers, b));
    }
    FaithfulLater(p, m, n, e, ts, b);
    forall i | 0 <= i < |ts| ensures Decides(st, n, ts[i], tests[i]) {
      forall tb: Table, k: int | InversesFilled(p, n, tb) ensures DecidesOn(st, ts[i], tests[i], tb, k) {
        InversesFilledBefore(p, m, n, tb);
        assert Decides(st, m, ts[i], tests[i]);
      }
    }
  }

  lemma InvertedShaped(cfg: Config, t: Term, sc: Scope)
    requires Shaped(t, sc) && FitsInt(sc.bounds) && (cfg.shiftNormalisation ==> Reads(t))
    ensures Shaped(Inverted(cfg, sc.p, t), sc.(bounds := BoundsOf(Inverted(cfg, sc.p, t))))
  {
    var s := NormalisingShift(cfg, t);
    NormalisingShiftInBounds(cfg, t, sc);
    var inner := sc.(bounds := ShiftedBounds(sc.bounds, s));
    SimplifyShaped(ApplyShift(t, -s), inner);
    ShapedBounds(Inverted(cfg, sc.p, t), inner);
  }

  // ---------------------------------------------------------------------------
  // From source constraints to an accepted trace
  // ---------------------------------------------------------------------------

  /**
   * Lower the constraints of a module from scratch.  Whatever the inverse registers of an accepted
   * trace hold, it satisfies the source constraints.  A trace of the source registers, completed with
   * pseudo-inverses, is accepted if and only if it passes their tests; which, for each constraint tested
   * directly, is to satisfy it.
   */
  method Lower(st: Setting, cs: seq<Vanishing<Logical>>) returns (m: Module)
    requires st.Valid() && forall c :: c in cs ==> Accepted(st, c.constraint)
    ensures ModuleValid(st.p, m) && st.regs == m.registers[..SourceWidth(m)]
    ensures forall c :: c in cs ==> Enforces(st.p, m, c)
    ensures forall tb: Table :: tb.Valid(st.p) && tb.registers == st.regs ==>
              (AllObeyed(st.p, m.constraints, Completed(st.p, m, tb, |m.assignments|)) <==>
               forall c :: c in cs ==> Passes(st, c, tb))
    ensures forall tb: Table :: tb.Valid(st.p) && tb.registers == st.regs ==>
              (AllObeyed(st.p, m.constraints, Completed(st.p, m, tb, |m.assignments|)) <==>
               forall c :: c in cs ==> Asked(st, c, tb))
  {
    hide ModuleLowers, Accepted, Passes, Asked, Enforces, AllObeyed, Table.Valid;
    var lowering := new Lowering(st);
    ghost var tss := lowering.LowerModule(cs);
    m := Module(lowering.registers, lowering.assignments, lowering.constraints);
    forall tb: Table | tb.Valid(st.p) && tb.registers == st.regs
      ensures AllObeyed(st.p, m.constraints, Completed(st.p, m, tb, |m.assignments|)) <==>
              forall c :: c in cs ==> Passes(st, c, tb)
      ensures AllObeyed(st.p, m.constraints, Completed(st.p, m, tb, |m.assignments|)) <==>
              forall c :: c in cs ==> Asked(st, c, tb)
    {
      LoweringDecides(st, m, cs, tss, tb);
      LoweringDecidesDirect(st, m, cs, tss, tb);
    }
  }
}
