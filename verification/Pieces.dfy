// What a constraint is tested as: which parts of it, on which rows.

/** The pieces into which lowering breaks a constraint, one for each lowered term. */
module Pieces {
  import opened Congruence
  import opened PrimeField
  import opened Tables
  import opened Terms
  import opened Builders
  import opened Ranges
  import opened Packing
  import opened Logic
  import opened TermLowering
  import opened NonZeroChecks
  import opened Normalisation
  import opened Outlines

  /** All that lowering depends on besides the constraint itself. */
  datatype Setting = Setting(config: Config, p: Prime, regs: seq<Register>) {

    ghost predicate Valid() {
      Pow2(config.fieldBandwidth) <= p
    }

    function Within(b: Bounds): Scope {
      Scope(p, regs, b)
    }
  }

  /** The outline of a lowered term, and the constraint which holds where that term vanishes. */
  datatype Piece = Piece(outline: Term, goal: Logical)

  function OutlinesOf(ps: seq<Piece>): (ts: seq<Term>)
    ensures |ts| == |ps| && forall i :: 0 <= i < |ps| ==> ts[i] == ps[i].outline
  {
    seq(|ps|, i requires 0 <= i < |ps| => ps[i].outline)
  }

  function GoalsOf(ps: seq<Piece>): (es: seq<Logical>)
    ensures |es| == |ps| && forall i :: 0 <= i < |ps| ==> es[i] == ps[i].goal
  {
    seq(|ps|, i requires 0 <= i < |ps| => ps[i].goal)
  }

  /** Where inverses can be read: wherever they are wanted, or just on the rows of the table. */
  datatype Reading = Anywhere | Inside(st: Setting)

  /** Whether normalising a term on row k takes no inverse, or one which is held within the table. */
  predicate InverseRead(cfg: Config, t: Term, k: int, height: nat) {
    || (RangeOf(t).Proper() && (IsBinary(cfg, t) || IsTernary(cfg, t)))
    || 0 <= k + NormalisingShift(cfg, t) < height
  }

  /**
   * Whether a constraint holds on a row and, if inverses can only be read inside of the table, none
   * of the inequalities this takes needs one from outside.
   */
  ghost predicate Met(rd: Reading, e: Logical, at: Row) {
    match e
    case Equal(l, r) => Eval(l, at) == Eval(r, at)
    case NotEqual(l, r) =>
      Eval(l, at) != Eval(r, at) && (rd.Inside? ==> InverseRead(rd.st.config, Difference(l, r), at.k, at.tb.height))
    case Conjunct(args) => forall a :: a in args ==> Met(rd, a, at)
    case Disjunct(args) => exists a :: a in args && Met(rd, a, at)
    case Negate(_) => Holds(e, at)
    case Ite(_, _, _) => Holds(e, at)
  }

  /** What is met holds; and with inverses at hand anywhere, what holds is met. */
  lemma {:induction false} MetHolds(rd: Reading, e: Logical, at: Row)
    ensures Met(rd, e, at) ==> Holds(e, at)
    ensures Met(Anywhere, e, at) <==> Holds(e, at)
  {
    if e.Conjunct? || e.Disjunct? {
      forall a | a in e.args
        ensures Met(rd, a, at) ==> Holds(a, at)
        ensures Met(Anywhere, a, at) <==> Holds(a, at)
      {
        MetHolds(rd, a, at);
      }
    }
  }

  ghost predicate AllGoals(rd: Reading, ps: seq<Piece>, at: Row) {
    forall q :: q in ps ==> Met(rd, q.goal, at)
  }

  predicate GoalsShaped(ps: seq<Piece>, sc: Scope) {
    forall q :: q in ps ==> LogicalShaped(q.goal, sc)
  }

  lemma GoalsMet(rd: Reading, ps: seq<Piece>, at: Row)
    ensures Met(rd, Conjunct(GoalsOf(ps)), at) <==> AllGoals(rd, ps, at)
  {
    forall q | q in ps ensures q.goal in GoalsOf(ps) {
      var i :| 0 <= i < |ps| && ps[i] == q;
      assert GoalsOf(ps)[i] == q.goal;
    }
    forall e | e in GoalsOf(ps) ensures exists q :: q in ps && q.goal == e {
      var i :| 0 <= i < |ps| && GoalsOf(ps)[i] == e;
      assert ps[i] in ps;
    }
  }

  // ---------------------------------------------------------------------------
  // Sums
  // ---------------------------------------------------------------------------

  function PiecesWithBounds(ps: seq<Piece>, b: Bounds): seq<Piece> {
    if ps == [] then []
    else
      var last := ps[|ps| - 1];
      PiecesWithBounds(ps[..|ps| - 1], b) + (if BoundsOf(last.outline) == b then [last] else [])
  }

  /** The piece for the sum of a packet, which tests all of its goals at once. */
  function SumPiece(packet: seq<Piece>): Piece {
    Piece(Sum(OutlinesOf(packet)), Conjunct(GoalsOf(packet)))
  }

  function SumPieces(bandwidth: nat, group: seq<Piece>): seq<Piece> {
    if group == [] then []
    else
      var n := PacketLength(bandwidth, OutlinesOf(group));
      [SumPiece(group[..n])] + SumPieces(bandwidth, group[n..])
  }

  function SumPieceGroups(bandwidth: nat, ps: seq<Piece>, keys: seq<Bounds>): seq<Piece> {
    if keys == [] then []
    else
      SumPieceGroups(bandwidth, ps, keys[..|keys| - 1]) +
      SumPieces(bandwidth, PiecesWithBounds(ps, keys[|keys| - 1]))
  }

  /** Pieces are summed with others of the same bounds, as many at once as cannot overflow. */
  function Summed(bandwidth: nat, ps: seq<Piece>): seq<Piece> {
    SumPieceGroups(bandwidth, ps, DistinctBounds(OutlinesOf(ps)))
  }

  // ---------------------------------------------------------------------------
  // Cross products
  // ---------------------------------------------------------------------------

  /** The piece for a product, which tests that either goal is met. */
  function EitherPiece(l: Piece, r: Piece): Piece {
    Piece(Product([l.outline, r.outline]), Disjunct([l.goal, r.goal]))
  }

  function DistributePiece(l: Piece, rs: seq<Piece>): seq<Piece> {
    if rs == [] then [] else [EitherPiece(l, rs[0])] + DistributePiece(l, rs[1..])
  }

  function DistributePieces(ls: seq<Piece>, rs: seq<Piece>): seq<Piece> {
    if ls == [] then [] else DistributePiece(ls[0], rs) + DistributePieces(ls[1..], rs)
  }

  /** One piece for every choice of a piece from each of the given lists. */
  function Choices(pss: seq<seq<Piece>>): seq<Piece> {
    if |pss| == 0 then [Piece(Constant(1), FALSE)]
    else if |pss| == 1 then pss[0]
    else DistributePieces(pss[0], Choices(pss[1..]))
  }

  // ---------------------------------------------------------------------------
  // Constraints
  // ---------------------------------------------------------------------------

  /** Disjuncts as they are lowered: first those which are no checks, then packets of checks. */
  function Regrouped(st: Setting, args: seq<Logical>): (es: seq<Logical>)
    ensures forall e :: e in es ==> Size(e) <= SizeOfAll(args)
  {
    var others, checks := OthersAmong(args, st.regs), ChecksAmong(args, st.regs);
    RegroupedSize(args, st.regs, st.config.fieldBandwidth);
    others + PackedChecks(st.config.fieldBandwidth, checks)
  }

  lemma MemberSize(es: seq<Logical>, e: Logical)
    requires e in es
    ensures Size(e) <= SizeOfAll(es)
  {
    if es[0] != e {
      MemberSize(es[1..], e);
    }
  }

  lemma {:induction false} PacketsSize(bandwidth: nat, cs: seq<NonZeroCheck>)
    ensures forall e :: e in PackedChecks(bandwidth, cs) ==> e.NotEqual? && Size(e) == 1
  {
    if cs != [] {
      PacketsSize(bandwidth, cs[CheckLength(bandwidth, cs)..]);
    }
  }

  lemma RegroupedSize(args: seq<Logical>, regs: seq<Register>, bandwidth: nat)
    ensures forall e :: e in OthersAmong(args, regs) + PackedChecks(bandwidth, ChecksAmong(args, regs)) ==>
              Size(e) <= SizeOfAll(args)
  {
    PacketsSize(bandwidth, ChecksAmong(args, regs));
    forall e | e in args ensures Size(e) <= SizeOfAll(args) {
      MemberSize(args, e);
    }
    if args != [] {
      assert Size(args[0]) > 0 && args[0] in args;
    }
  }

  /** The term for an inequality, given that for the difference of its sides. */
  function InequalityTerm(cfg: Config, p: Prime, d: Term, inverse: nat): Term {
    Subtract([Constant(1), NormalForm(cfg, p, d, inverse)])
  }

  /** The normal form of a term whose inverse, should one be needed, is held in a given register. */
  function NormalForm(cfg: Config, p: Prime, t: Term, inverse: nat): Term {
    if RangeOf(t).Proper() && IsBinary(cfg, t) then t
    else if RangeOf(t).Proper() && IsTernary(cfg, t) then Product([t, t])
    else Normalised(cfg, p, t, inverse)
  }

  /** The pieces of a constraint without conditionals or negations. */
  function PiecesOf(st: Setting, e: Logical): seq<Piece>
    decreases Size(e), 0
  {
    match e
    case Equal(l, r) => [Piece(Outline(Difference(l, r)), e)]
    case NotEqual(l, r) => [Piece(Outline(InequalityTerm(st.config, st.p, Difference(l, r), 0)), e)]
    case Conjunct(args) =>
      assert forall a :: a in args ==> Size(a) <= SizeOfAll(args) by {
        forall a | a in args ensures Size(a) <= SizeOfAll(args) { MemberSize(args, a); }
      }
      Summed(st.config.fieldBandwidth, Concat(PiecesOfAll(st, args, SizeOfAll(args))))
    case Disjunct(args) => Choices(PiecesOfAll(st, Regrouped(st, args), SizeOfAll(args)))
    case Negate(_) => []
    case Ite(_, _, _) => []
  }

  function PiecesOfAll(st: Setting, es: seq<Logical>, n: nat): (pss: seq<seq<Piece>>)
    requires forall e :: e in es ==> Size(e) <= n
    ensures |pss| == |es| && forall i :: 0 <= i < |es| ==> pss[i] == PiecesOf(st, es[i])
    decreases n, 1
  {
    seq(|es|, i requires 0 <= i < |es| => PiecesOf(st, es[i]))
  }
}

/** On every row, the pieces of a constraint amount to the constraint. */
module PieceMeanings {
  import opened Tables
  import opened Terms
  import opened Packing
  import opened Logic
  import opened LogicProperties
  import opened NonZeroChecks
  import opened Pieces

  lemma AllGoalsConcat(rd: Reading, xs: seq<Piece>, ys: seq<Piece>, at: Row)
    ensures AllGoals(rd, xs + ys, at) <==> AllGoals(rd, xs, at) && AllGoals(rd, ys, at)
  {
    assert forall q :: q in xs + ys <==> q in xs || q in ys;
  }

  lemma {:induction false} PiecesWithBoundsMembers(ps: seq<Piece>, b: Bounds)
    ensures forall q :: q in PiecesWithBounds(ps, b) <==> q in ps && BoundsOf(q.outline) == b
  {
    if ps != [] {
      PiecesWithBoundsMembers(ps[..|ps| - 1], b);
      assert ps == ps[..|ps| - 1] + [ps[|ps| - 1]];
    }
  }

  lemma SumPieceMeans(rd: Reading, packet: seq<Piece>, at: Row)
    ensures AllGoals(rd, [SumPiece(packet)], at) <==> AllGoals(rd, packet, at)
  {
    GoalsMet(rd, packet, at);
    assert SumPiece(packet) in [SumPiece(packet)];
  }

  lemma {:induction false} SumPiecesMean(rd: Reading, bandwidth: nat, group: seq<Piece>, at: Row)
    ensures AllGoals(rd, SumPieces(bandwidth, group), at) <==> AllGoals(rd, group, at)
  {
    hide SumPiece, PacketLength, AllGoals;
    if group != [] {
      var n := PacketLength(bandwidth, OutlinesOf(group));
      SumPieceMeans(rd, group[..n], at);
      SumPiecesMean(rd, bandwidth, group[n..], at);
      AllGoalsConcat(rd, [SumPiece(group[..n])], SumPieces(bandwidth, group[n..]), at);
      AllGoalsConcat(rd, group[..n], group[n..], at);
      assert group[..n] + group[n..] == group;
    }
  }

  // The goals of all pieces with one of the given bounds.
  ghost predicate GoalsWithin(rd: Reading, ps: seq<Piece>, keys: seq<Bounds>, at: Row) {
    forall q :: q in ps && BoundsOf(q.outline) in keys ==> Met(rd, q.goal, at)
  }

  lemma GoalsWithinNext(rd: Reading, ps: seq<Piece>, keys: seq<Bounds>, b: Bounds, at: Row)
    ensures GoalsWithin(rd, ps, keys + [b], at)
       <==> GoalsWithin(rd, ps, keys, at) && AllGoals(rd, PiecesWithBounds(ps, b), at)
  {
    hide BoundsOf, Met, PiecesWithBounds;
    PiecesWithBoundsMembers(ps, b);
    assert forall k :: k in keys + [b] <==> k in keys || k == b;
  }

  lemma {:induction false} SumPieceGroupsMean(rd: Reading, bandwidth: nat, ps: seq<Piece>, keys: seq<Bounds>, at: Row)
    ensures AllGoals(rd, SumPieceGroups(bandwidth, ps, keys), at) <==> GoalsWithin(rd, ps, keys, at)
  {
    hide SumPieces, AllGoals, GoalsWithin;
    if keys == [] {
      NoGoals(rd, ps, at);
    } else {
      var init, last := keys[..|keys| - 1], keys[|keys| - 1];
      var group := PiecesWithBounds(ps, last);
      SumPieceGroupsMean(rd, bandwidth, ps, init, at);
      SumPiecesMean(rd, bandwidth, group, at);
      AllGoalsConcat(rd, SumPieceGroups(bandwidth, ps, init), SumPieces(bandwidth, group), at);
      GoalsWithinNext(rd, ps, init, last, at);
      assert keys == init + [last];
    }
  }

  lemma NoGoals(rd: Reading, ps: seq<Piece>, at: Row)
    ensures AllGoals(rd, [], at) && GoalsWithin(rd, ps, [], at)
  {
  }

  /** No goal is lost when pieces are summed. */
  lemma SummedMeans(rd: Reading, bandwidth: nat, ps: seq<Piece>, at: Row)
    ensures AllGoals(rd, Summed(bandwidth, ps), at) <==> AllGoals(rd, ps, at)
  {
    var ts := OutlinesOf(ps);
    SumPieceGroupsMean(rd, bandwidth, ps, DistinctBounds(ts), at);
    DistinctBoundsMembers(ts);
    forall q | q in ps ensures BoundsOf(q.outline) in DistinctBounds(ts) {
      var i :| 0 <= i < |ps| && ps[i] == q;
      assert ts[i] in ts;
    }
  }

  lemma {:induction false} DistributePieceMembers(l: Piece, rs: seq<Piece>)
    ensures forall q :: q in DistributePiece(l, rs) <==> exists r :: r in rs && q == EitherPiece(l, r)
  {
    if rs != [] {
      DistributePieceMembers(l, rs[1..]);
      assert rs == [rs[0]] + rs[1..];
      assert forall r :: r in rs <==> r == rs[0] || r in rs[1..];
    }
  }

  lemma {:induction false} DistributePiecesMembers(ls: seq<Piece>, rs: seq<Piece>)
    ensures forall q :: q in DistributePieces(ls, rs) <==> exists l, r :: l in ls && r in rs && q == EitherPiece(l, r)
  {
    if ls != [] {
      DistributePieceMembers(ls[0], rs);
      DistributePiecesMembers(ls[1..], rs);
      assert ls == [ls[0]] + ls[1..];
      assert forall l :: l in ls <==> l == ls[0] || l in ls[1..];
    }
  }

  lemma EitherMeans(rd: Reading, l: Piece, r: Piece, at: Row)
    ensures Met(rd, EitherPiece(l, r).goal, at) <==> Met(rd, l.goal, at) || Met(rd, r.goal, at)
  {
    assert l.goal in [l.goal, r.goal] && r.goal in [l.goal, r.goal];
  }

  lemma DistributeMeans(rd: Reading, ls: seq<Piece>, rs: seq<Piece>, at: Row)
    ensures AllGoals(rd, DistributePieces(ls, rs), at) <==> AllGoals(rd, ls, at) || AllGoals(rd, rs, at)
  {
    DistributePiecesMembers(ls, rs);
    if AllGoals(rd, ls, at) || AllGoals(rd, rs, at) {
      forall q | q in DistributePieces(ls, rs) ensures Met(rd, q.goal, at) {
        var l, r :| l in ls && r in rs && q == EitherPiece(l, r);
        EitherMeans(rd, l, r, at);
      }
    } else {
      var l :| l in ls && !Met(rd, l.goal, at);
      var r :| r in rs && !Met(rd, r.goal, at);
      EitherMeans(rd, l, r, at);
      assert EitherPiece(l, r) in DistributePieces(ls, rs);
    }
  }

  /** All choices have a goal which is met if and only if some list has all of its goals met. */
  lemma {:induction false} ChoicesMean(rd: Reading, pss: seq<seq<Piece>>, at: Row)
    ensures AllGoals(rd, Choices(pss), at) <==> exists i :: 0 <= i < |pss| && AllGoals(rd, pss[i], at)
  {
    if |pss| == 0 {
      assert Piece(Constant(1), FALSE) in Choices(pss);
    } else if |pss| > 1 {
      var rest := pss[1..];
      ChoicesMean(rd, rest, at);
      DistributeMeans(rd, pss[0], Choices(rest), at);
      if i :| 0 <= i < |rest| && AllGoals(rd, rest[i], at) {
        assert AllGoals(rd, pss[i + 1], at);
      }
      if i :| 0 <= i < |pss| && AllGoals(rd, pss[i], at) {
        assert i > 0 ==> AllGoals(rd, rest[i - 1], at);
      }
    }
  }

  /** Regrouping the operands of a disjunction neither loses nor adds any. */
  lemma RegroupedMeans(st: Setting, args: seq<Logical>, b: Bounds)
    requires st.Valid() && AllLogicalShaped(args, st.Within(b)) && forall e :: e in args ==> Core(e)
    ensures forall e :: e in Regrouped(st, args) ==> LogicalShaped(e, st.Within(b)) && Core(e)
    ensures forall at: Row :: at.Over(st.Within(b)) ==> (AnyHolds(Regrouped(st, args), at) <==> AnyHolds(args, at))
  {
    var sc, bandwidth := st.Within(b), st.config.fieldBandwidth;
    var others, checks := OthersAmong(args, st.regs), ChecksAmong(args, st.regs);
    AmongHold(args, sc);
    PackedChecksHold(bandwidth, checks, sc);
    forall e | e in PackedChecks(bandwidth, checks) ensures LogicalShaped(e, sc) && Core(e) {
      var cs: seq<NonZeroCheck> :|
        cs != [] && (forall c :: c in cs ==> Sound(c, sc) && CheckTerm(c.term)) && e == PackedCheck(cs);
      PackedCheckShaped(cs, sc);
    }
    forall at: Row | at.Over(sc) ensures AnyHolds(Regrouped(st, args), at) <==> AnyHolds(args, at) {
      AnyHoldsConcat(others, PackedChecks(bandwidth, checks), at);
    }
  }

  /**
   * Whether a constraint is met the way it is lowered, which is with the checks of each disjunction
   * packed.
   */
  ghost predicate Attained(rd: Reading, st: Setting, e: Logical, at: Row)
    decreases Size(e), 0
  {
    match e
    case Equal(_, _) => Met(rd, e, at)
    case NotEqual(_, _) => Met(rd, e, at)
    case Conjunct(args) =>
      assert forall a :: a in args ==> Size(a) <= SizeOfAll(args) by {
        forall a | a in args ensures Size(a) <= SizeOfAll(args) { MemberSize(args, a); }
      }
      AllAttained(rd, st, args, at, SizeOfAll(args))
    case Disjunct(args) => AnyAttained(rd, st, Regrouped(st, args), at, SizeOfAll(args))
    case Negate(_) => true
    case Ite(_, _, _) => true
  }

  ghost predicate AllAttained(rd: Reading, st: Setting, es: seq<Logical>, at: Row, n: nat)
    requires forall e :: e in es ==> Size(e) <= n
    decreases n, 1
  {
    forall i :: 0 <= i < |es| ==> Attained(rd, st, es[i], at)
  }

  ghost predicate AnyAttained(rd: Reading, st: Setting, es: seq<Logical>, at: Row, n: nat)
    requires forall e :: e in es ==> Size(e) <= n
    decreases n, 1
  {
    exists i :: 0 <= i < |es| && Attained(rd, st, es[i], at)
  }

  /** All goals of a constraint are met if and only if it is met as it is lowered. */
  lemma {:induction false} PiecesAttained(rd: Reading, st: Setting, e: Logical, at: Row)
    ensures AllGoals(rd, PiecesOf(st, e), at) <==> Attained(rd, st, e, at)
    decreases Size(e)
  {
    hide Summed, Choices, Regrouped, Met;
    match e
    case Equal(_, _) => assert PiecesOf(st, e)[0].goal == e;
    case NotEqual(_, _) => assert PiecesOf(st, e)[0].goal == e;
    case Conjunct(args) =>
      ConjunctPieces(st, args);
      var pss := seq(|args|, i requires 0 <= i < |args| => PiecesOf(st, args[i]));
      SummedMeans(rd, st.config.fieldBandwidth, Concat(pss), at);
      forall i | 0 <= i < |args| ensures AllGoals(rd, pss[i], at) <==> Attained(rd, st, args[i], at) {
        MemberSize(args, args[i]);
        PiecesAttained(rd, st, args[i], at);
      }
      ConcatGoals(rd, pss, at);
    case Disjunct(args) =>
      var es := Regrouped(st, args);
      DisjunctPieces(st, args);
      var pss := seq(|es|, i requires 0 <= i < |es| => PiecesOf(st, es[i]));
      ChoicesMean(rd, pss, at);
      forall i | 0 <= i < |es| ensures AllGoals(rd, pss[i], at) <==> Attained(rd, st, es[i], at) {
        PiecesAttained(rd, st, es[i], at);
      }
    case Negate(_) =>
    case Ite(_, _, _) =>
  }

  /** With inverses at hand anywhere, the way in which a constraint is lowered makes no difference. */
  lemma {:induction false} AttainedHolds(st: Setting, e: Logical, b: Bounds, at: Row)
    requires st.Valid() && Core(e) && LogicalShaped(e, st.Within(b)) && at.Over(st.Within(b))
    ensures Attained(Anywhere, st, e, at) <==> Holds(e, at)
    decreases Size(e)
  {
    hide Regrouped;
    match e
    case Equal(_, _) =>
    case NotEqual(_, _) =>
    case Conjunct(args) =>
      forall i | 0 <= i < |args| ensures Attained(Anywhere, st, args[i], at) <==> Holds(args[i], at) {
        MemberSize(args, args[i]);
        AttainedHolds(st, args[i], b, at);
      }
      assert Holds(e, at) <==> forall i :: 0 <= i < |args| ==> Holds(args[i], at);
    case Disjunct(args) =>
      var es := Regrouped(st, args);
      RegroupedMeans(st, args, b);
      forall i | 0 <= i < |es| ensures Attained(Anywhere, st, es[i], at) <==> Holds(es[i], at) {
        AttainedHolds(st, es[i], b, at);
      }
      assert AnyHolds(es, at) <==> exists i :: 0 <= i < |es| && Holds(es[i], at);
  }

  /** On every row over the source registers, all goals hold if and only if the constraint does. */
  lemma PiecesMean(st: Setting, e: Logical, b: Bounds, at: Row)
    requires st.Valid() && Core(e) && LogicalShaped(e, st.Within(b)) && at.Over(st.Within(b))
    ensures (forall q :: q in PiecesOf(st, e) ==> Holds(q.goal, at)) <==> Holds(e, at)
  {
    PiecesAttained(Anywhere, st, e, at);
    AttainedHolds(st, e, b, at);
    forall q | q in PiecesOf(st, e) ensures Met(Anywhere, q.goal, at) <==> Holds(q.goal, at) {
      MetHolds(Anywhere, q.goal, at);
    }
  }

  lemma ConjunctPieces(st: Setting, args: seq<Logical>)
    ensures PiecesOf(st, Conjunct(args)) ==
            Summed(st.config.fieldBandwidth, Concat(seq(|args|, i requires 0 <= i < |args| => PiecesOf(st, args[i]))))
  {
    forall a | a in args ensures Size(a) <= SizeOfAll(args) {
      MemberSize(args, a);
    }
    assert PiecesOfAll(st, args, SizeOfAll(args)) == seq(|args|, i requires 0 <= i < |args| => PiecesOf(st, args[i]));
  }

  lemma DisjunctPieces(st: Setting, args: seq<Logical>)
    ensures var es := Regrouped(st, args);
            PiecesOf(st, Disjunct(args)) == Choices(seq(|es|, i requires 0 <= i < |es| => PiecesOf(st, es[i])))
  {
    var es := Regrouped(st, args);
    assert PiecesOfAll(st, es, SizeOfAll(args)) == seq(|es|, i requires 0 <= i < |es| => PiecesOf(st, es[i]));
  }

  lemma ConcatGoals(rd: Reading, pss: seq<seq<Piece>>, at: Row)
    ensures AllGoals(rd, Concat(pss), at) <==> forall i :: 0 <= i < |pss| ==> AllGoals(rd, pss[i], at)
  {
    forall q ensures q in Concat(pss) <==> exists i :: 0 <= i < |pss| && q in pss[i] {
      ConcatMembers(pss, q);
    }
  }
}

/** The tests to which a constraint is lowered, each on all rows within bounds of its own. */
module RowTests {
  import opened Options
  import opened Congruence
  import opened PrimeField
  import opened Tables
  import opened Terms
  import opened Simplify
  import opened Logic
  import opened LogicProperties
  import opened Expansion
  import opened Packing
  import opened TermLowering
  import opened Modules
  import opened Reaches
  import opened Pieces
  import opened PieceMeanings

  datatype Test = Test(bounds: Bounds, goal: Logical)

  /** What is left of a constraint once expanded and simplified. */
  function CoreOf(p: Prime, e: Logical): Logical {
    SimplifyLogical(p, Expand(true, e))
  }

  /** Known before anything is lowered: neither other constraints nor inverse registers matter. */
  function TestsOf(st: Setting, e: Logical): (ts: seq<Test>)
    ensures var ps := PiecesOf(st, CoreOf(st.p, e));
      && |ts| == |ps|
      && forall i :: 0 <= i < |ps| ==> ts[i] == Test(Reach(st.p, ps[i].outline), ps[i].goal)
  {
    var ps := PiecesOf(st, CoreOf(st.p, e));
    seq(|ps|, i requires 0 <= i < |ps| => Test(Reach(st.p, ps[i].outline), ps[i].goal))
  }

  /**
   * Whether the goal of a test is met on a row.  Bounds keep inverses inside of the table; the single
   * row of a local constraint is tested regardless of bounds.
   */
  ghost predicate Succeeds(st: Setting, domain: Option<int>, goal: Logical, at: Row) {
    if domain.None? then Holds(goal, at) else Met(Inside(st), goal, at)
  }

  /** Whether a table passes all tests of a constraint. */
  ghost predicate Passes(st: Setting, c: Vanishing<Logical>, tb: Table) {
    forall t, k :: t in TestsOf(st, c.constraint) && TestedOn(c.domain, t.bounds, k, tb.height) ==>
      Succeeds(st, c.domain, t.goal, Row(st.p, tb, k))
  }

  /** Whether a constraint holds wherever the upper level tests it. */
  ghost predicate Satisfies(p: Prime, c: Vanishing<Logical>, tb: Table) {
    forall k :: TestedOn(c.domain, BoundsOfLogical(c.constraint), k, tb.height) ==> Holds(c.constraint, Row(p, tb, k))
  }

  /** Whether all tests of a constraint are carried out on exactly those rows on which it is defined. */
  predicate Aligned(st: Setting, e: Logical) {
    forall t :: t in TestsOf(st, e) ==> t.bounds == BoundsOfLogical(e)
  }

  /** A constraint without conditionals or negations left. */
  lemma CoreIsCore(p: Prime, e: Logical, sc: Scope)
    requires LogicalShaped(e, sc) && sc.p == p
    ensures Core(CoreOf(p, e)) && LogicalShaped(CoreOf(p, e), sc)
  {
    ExpandCore(true, e);
    SimplifyLogicalCore(p, Expand(true, e));
    ExpandShaped(true, e, sc);
    SimplifyLogicalShaped(Expand(true, e), sc);
  }

  lemma CoreHolds(p: Prime, e: Logical, sc: Scope, at: Row)
    requires LogicalShaped(e, sc) && sc.p == p && LogicalFoldsExactly(p, Expand(true, e)) && at.Over(sc)
    ensures Holds(CoreOf(p, e), at) <==> Holds(e, at)
  {
    ExpandShaped(true, e, sc);
    ExpandHolds(true, e, at);
    SimplifyLogicalHolds(Expand(true, e), sc, at);
  }

  /** On every row, all tests succeed if and only if the constraint holds. */
  lemma TestsMean(st: Setting, e: Logical, b: Bounds, at: Row)
    requires st.Valid() && LogicalShaped(e, st.Within(b)) && at.Over(st.Within(b))
    requires LogicalFoldsExactly(st.p, Expand(true, e))
    ensures (forall t :: t in TestsOf(st, e) ==> Holds(t.goal, at)) <==> Holds(e, at)
  {
    var ps, ts := PiecesOf(st, CoreOf(st.p, e)), TestsOf(st, e);
    CoreIsCore(st.p, e, st.Within(b));
    CoreHolds(st.p, e, st.Within(b), at);
    PiecesMean(st, CoreOf(st.p, e), b, at);
    assert (forall t :: t in ts ==> Holds(t.goal, at)) <==> forall i :: 0 <= i < |ts| ==> Holds(ts[i].goal, at);
    assert (forall q :: q in ps ==> Holds(q.goal, at)) <==> forall i :: 0 <= i < |ps| ==> Holds(ps[i].goal, at);
  }

  /** A local constraint passes its tests if and only if it is met, on its row, the way it is lowered. */
  lemma LocalPasses(st: Setting, c: Vanishing<Logical>, tb: Table)
    requires c.domain.Some?
    ensures Passes(st, c, tb) <==>
            Attained(Inside(st), st, CoreOf(st.p, c.constraint), Row(st.p, tb, RowOf(c.domain.value, tb.height)))
  {
    var at := Row(st.p, tb, RowOf(c.domain.value, tb.height));
    var ps, ts := PiecesOf(st, CoreOf(st.p, c.constraint)), TestsOf(st, c.constraint);
    PiecesAttained(Inside(st), st, CoreOf(st.p, c.constraint), at);
    assert AllGoals(Inside(st), ps, at) <==> forall i :: 0 <= i < |ps| ==> Met(Inside(st), ps[i].goal, at);
    assert Passes(st, c, tb) <==> forall t :: t in ts ==> Met(Inside(st), t.goal, at) by {
      if Passes(st, c, tb) {
        forall t | t in ts ensures Met(Inside(st), t.goal, at) {
          assert TestedOn(c.domain, t.bounds, at.k, tb.height);
        }
      }
    }
    assert (forall t :: t in ts ==> Met(Inside(st), t.goal, at)) <==>
           forall i :: 0 <= i < |ts| ==> Met(Inside(st), ts[i].goal, at);
  }

  /** Whether no inequality of a constraint, as it is lowered, takes an inverse from outside of the table. */
  predicate InversesRead(st: Setting, e: Logical, k: int, height: nat)
    decreases Size(e), 0
  {
    match e
    case Equal(_, _) => true
    case NotEqual(l, r) => InverseRead(st.config, Difference(l, r), k, height)
    case Conjunct(args) =>
      assert forall a :: a in args ==> Size(a) <= SizeOfAll(args) by {
        forall a | a in args ensures Size(a) <= SizeOfAll(args) { MemberSize(args, a); }
      }
      AllInversesRead(st, args, k, height, SizeOfAll(args))
    case Disjunct(args) => AllInversesRead(st, Regrouped(st, args), k, height, SizeOfAll(args))
    case Negate(_) => true
    case Ite(_, _, _) => true
  }

  predicate AllInversesRead(st: Setting, es: seq<Logical>, k: int, height: nat, n: nat)
    requires forall e :: e in es ==> Size(e) <= n
    decreases n, 1
  {
    forall e :: e in es ==> InversesRead(st, e, k, height)
  }

  /** Where all inverses can be read, it makes no difference whether they could be elsewhere. */
  lemma {:induction false} InversesReadAttained(st: Setting, e: Logical, at: Row)
    requires InversesRead(st, e, at.k, at.tb.height)
    ensures Attained(Inside(st), st, e, at) <==> Attained(Anywhere, st, e, at)
    decreases Size(e)
  {
    hide Regrouped, InverseRead;
    if e.Conjunct? {
      forall i | 0 <= i < |e.args|
        ensures Attained(Inside(st), st, e.args[i], at) <==> Attained(Anywhere, st, e.args[i], at)
      {
        MemberSize(e.args, e.args[i]);
        InversesReadAttained(st, e.args[i], at);
      }
    } else if e.Disjunct? {
      var es := Regrouped(st, e.args);
      forall i | 0 <= i < |es| ensures Attained(Inside(st), st, es[i], at) <==> Attained(Anywhere, st, es[i], at) {
        InversesReadAttained(st, es[i], at);
      }
    }
  }

  /**
   * Constraints whose tests come to the same as they do: global ones tested on just the rows on which
   * they are defined, and local ones which find all of their inverses within the table.
   */
  predicate Direct(st: Setting, c: Vanishing<Logical>, height: nat) {
    if c.domain.None? then Aligned(st, c.constraint)
    else InversesRead(st, CoreOf(st.p, c.constraint), RowOf(c.domain.value, height), height)
  }

  /** What is tested of these on whole tables amounts to the constraint. */
  lemma DirectPasses(st: Setting, c: Vanishing<Logical>, tb: Table)
    requires var e := c.constraint;
             LogicalShaped(e, st.Within(BoundsOfLogical(e))) && LogicalFoldsExactly(st.p, Expand(true, e))
    requires st.Valid() && tb.Valid(st.p) && st.regs <= tb.registers && Direct(st, c, tb.height)
    ensures Passes(st, c, tb) <==> Satisfies(st.p, c, tb)
  {
    hide LogicalShaped, LogicalFoldsExactly, Holds, Met, InversesRead, CoreOf, TestsOf, Attained, BoundsOfLogical;
    var e, b := c.constraint, BoundsOfLogical(c.constraint);
    if c.domain.None? {
      AlignedPasses(st, c, tb);
    } else {
      var at := Row(st.p, tb, RowOf(c.domain.value, tb.height));
      LocalPasses(st, c, tb);
      InversesReadAttained(st, CoreOf(st.p, e), at);
      CoreIsCore(st.p, e, st.Within(b));
      AttainedHolds(st, CoreOf(st.p, e), b, at);
      CoreHolds(st.p, e, st.Within(b), at);
      assert Satisfies(st.p, c, tb) <==> Holds(e, at) by {
        assert TestedOn(c.domain, b, at.k, tb.height);
      }
    }
  }

  lemma AlignedPasses(st: Setting, c: Vanishing<Logical>, tb: Table)
    requires var e := c.constraint;
             LogicalShaped(e, st.Within(BoundsOfLogical(e))) && LogicalFoldsExactly(st.p, Expand(true, e))
    requires st.Valid() && tb.Valid(st.p) && st.regs <= tb.registers
    requires c.domain.None? && Aligned(st, c.constraint)
    ensures Passes(st, c, tb) <==> Satisfies(st.p, c, tb)
  {
    hide LogicalShaped, LogicalFoldsExactly, Holds;
    var e, b, ts := c.constraint, BoundsOfLogical(c.constraint), TestsOf(st, c.constraint);
    forall k ensures (forall t :: t in ts ==> Holds(t.goal, Row(st.p, tb, k))) <==> Holds(e, Row(st.p, tb, k)) {
      TestsMean(st, e, b, Row(st.p, tb, k));
    }
    if Passes(st, c, tb) {
      forall k | TestedOn(c.domain, b, k, tb.height) ensures Holds(e, Row(st.p, tb, k)) {
        forall t | t in ts ensures Holds(t.goal, Row(st.p, tb, k)) {
          assert TestedOn(c.domain, t.bounds, k, tb.height);
        }
      }
    }
  }

  /**
   * Where simplification loses a constant, so does the constraint: 5 - (x + 1) - 2 == 0 is expanded
   * and simplified to 4 - x == 0, and from there on holds where x is 4 in place of 2.
   */
  lemma ConstantLostInCore(p: Prime, x: Term, sc: Scope, at: Row)
    requires p > 5 && x.RegisterAccess? && Shaped(x, sc) && at.Over(sc) && sc.p == p
    ensures var e := Equal(Sub([Constant(5), Add([x, Constant(1)]), Constant(2)]), Constant(0));
            (Holds(e, at) <==> Eval(x, at) == 2) && (Holds(CoreOf(p, e), at) <==> Eval(x, at) == 4)
  {
    var t, v := Sub([Constant(5), Add([x, Constant(1)]), Constant(2)]), Eval(x, at);
    SimplifyLosesConstant(p, x, at);
    assert CoreOf(p, Equal(t, Constant(0))) == Equal(Sub([Constant(4), x]), Constant(0));
    EvalIsElement(x, sc, at);
    SmallModulus(p, v);
    SmallModulus(p, 2);
    SmallModulus(p, 4);
    SameIffDifferenceVanishes(p, 2, v);
    SameIffDifferenceVanishes(p, 4, v);
  }

  // ---------------------------------------------------------------------------
  // Goals are formed over the source registers
  // ---------------------------------------------------------------------------

  lemma {:induction false} PiecesShaped(st: Setting, e: Logical, b: Bounds)
    requires st.Valid() && Core(e) && LogicalShaped(e, st.Within(b))
    ensures GoalsShaped(PiecesOf(st, e), st.Within(b))
    decreases Size(e)
  {
    hide Summed, Choices, Regrouped;
    match e
    case Equal(_, _) => assert PiecesOf(st, e)[0].goal == e;
    case NotEqual(_, _) => assert PiecesOf(st, e)[0].goal == e;
    case Conjunct(args) =>
      ConjunctPieces(st, args);
      var pss := seq(|args|, i requires 0 <= i < |args| => PiecesOf(st, args[i]));
      forall a | a in args ensures GoalsShaped(PiecesOf(st, a), st.Within(b)) {
        MemberSize(args, a);
        PiecesShaped(st, a, b);
      }
      ConcatShaped(pss, st.Within(b));
      SummedShaped(st.config.fieldBandwidth, Concat(pss), st.Within(b));
    case Disjunct(args) =>
      var es := Regrouped(st, args);
      DisjunctPieces(st, args);
      RegroupedMeans(st, args, b);
      forall a | a in es ensures GoalsShaped(PiecesOf(st, a), st.Within(b)) {
        PiecesShaped(st, a, b);
      }
      ChoicesShaped(seq(|es|, i requires 0 <= i < |es| => PiecesOf(st, es[i])), st.Within(b));
  }

  lemma ConcatShaped(pss: seq<seq<Piece>>, sc: Scope)
    requires forall i :: 0 <= i < |pss| ==> GoalsShaped(pss[i], sc)
    ensures GoalsShaped(Concat(pss), sc)
  {
    forall q | q in Concat(pss) ensures LogicalShaped(q.goal, sc) {
      ConcatMembers(pss, q);
    }
  }

  lemma {:induction false} SumPiecesShaped(bandwidth: nat, group: seq<Piece>, sc: Scope)
    requires GoalsShaped(group, sc)
    ensures GoalsShaped(SumPieces(bandwidth, group), sc)
  {
    if group != [] {
      var n := PacketLength(bandwidth, OutlinesOf(group));
      SumPiecesShaped(bandwidth, group[n..], sc);
      forall g | g in GoalsOf(group[..n]) ensures LogicalShaped(g, sc) {
        var i :| 0 <= i < n && GoalsOf(group[..n])[i] == g;
        assert group[i] in group;
      }
    }
  }

  lemma {:induction false} SumPieceGroupsShaped(bandwidth: nat, ps: seq<Piece>, keys: seq<Bounds>, sc: Scope)
    requires GoalsShaped(ps, sc)
    ensures GoalsShaped(SumPieceGroups(bandwidth, ps, keys), sc)
  {
    if keys != [] {
      SumPieceGroupsShaped(bandwidth, ps, keys[..|keys| - 1], sc);
      PiecesWithBoundsMembers(ps, keys[|keys| - 1]);
      SumPiecesShaped(bandwidth, PiecesWithBounds(ps, keys[|keys| - 1]), sc);
    }
  }

  lemma SummedShaped(bandwidth: nat, ps: seq<Piece>, sc: Scope)
    requires GoalsShaped(ps, sc)
    ensures GoalsShaped(Summed(bandwidth, ps), sc)
  {
    SumPieceGroupsShaped(bandwidth, ps, DistinctBounds(OutlinesOf(ps)), sc);
  }

  lemma {:induction false} ChoicesShaped(pss: seq<seq<Piece>>, sc: Scope)
    requires forall i :: 0 <= i < |pss| ==> GoalsShaped(pss[i], sc)
    ensures GoalsShaped(Choices(pss), sc)
  {
    if |pss| > 1 {
      ChoicesShaped(pss[1..], sc);
      DistributePiecesMembers(pss[0], Choices(pss[1..]));
    }
  }
}
