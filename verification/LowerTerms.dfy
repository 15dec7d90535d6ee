// Lowering of arithmetic terms, and of disjunctions of non-zero checks.
module TermLowering {
  import opened Intervals
  import opened Terms
  import opened Builders
  import opened Ranges

  /** Rebuild a term through the constructors of the lower level. */
  function LowerTerm(t: Term): Term
    decreases t, 0
  {
    match t
    case Constant(_) => t
    case RegisterAccess(_, _, _) => t
    case Add(args) => Sum(LowerTerms(args))
    case Mul(args) => Product(LowerTerms(args))
    case Sub(args) => if args == [] then t else Subtract(LowerTerms(args))
  }

  function LowerTerms(ts: seq<Term>): (rs: seq<Term>)
    ensures |rs| == |ts|
    decreases ts, 1
  {
    if ts == [] then [] else [LowerTerm(ts[0])] + LowerTerms(ts[1..])
  }

  lemma {:induction false} LowerTermShaped(t: Term, sc: Scope)
    requires Shaped(t, sc)
    ensures Shaped(LowerTerm(t), sc)
    decreases t, 0
  {
    match t
    case Constant(_) =>
    case RegisterAccess(_, _, _) =>
    case Add(args) => LowerTermsShaped(args, sc); SumShaped(LowerTerms(args), sc);
    case Mul(args) => LowerTermsShaped(args, sc); ProductShaped(LowerTerms(args), sc);
    case Sub(args) => LowerTermsShaped(args, sc); SubtractShaped(LowerTerms(args), sc);
  }

  lemma {:induction false} LowerTermsShaped(ts: seq<Term>, sc: Scope)
    requires AllShaped(ts, sc)
    ensures AllShaped(LowerTerms(ts), sc)
    decreases ts, 1
  {
    if ts != [] {
      LowerTermShaped(ts[0], sc);
      LowerTermsShaped(ts[1..], sc);
    }
  }

  /** Lowering a term preserves its value on every row. */
  lemma {:induction false} LowerTermEval(t: Term, sc: Scope, at: Row)
    requires Shaped(t, sc) && at.Over(sc)
    ensures Eval(LowerTerm(t), at) == Eval(t, at)
    decreases t, 0
  {
    match t
    case Constant(_) =>
    case RegisterAccess(_, _, _) =>
    case Add(args) =>
      LowerTermsShaped(args, sc);
      LowerTermsEval(args, sc, at);
      SumEval(LowerTerms(args), sc, at);
    case Mul(args) =>
      LowerTermsShaped(args, sc);
      LowerTermsEval(args, sc, at);
      ProductEval(LowerTerms(args), sc, at);
    case Sub(args) =>
      LowerTermsShaped(args, sc);
      LowerTermEval(args[0], sc, at);
      LowerTermsEval(args[1..], sc, at);
      SubtractEval(LowerTerms(args), sc, at);
      assert LowerTerms(args)[1..] == LowerTerms(args[1..]);
  }

  lemma {:induction false} LowerTermsEval(ts: seq<Term>, sc: Scope, at: Row)
    requires AllShaped(ts, sc) && at.Over(sc)
    ensures SumOf(LowerTerms(ts), at) == SumOf(ts, at)
    ensures ProductOf(LowerTerms(ts), at) == ProductOf(ts, at)
    decreases ts, 1
  {
    if ts != [] {
      LowerTermEval(ts[0], sc, at);
      LowerTermsEval(ts[1..], sc, at);
      assert LowerTerms(ts)[1..] == LowerTerms(ts[1..]);
    }
  }

  /** The difference of two terms, turned around where that makes it non-negative. */
  function OrientedSubtract(l: Term, r: Term): Term {
    var diff := Subtract([l, r]);
    if RangeOf(diff).max.Finite? && RangeOf(diff).max.val <= 0 then Subtract([r, l]) else diff
  }

  /** The term whose vanishing expresses that two terms of the upper level are equal. */
  function Difference(l: Term, r: Term): Term {
    OrientedSubtract(LowerTerm(l), LowerTerm(r))
  }

  lemma DifferenceVanishes(l: Term, r: Term, sc: Scope, at: Row)
    requires Shaped(l, sc) && Shaped(r, sc) && at.Over(sc)
    ensures Shaped(Difference(l, r), sc)
    ensures Eval(Difference(l, r), at) == 0 <==> Eval(l, at) == Eval(r, at)
  {
    LowerTermShaped(l, sc);
    LowerTermShaped(r, sc);
    LowerTermEval(l, sc, at);
    LowerTermEval(r, sc, at);
    SubtractVanishes(LowerTerm(l), LowerTerm(r), sc, at);
    SubtractVanishes(LowerTerm(r), LowerTerm(l), sc, at);
  }

  lemma DifferenceShaped(l: Term, r: Term, sc: Scope)
    requires Shaped(l, sc) && Shaped(r, sc)
    ensures Shaped(Difference(l, r), sc)
  {
    LowerTermShaped(l, sc);
    LowerTermShaped(r, sc);
    SubtractShaped([LowerTerm(l), LowerTerm(r)], sc);
    SubtractShaped([LowerTerm(r), LowerTerm(l)], sc);
  }

  lemma SubtractRange(l: Term, r: Term)
    requires !IsZero(r)
    ensures RangeOf(Subtract([l, r])) == RangeOf(l).Minus(RangeOf(r))
  {
    SubtractTwo(l, r);
    RangeOfDifference(l, r);
  }

  /** The difference chosen has a non-negative range when either orientation has one. */
  lemma OrientedSubtractRange(l: Term, r: Term)
    requires RangeOf(l).Proper() && RangeOf(r).Proper() && !IsZero(l) && !IsZero(r)
    ensures RangeOf(Subtract([l, r])).NonNegative() || RangeOf(Subtract([r, l])).NonNegative()
        ==> RangeOf(OrientedSubtract(l, r)).NonNegative()
  {
    hide RangeOf, Subtract;
    SubtractRange(l, r);
    SubtractRange(r, l);
    MinusOriented(RangeOf(l), RangeOf(r));
  }
}

/** Disjuncts known to be equivalent to t != 0 for some t within [0, max]. */
module NonZeroChecks {
  import opened Options
  import opened Congruence
  import opened Intervals
  import opened Tables
  import opened Terms
  import opened Builders
  import opened Ranges
  import opened Packing
  import opened Logic

  datatype NonZeroCheck = NonZeroCheck(term: Term, max: nat)

  /** View x != 0 as a check on x, and x != 2^w-1 as a check on 2^w-1 - x. */
  function IsNonZeroCheck(e: Logical, regs: seq<Register>): Option<NonZeroCheck> {
    if !e.NotEqual? then None
    else
      var (lhs, rhs) := if e.lhs.Constant? then (e.rhs, e.lhs) else (e.lhs, e.rhs);
      if !lhs.RegisterAccess? || !rhs.Constant? || lhs.register >= |regs| then None
      else
        match regs[lhs.register].width
        case None => None
        case Some(w) =>
          var max := Pow2(w) - 1;
          if rhs.value == 0 then Some(NonZeroCheck(lhs, max))
          else if rhs.value == max then Some(NonZeroCheck(Subtract([rhs, lhs]), max))
          else None
  }

  /**
   * What is recognised as a check: an inequality, either way round, between a register of declared width
   * and the least or greatest value it can hold.
   */
  lemma IsNonZeroCheckIff(e: Logical, regs: seq<Register>)
    ensures IsNonZeroCheck(e, regs).Some? <==>
            exists x: Term, v: nat ::
              && (e == NotEqual(x, Constant(v)) || e == NotEqual(Constant(v), x))
              && x.RegisterAccess? && x.register < |regs| && regs[x.register].width.Some?
              && (v == 0 || v == Pow2(regs[x.register].width.value) - 1)
  {
    if IsNonZeroCheck(e, regs).Some? {
      var (x, c) := if e.lhs.Constant? then (e.rhs, e.lhs) else (e.lhs, e.rhs);
      assert e == NotEqual(x, Constant(c.value)) || e == NotEqual(Constant(c.value), x);
    }
  }

  /** What makes a check a check: its term is shaped and lies between 0 and its maximum. */
  ghost predicate Sound(c: NonZeroCheck, sc: Scope) {
    Shaped(c.term, sc) && RangeOf(c.term) == Range(Finite(0), Finite(c.max))
  }

  lemma IsNonZeroCheckSound(e: Logical, sc: Scope)
    requires LogicalShaped(e, sc) && IsNonZeroCheck(e, sc.regs).Some?
    ensures Sound(IsNonZeroCheck(e, sc.regs).value, sc)
    ensures CheckTerm(IsNonZeroCheck(e, sc.regs).value.term)
  {
    var (lhs, rhs) := if e.lhs.Constant? then (e.rhs, e.lhs) else (e.lhs, e.rhs);
    ComplementSound(rhs, lhs, sc);
  }

  lemma ComplementSound(c: Term, x: Term, sc: Scope)
    requires c.Constant? && x.RegisterAccess? && Shaped(c, sc) && Shaped(x, sc)
    ensures Subtract([c, x]) == Sub([c, x]) && Shaped(Sub([c, x]), sc)
    ensures x.bitwidth.Some? && c.value == Pow2(x.bitwidth.value) - 1 ==>
              RangeOf(Sub([c, x])) == Range(Finite(0), Finite(c.value))
  {
    SubtractTwo(c, x);
    if x.bitwidth.Some? && c.value == Pow2(x.bitwidth.value) - 1 {
      ComplementRange(c, x);
    }
    SubtractShaped([c, x], sc);
  }

  lemma ComplementRange(c: Term, x: Term)
    requires c.Constant? && x.RegisterAccess? && x.bitwidth.Some? && c.value == Pow2(x.bitwidth.value) - 1
    ensures RangeOf(Sub([c, x])) == Range(Finite(0), Finite(c.value))
  {
    RangeOfDifference(c, x);
    var r, q := Exactly(c.value), Range(Finite(0), Finite(c.value));
    assert RangeOf(c) == r && RangeOf(x) == q;
    assert r.Minus(q) == Range(Finite(0), Finite(c.value));
  }

  /** The terms of checks: an access, or the complement of one. */
  predicate CheckTerm(t: Term) {
    || t.RegisterAccess?
    || (t.Sub? && |t.args| == 2 && t.args[0].Constant? && t.args[0].value > 0 && t.args[1].RegisterAccess?)
  }

  lemma IsNonZeroCheckHolds(e: Logical, sc: Scope, at: Row)
    requires LogicalShaped(e, sc) && IsNonZeroCheck(e, sc.regs).Some? && at.Over(sc)
    ensures Holds(e, at) <==> Eval(IsNonZeroCheck(e, sc.regs).value.term, at) != 0
  {
    var (lhs, rhs) := if e.lhs.Constant? then (e.rhs, e.lhs) else (e.lhs, e.rhs);
    SubtractVanishes(rhs, lhs, sc, at);
  }

  function Maxima(cs: seq<NonZeroCheck>): nat {
    if cs == [] then 0 else cs[0].max + Maxima(cs[1..])
  }

  function CheckTerms(cs: seq<NonZeroCheck>): seq<Term> {
    if cs == [] then [] else [cs[0].term] + CheckTerms(cs[1..])
  }

  /** A packet of checks as one: their sum is not zero. */
  function PackedCheck(cs: seq<NonZeroCheck>): Logical {
    NotEqual(Sum(CheckTerms(cs)), Constant(0))
  }

  lemma {:induction false} CheckTermsPack(bandwidth: nat, cs: seq<NonZeroCheck>, sc: Scope)
    requires forall c :: c in cs ==> Sound(c, sc)
    ensures |CheckTerms(cs)| == |cs| && AllShaped(CheckTerms(cs), sc)
    ensures MaxTotal(CheckTerms(cs)) == Maxima(cs) && forall t :: t in CheckTerms(cs) ==> Unsigned(t)
    ensures forall c :: c in cs ==> c.term in CheckTerms(cs)
    ensures forall t :: t in CheckTerms(cs) ==> exists c :: c in cs && c.term == t
  {
    if cs != [] {
      assert cs == [cs[0]] + cs[1..];
      CheckTermsPack(bandwidth, cs[1..], sc);
      assert Sound(cs[0], sc);
      forall t | t in CheckTerms(cs) ensures exists c :: c in cs && c.term == t {
        if t in CheckTerms(cs[1..]) {
          var c :| c in cs[1..] && c.term == t;
          assert c in cs;
        } else {
          assert cs[0] in cs && cs[0].term == t;
        }
      }
    }
  }

  lemma PackedCheckShaped(cs: seq<NonZeroCheck>, sc: Scope)
    requires forall c :: c in cs ==> Sound(c, sc)
    ensures LogicalShaped(PackedCheck(cs), sc)
  {
    CheckTermsPack(0, cs, sc);
    SumShaped(CheckTerms(cs), sc);
  }

  /** A packet whose maxima cannot overflow the field holds exactly when one of its checks does. */
  lemma PackedCheckHolds(bandwidth: nat, cs: seq<NonZeroCheck>, sc: Scope, at: Row)
    requires forall c :: c in cs ==> Sound(c, sc)
    requires |cs| == 1 || Maxima(cs) < Pow2(bandwidth)
    requires at.Over(sc) && Pow2(bandwidth) <= at.p
    ensures Holds(PackedCheck(cs), at) <==> exists c :: c in cs && Eval(c.term, at) != 0
  {
    CheckTermsPack(bandwidth, cs, sc);
    PackedVanishes(bandwidth, CheckTerms(cs), sc, at);
    if exists c :: c in cs && Eval(c.term, at) != 0 {
      var c :| c in cs && Eval(c.term, at) != 0;
      assert c.term in CheckTerms(cs);
    }
  }

  lemma MaximaSnoc(cs: seq<NonZeroCheck>, i: nat)
    requires i < |cs|
    ensures Maxima(cs[..i + 1]) == Maxima(cs[..i]) + cs[i].max
  {
    if i == 0 {
      assert cs[..1][1..] == [];
    } else {
      assert cs[..i + 1][1..] == cs[1..][..i] && cs[..i][1..] == cs[1..][..i - 1];
      MaximaSnoc(cs[1..], i - 1);
    }
  }

  // How many leading checks fit the bandwidth together with what there is already.
  function LeadingChecks(bandwidth: nat, cs: seq<NonZeroCheck>, sum: nat): (n: nat)
    ensures n <= |cs|
  {
    if cs == [] || sum + cs[0].max >= Pow2(bandwidth) then 0
    else 1 + LeadingChecks(bandwidth, cs[1..], sum + cs[0].max)
  }

  /** The length of the next packet. */
  function CheckLength(bandwidth: nat, cs: seq<NonZeroCheck>): (n: nat)
    requires cs != []
    ensures 1 <= n <= |cs|
  {
    var n := LeadingChecks(bandwidth, cs, 0);
    if n > 1 then n else 1
  }

  lemma {:induction false} LeadingChecksFit(bandwidth: nat, cs: seq<NonZeroCheck>, sum: nat)
    requires sum < Pow2(bandwidth)
    ensures sum + Maxima(cs[..LeadingChecks(bandwidth, cs, sum)]) < Pow2(bandwidth)
  {
    var n := LeadingChecks(bandwidth, cs, sum);
    if n > 0 {
      LeadingChecksFit(bandwidth, cs[1..], sum + cs[0].max);
      assert cs[..n][1..] == cs[1..][..n - 1];
    }
  }

  /** The checks into which all given ones are packed. */
  function PackedChecks(bandwidth: nat, cs: seq<NonZeroCheck>): seq<Logical> {
    if cs == [] then []
    else
      var n := CheckLength(bandwidth, cs);
      [PackedCheck(cs[..n])] + PackedChecks(bandwidth, cs[n..])
  }

  /** How many leading checks can be packed: as many as possible, but always at least one. */
  method NextNonZeroCheck(bandwidth: nat, checks: seq<NonZeroCheck>) returns (n: nat)
    requires checks != []
    ensures n == CheckLength(bandwidth, checks)
    ensures n == 1 || Maxima(checks[..n]) < Pow2(bandwidth)
    ensures n < |checks| ==> Maxima(checks[..n + 1]) >= Pow2(bandwidth)
  {
    var sum := 0;
    for i := 0 to |checks|
      invariant sum == Maxima(checks[..i]) < Pow2(bandwidth)
      invariant LeadingChecks(bandwidth, checks, 0) == i + LeadingChecks(bandwidth, checks[i..], sum)
    {
      assert checks[i..][1..] == checks[i + 1..];
      MaximaSnoc(checks, i);
      sum := sum + checks[i].max;
      BitLenBound(sum, bandwidth);
      if BitLen(sum) > bandwidth {
        if i + 1 < |checks| {
          MaximaSnoc(checks, i + 1);
        }
        return if i > 1 then i else 1;
      }
    }
    assert checks[..|checks|] == checks;
    n := |checks|;
  }

  ghost predicate AnyCheck(cs: seq<NonZeroCheck>, at: Row) {
    exists c :: c in cs && Eval(c.term, at) != 0
  }

  /** What packing all checks amounts to, on every row. */
  ghost predicate PackedAs(cs: seq<NonZeroCheck>, es: seq<Logical>, sc: Scope) {
    forall at: Row :: at.Over(sc) ==> (AnyHolds(es, at) <==> AnyCheck(cs, at))
  }

  /** Whether a constraint is a packet of checks. */
  ghost predicate IsPacket(e: Logical, sc: Scope) {
    exists cs: seq<NonZeroCheck> ::
      cs != [] && (forall c :: c in cs ==> Sound(c, sc) && CheckTerm(c.term)) && e == PackedCheck(cs)
  }

  /** Packing loses no check: some packet holds exactly where some check does. */
  lemma {:induction false} PackedChecksHold(bandwidth: nat, cs: seq<NonZeroCheck>, sc: Scope)
    requires (forall c :: c in cs ==> Sound(c, sc) && CheckTerm(c.term)) && Pow2(bandwidth) <= sc.p
    ensures PackedAs(cs, PackedChecks(bandwidth, cs), sc)
    ensures forall e :: e in PackedChecks(bandwidth, cs) ==> IsPacket(e, sc)
  {
    hide Maxima, Sound, PackedCheck, CheckTerm, IsPacket;
    if cs != [] {
      var n := CheckLength(bandwidth, cs);
      var packet, rest := cs[..n], PackedChecks(bandwidth, cs[n..]);
      assert cs == packet + cs[n..];
      LeadingChecksFit(bandwidth, cs, 0);
      PackedChecksHold(bandwidth, cs[n..], sc);
      PacketIs(packet, sc);
      forall at: Row | at.Over(sc) ensures AnyHolds([PackedCheck(packet)] + rest, at) <==> AnyCheck(cs, at) {
        PackedCheckHolds(bandwidth, packet, sc, at);
        assert AnyCheck(cs, at) <==> AnyCheck(packet, at) || AnyCheck(cs[n..], at) by {
          assert forall c :: c in cs <==> c in packet || c in cs[n..];
        }
        assert forall e :: e in [PackedCheck(packet)] + rest <==> e == PackedCheck(packet) || e in rest;
        assert AnyHolds(rest, at) <==> AnyCheck(cs[n..], at);
      }
    }
  }

  lemma PacketIs(cs: seq<NonZeroCheck>, sc: Scope)
    requires cs != [] && forall c :: c in cs ==> Sound(c, sc) && CheckTerm(c.term)
    ensures IsPacket(PackedCheck(cs), sc)
  {
  }

  /** A single check, or checks whose maxima cannot overflow. */
  predicate FitsPacket(bandwidth: nat, packet: seq<NonZeroCheck>) {
    |packet| == 1 || Maxima(packet) < Pow2(bandwidth)
  }

  /** Packets which tile a list of checks: none could take in the check after it without overflowing. */
  ghost predicate Tiles(bandwidth: nat, checks: seq<NonZeroCheck>, packets: seq<seq<NonZeroCheck>>) {
    && Concat(packets) == checks
    && (forall i :: 0 <= i < |packets| ==> packets[i] != [] && FitsPacket(bandwidth, packets[i]))
    && forall i :: 0 < i < |packets| ==> Maxima(packets[i - 1]) + packets[i][0].max >= Pow2(bandwidth)
  }

  lemma TilesMore(bandwidth: nat, checks: seq<NonZeroCheck>, packets: seq<seq<NonZeroCheck>>, packet: seq<NonZeroCheck>)
    requires Tiles(bandwidth, checks, packets) && packet != [] && FitsPacket(bandwidth, packet)
    requires packets != [] ==> Maxima(packets[|packets| - 1]) + packet[0].max >= Pow2(bandwidth)
    ensures Tiles(bandwidth, checks + packet, packets + [packet])
  {
    hide Maxima, Pow2, FitsPacket;
    assert (packets + [packet])[..|packets|] == packets;
  }

  ghost predicate PacketsOf(es: seq<Logical>, packets: seq<seq<NonZeroCheck>>) {
    |es| == |packets| && forall i :: 0 <= i < |es| ==> es[i] == PackedCheck(packets[i])
  }

  lemma PacketsMore(es: seq<Logical>, packets: seq<seq<NonZeroCheck>>, packet: seq<NonZeroCheck>)
    requires PacketsOf(es, packets)
    ensures PacketsOf(es + [PackedCheck(packet)], packets + [packet])
  {
  }

  lemma NothingTiles(bandwidth: nat)
    ensures Tiles(bandwidth, [], []) && PacketsOf([], [])
  {
  }

  lemma PackedChecksNext(bandwidth: nat, cs: seq<NonZeroCheck>)
    ensures PackedChecks(bandwidth, cs) ==
              if cs == [] then []
              else var n := CheckLength(bandwidth, cs); [PackedCheck(cs[..n])] + PackedChecks(bandwidth, cs[n..])
  {
  }

  /** Pack all checks, none of which is left out or used twice. */
  method PackChecks(bandwidth: nat, checks: seq<NonZeroCheck>, ghost sc: Scope)
    returns (es: seq<Logical>, ghost packets: seq<seq<NonZeroCheck>>)
    requires forall c :: c in checks ==> Sound(c, sc) && CheckTerm(c.term)
    requires Pow2(bandwidth) <= sc.p
    ensures es == PackedChecks(bandwidth, checks)
    ensures Tiles(bandwidth, checks, packets)
    ensures PacketsOf(es, packets)
    ensures PackedAs(checks, es, sc)
    ensures es == [] <==> checks == []
  {
    hide PackedAs, Sound, PackedCheck, Maxima, CheckTerm, Tiles, Pow2, PacketsOf, PackedChecks, CheckLength,
      PackedSoFar;
    var worklist := checks;
    es, packets := [], [];
    PackedStart(bandwidth, checks);
    while |worklist| > 0
      invariant PackedSoFar(bandwidth, checks, es, packets, worklist)
    {
      var n := NextNonZeroCheck(bandwidth, worklist);
      PackedNext(bandwidth, checks, es, packets, worklist, n);
      es, packets := es + [PackedCheck(worklist[..n])], packets + [worklist[..n]];
      worklist := worklist[n..];
    }
    PackedEnd(bandwidth, checks, es, packets);
    PackedChecksHold(bandwidth, checks, sc);
  }

  // Where packing has got to: what is packed, and what is left.
  ghost predicate PackedSoFar(
    bandwidth: nat, checks: seq<NonZeroCheck>, es: seq<Logical>, packets: seq<seq<NonZeroCheck>>,
    rest: seq<NonZeroCheck>)
  {
    && Concat(packets) + rest == checks && Tiles(bandwidth, Concat(packets), packets) && PacketsOf(es, packets)
    && es + PackedChecks(bandwidth, rest) == PackedChecks(bandwidth, checks)
    && (packets != [] && rest != [] ==> Maxima(packets[|packets| - 1]) + rest[0].max >= Pow2(bandwidth))
  }

  lemma PackedStart(bandwidth: nat, checks: seq<NonZeroCheck>)
    ensures PackedSoFar(bandwidth, checks, [], [], checks)
  {
    NothingTiles(bandwidth);
    assert Concat<NonZeroCheck>([]) + checks == checks;
    assert [] + PackedChecks(bandwidth, checks) == PackedChecks(bandwidth, checks);
  }

  lemma PackedNext(
    bandwidth: nat, checks: seq<NonZeroCheck>, es: seq<Logical>, packets: seq<seq<NonZeroCheck>>,
    rest: seq<NonZeroCheck>, n: nat)
    requires PackedSoFar(bandwidth, checks, es, packets, rest) && rest != [] && n == CheckLength(bandwidth, rest)
    requires n == 1 || Maxima(rest[..n]) < Pow2(bandwidth)
    requires n < |rest| ==> Maxima(rest[..n + 1]) >= Pow2(bandwidth)
    ensures PackedSoFar(bandwidth, checks, es + [PackedCheck(rest[..n])], packets + [rest[..n]], rest[n..])
  {
    hide PackedCheck, Maxima, Pow2, Tiles, PacketsOf, PackedChecks, CheckLength, Concat;
    var packet := rest[..n];
    PackedChecksNext(bandwidth, rest);
    TilesMore(bandwidth, Concat(packets), packets, packet);
    PacketsMore(es, packets, packet);
    ConcatMore(packets, packet);
    assert rest == packet + rest[n..];
    Associative(Concat(packets), packet, rest[n..]);
    Associative(es, [PackedCheck(packet)], PackedChecks(bandwidth, rest[n..]));
    if n < |rest| {
      MaximaSnoc(rest, n);
    }
  }

  lemma ConcatMore<T>(xss: seq<seq<T>>, xs: seq<T>)
    ensures Concat(xss + [xs]) == Concat(xss) + xs
  {
    assert (xss + [xs])[..|xss|] == xss;
  }

  lemma PackedEnd(bandwidth: nat, checks: seq<NonZeroCheck>, es: seq<Logical>, packets: seq<seq<NonZeroCheck>>)
    requires PackedSoFar(bandwidth, checks, es, packets, [])
    ensures es == PackedChecks(bandwidth, checks) && Tiles(bandwidth, checks, packets) && PacketsOf(es, packets)
    ensures es == [] <==> checks == []
  {
    assert Concat(packets) + [] == Concat(packets) && es + [] == es;
  }

  // ---------------------------------------------------------------------------
  // Splitting checks off a disjunction
  // ---------------------------------------------------------------------------

  /** Those disjuncts which are non-zero checks. */
  function ChecksAmong(es: seq<Logical>, regs: seq<Register>): seq<NonZeroCheck> {
    if es == [] then []
    else
      var check := IsNonZeroCheck(es[|es| - 1], regs);
      ChecksAmong(es[..|es| - 1], regs) + (if check.Some? then [check.value] else [])
  }

  /** Those which are not. */
  function OthersAmong(es: seq<Logical>, regs: seq<Register>): (os: seq<Logical>)
    ensures forall e :: e in os ==> e in es
  {
    if es == [] then []
    else
      var last := es[|es| - 1];
      OthersAmong(es[..|es| - 1], regs) + (if IsNonZeroCheck(last, regs).Some? then [] else [last])
  }

  lemma {:induction false} AmongHold(es: seq<Logical>, sc: Scope)
    requires AllLogicalShaped(es, sc)
    ensures forall c :: c in ChecksAmong(es, sc.regs) ==> Sound(c, sc) && CheckTerm(c.term)
    ensures forall at: Row :: at.Over(sc) ==>
              (AnyHolds(es, at) <==> AnyHolds(OthersAmong(es, sc.regs), at) || AnyCheck(ChecksAmong(es, sc.regs), at))
  {
    hide IsNonZeroCheck, Sound, CheckTerm;
    if es != [] {
      var init, last := es[..|es| - 1], es[|es| - 1];
      AmongHold(init, sc);
      assert es == init + [last];
      var others, checks := OthersAmong(init, sc.regs), ChecksAmong(init, sc.regs);
      var check := IsNonZeroCheck(last, sc.regs);
      if check.Some? {
        IsNonZeroCheckSound(last, sc);
      }
      forall at: Row | at.Over(sc)
        ensures AnyHolds(es, at) <==> AnyHolds(OthersAmong(es, sc.regs), at) || AnyCheck(ChecksAmong(es, sc.regs), at)
      {
        AnyHoldsSnoc(init, last, at);
        if check.Some? {
          IsNonZeroCheckHolds(last, sc, at);
          AnyCheckSnoc(checks, check.value, at);
        } else {
          AnyHoldsSnoc(others, last, at);
        }
      }
    }
  }

  lemma AnyHoldsSnoc(es: seq<Logical>, e: Logical, at: Row)
    ensures AnyHolds(es + [e], at) <==> AnyHolds(es, at) || Holds(e, at)
  {
    assert e in es + [e];
  }

  lemma AnyCheckSnoc(cs: seq<NonZeroCheck>, c: NonZeroCheck, at: Row)
    ensures AnyCheck(cs + [c], at) <==> AnyCheck(cs, at) || Eval(c.term, at) != 0
  {
    assert c in cs + [c];
  }

  lemma {:induction false} AmongLater(es: seq<Logical>, sc: Scope, regs: seq<Register>)
    requires AllLogicalShaped(es, sc) && sc.regs <= regs
    ensures ChecksAmong(es, regs) == ChecksAmong(es, sc.regs) && OthersAmong(es, regs) == OthersAmong(es, sc.regs)
  {
    if es != [] {
      AmongLater(es[..|es| - 1], sc, regs);
      assert LogicalShaped(es[|es| - 1], sc);
    }
  }

  /** Split the non-zero checks off the operands of a disjunction. */
  method SplitChecks(args: seq<Logical>, regs: seq<Register>, ghost sc: Scope)
    returns (nterms: seq<Logical>, worklist: seq<NonZeroCheck>)
    requires AllLogicalShaped(args, sc) && sc.regs <= regs
    ensures nterms == OthersAmong(args, sc.regs) && worklist == ChecksAmong(args, sc.regs)
    ensures |nterms| + |worklist| == |args|
    ensures forall c :: c in worklist ==> Sound(c, sc) && CheckTerm(c.term)
    ensures forall at: Row :: at.Over(sc) ==> (AnyHolds(args, at) <==> AnyHolds(nterms, at) || AnyCheck(worklist, at))
  {
    nterms, worklist := [], [];
    for i := 0 to |args|
      invariant nterms == OthersAmong(args[..i], regs) && worklist == ChecksAmong(args[..i], regs)
      invariant |nterms| + |worklist| == i
    {
      assert args[..i + 1][..i] == args[..i];
      var check := IsNonZeroCheck(args[i], regs);
      if check.Some? {
        worklist := worklist + [check.value];
      } else {
        nterms := nterms + [args[i]];
      }
    }
    assert args[..|args|] == args;
    AmongLater(args, sc, regs);
    AmongHold(args, sc);
  }
}
