// Combining several terms which must all vanish into one sum which must vanish.
module Packing {
  import opened Congruence
  import opened PrimeField
  import opened Intervals
  import opened Tables
  import opened Terms
  import opened Builders
  import opened Ranges

  /** The number of bits needed to write down n. */
  function BitLen(n: nat): nat {
    if n == 0 then 0 else 1 + BitLen(n / 2)
  }

  lemma BitLenBound(n: nat, b: nat)
    ensures BitLen(n) <= b <==> n < Pow2(b)
  {
    if n > 0 && b > 0 {
      BitLenBound(n / 2, b - 1);
    }
  }

  /** Whether a term is known to take on only finitely many, non-negative values. */
  predicate Unsigned(t: Term) {
    RangeOf(t).NonNegative()
  }

  /** The greatest value a term can take, where it is known. */
  function MaxOf(t: Term): int {
    if RangeOf(t).max.Finite? then RangeOf(t).max.val else 0
  }

  /** What these mean for the values of a term: none is negative, and the greatest is one of them. */
  lemma UnsignedIff(t: Term)
    requires RangeOf(t).Proper()
    ensures Unsigned(t) <==> RangeOf(t) != EVERYTHING && forall v :: RangeOf(t).Contains(v) ==> v >= 0
    ensures RangeOf(t) != EVERYTHING ==>
              RangeOf(t).Contains(MaxOf(t)) && forall v :: RangeOf(t).Contains(v) ==> v <= MaxOf(t)
  {
    var r := RangeOf(t);
    if r != EVERYTHING {
      assert r.Contains(r.min.val) && r.Contains(r.max.val);
    }
  }

  function MaxTotal(ts: seq<Term>): int {
    if ts == [] then 0 else MaxOf(ts[0]) + MaxTotal(ts[1..])
  }

  /** Whether the sum of some terms can neither go below zero nor exceed the field bandwidth. */
  predicate Packs(bandwidth: nat, ts: seq<Term>) {
    (forall t :: t in ts ==> Unsigned(t)) && MaxTotal(ts) < Pow2(bandwidth)
  }

  lemma MaxTotalSnoc(ts: seq<Term>, i: nat)
    requires i < |ts|
    ensures MaxTotal(ts[..i + 1]) == MaxTotal(ts[..i]) + MaxOf(ts[i])
  {
    if i == 0 {
      assert ts[..1][1..] == [];
    } else {
      assert ts[..i + 1][1..] == ts[1..][..i] && ts[..i][1..] == ts[1..][..i - 1];
      MaxTotalSnoc(ts[1..], i - 1);
    }
  }

  /** Every one of some terms vanishes on a given row. */
  ghost predicate AllVanish(ts: seq<Term>, at: Row) {
    forall t :: t in ts ==> Eval(t, at) == 0
  }

  // With no reduction modulo p, field sums are integer sums.
  lemma {:induction false} PackedSum(bandwidth: nat, ts: seq<Term>, sc: Scope, at: Row)
    requires Packs(bandwidth, ts) && AllShaped(ts, sc) && at.Over(sc) && Pow2(bandwidth) <= at.p
    ensures 0 <= SumOf(ts, at) <= MaxTotal(ts)
    ensures SumOf(ts, at) == 0 <==> AllVanish(ts, at)
  {
    if ts != [] {
      var t := ts[0];
      assert ts == [t] + ts[1..];
      assert t in ts && forall u :: u in ts[1..] ==> u in ts;
      assert Unsigned(t);
      RangeSound(t, sc, at);
      EvalIsIntEval(t, sc, at);
      MaxTotalNonNegative(ts[1..], sc, at);
      assert 0 <= IntEval(t, at) <= MaxOf(t) <= MaxTotal(ts);
      SmallModulus(at.p, IntEval(t, at));
      PackedSum(bandwidth, ts[1..], sc, at);
    }
  }

  lemma {:induction false} MaxTotalNonNegative(ts: seq<Term>, sc: Scope, at: Row)
    requires AllShaped(ts, sc) && at.Over(sc) && forall t :: t in ts ==> Unsigned(t)
    ensures MaxTotal(ts) >= 0
  {
    if ts != [] {
      RangeSound(ts[0], sc, at);
      MaxTotalNonNegative(ts[1..], sc, at);
    }
  }

  /** A sum of packed terms vanishes exactly where all of them do: no combination wraps around. */
  lemma PackedVanishes(bandwidth: nat, ts: seq<Term>, sc: Scope, at: Row)
    requires |ts| == 1 || Packs(bandwidth, ts)
    requires AllShaped(ts, sc) && at.Over(sc) && Pow2(bandwidth) <= at.p
    ensures Eval(Sum(ts), at) == 0 <==> AllVanish(ts, at)
  {
    SumEval(ts, sc, at);
    if |ts| == 1 {
      assert ts == [ts[0]];
      SumOfSingle(ts[0], at);
      EvalIsElement(ts[0], sc, at);
      SmallModulus(at.p, Eval(ts[0], at));
    } else {
      PackedSum(bandwidth, ts, sc, at);
      SmallModulus(at.p, SumOf(ts, at));
    }
  }

  // Leaving out the last term of a packet leaves a packet.
  lemma PacksPrefix(bandwidth: nat, ts: seq<Term>, i: nat, sc: Scope)
    requires i < |ts| && AllShaped(ts, sc) && Packs(bandwidth, ts[..i + 1])
    ensures Packs(bandwidth, ts[..i])
  {
    MaxTotalSnoc(ts, i);
    RangeIsProper(ts[i], sc);
    assert ts[..i + 1] == ts[..i] + [ts[i]];
    assert Unsigned(ts[i]);
  }

  lemma NotPackedBeyond(bandwidth: nat, ts: seq<Term>, i: nat, sc: Scope)
    requires i <= |ts| && AllShaped(ts, sc) && !Packs(bandwidth, ts[..i])
    ensures i < |ts| ==> !Packs(bandwidth, ts[..i + 1])
  {
    if i < |ts| && Packs(bandwidth, ts[..i + 1]) {
      PacksPrefix(bandwidth, ts, i, sc);
    }
  }

  // How many leading terms have no sign and, together with what there is already, fit the bandwidth.
  function Leading(bandwidth: nat, ts: seq<Term>, sum: int): (n: nat)
    ensures n <= |ts|
  {
    if ts == [] || !Unsigned(ts[0]) || sum + MaxOf(ts[0]) >= Pow2(bandwidth) then 0
    else 1 + Leading(bandwidth, ts[1..], sum + MaxOf(ts[0]))
  }

  /** The length of the next packet. */
  function PacketLength(bandwidth: nat, ts: seq<Term>): (n: nat)
    requires ts != []
    ensures 1 <= n <= |ts|
  {
    var n := Leading(bandwidth, ts, 0);
    if n > 1 then n else 1
  }

  lemma MaxTotalEmpty()
    ensures MaxTotal([]) == 0
  {
  }

  lemma LeadingStep(bandwidth: nat, ts: seq<Term>, i: nat, sum: int)
    requires i < |ts|
    ensures Leading(bandwidth, ts[i..], sum) ==
              if !Unsigned(ts[i]) || sum + MaxOf(ts[i]) >= Pow2(bandwidth) then 0
              else 1 + Leading(bandwidth, ts[i + 1..], sum + MaxOf(ts[i]))
  {
    assert ts[i..][1..] == ts[i + 1..];
  }

  /** How many leading terms can be packed: as many as possible, but always at least one. */
  method NextSumConjunct(bandwidth: nat, terms: seq<Term>, ghost sc: Scope) returns (n: nat)
    requires terms != [] && AllShaped(terms, sc)
    ensures n == PacketLength(bandwidth, terms)
    ensures n == 1 || Packs(bandwidth, terms[..n])
    ensures n < |terms| ==> !Packs(bandwidth, terms[..n + 1])
  {
    hide Leading, MaxTotal, Shaped, RangeOf, Pow2, BitLen;
    var sum := 0;
    assert terms[..0] == [] && terms[0..] == terms;
    MaxTotalEmpty();
    for i := 0 to |terms|
      invariant forall t :: t in terms[..i] ==> Unsigned(t)
      invariant sum == MaxTotal(terms[..i]) && 0 <= sum < Pow2(bandwidth)
      invariant Leading(bandwidth, terms, 0) == i + Leading(bandwidth, terms[i..], sum)
    {
      LeadingStep(bandwidth, terms, i, sum);
      assert terms[..i + 1] == terms[..i] + [terms[i]];
      var values := RangeOf(terms[i]);
      RangeIsProper(terms[i], sc);
      MaxTotalSnoc(terms, i);
      var signed := !values.min.Finite? || values.min.val < 0;
      if signed || !values.max.Finite? {
        assert terms[i] in terms[..i + 1] && !Unsigned(terms[i]);
        NotPackedBeyond(bandwidth, terms, i + 1, sc);
        return if i > 1 then i else 1;
      }
      sum := sum + values.max.val;
      BitLenBound(sum, bandwidth);
      if BitLen(sum) > bandwidth {
        NotPackedBeyond(bandwidth, terms, i + 1, sc);
        return if i > 1 then i else 1;
      }
    }
    assert terms[..|terms|] == terms;
    n := |terms|;
  }

  // ---------------------------------------------------------------------------
  // Grouping by bounds
  // ---------------------------------------------------------------------------

  /** The distinct bounds of some terms, in order of first occurrence. */
  function DistinctBounds(ts: seq<Term>): seq<Bounds> {
    if ts == [] then []
    else
      var keys := DistinctBounds(ts[..|ts| - 1]);
      var b := BoundsOf(ts[|ts| - 1]);
      if b in keys then keys else keys + [b]
  }

  /** Those terms with the given bounds, in their original order. */
  function WithBounds(ts: seq<Term>, b: Bounds): seq<Term> {
    if ts == [] then []
    else WithBounds(ts[..|ts| - 1], b) + (if BoundsOf(ts[|ts| - 1]) == b then [ts[|ts| - 1]] else [])
  }

  lemma {:induction false} WithBoundsMembers(ts: seq<Term>, b: Bounds)
    ensures forall t :: t in WithBounds(ts, b) <==> t in ts && BoundsOf(t) == b
  {
    if ts != [] {
      WithBoundsMembers(ts[..|ts| - 1], b);
      assert ts == ts[..|ts| - 1] + [ts[|ts| - 1]];
    }
  }

  lemma {:induction false} DistinctBoundsMembers(ts: seq<Term>)
    ensures forall t :: t in ts ==> BoundsOf(t) in DistinctBounds(ts)
    ensures forall b :: b in DistinctBounds(ts) ==> exists t :: t in ts && BoundsOf(t) == b
    ensures forall i, j :: 0 <= i < j < |DistinctBounds(ts)| ==> DistinctBounds(ts)[i] != DistinctBounds(ts)[j]
  {
    if ts != [] {
      var init, last := ts[..|ts| - 1], ts[|ts| - 1];
      DistinctBoundsMembers(init);
      assert ts == init + [last];
      forall b | b in DistinctBounds(ts) ensures exists t :: t in ts && BoundsOf(t) == b {
        if b in DistinctBounds(init) {
          var t :| t in init && BoundsOf(t) == b;
          assert t in ts;
        } else {
          assert last in ts && BoundsOf(last) == b;
        }
      }
    }
  }

  lemma DistinctBoundsSnoc(ts: seq<Term>, n: nat)
    requires n < |ts|
    ensures DistinctBounds(ts[..n + 1]) ==
              (if BoundsOf(ts[n]) in DistinctBounds(ts[..n]) then DistinctBounds(ts[..n])
               else DistinctBounds(ts[..n]) + [BoundsOf(ts[n])])
    ensures forall b :: WithBounds(ts[..n + 1], b)
                     == WithBounds(ts[..n], b) + (if BoundsOf(ts[n]) == b then [ts[n]] else [])
  {
    assert ts[..n + 1][..n] == ts[..n];
  }

  // Bounds not seen so far have no terms.
  lemma NoneWithBounds(ts: seq<Term>, b: Bounds)
    requires b !in DistinctBounds(ts)
    ensures WithBounds(ts, b) == []
  {
    WithBoundsMembers(ts, b);
    if WithBounds(ts, b) != [] {
      assert WithBounds(ts, b)[0] in WithBounds(ts, b);
      DistinctBoundsMembers(ts);
    }
  }

  /** Whether groups hold all terms by their bounds, one group for each of the given keys. */
  ghost predicate Grouped(ts: seq<Term>, keys: seq<Bounds>, groups: seq<seq<Term>>) {
    && keys == DistinctBounds(ts) && |groups| == |keys|
    && forall i :: 0 <= i < |keys| ==> groups[i] == WithBounds(ts, keys[i])
  }

  // A term whose bounds were seen before joins their group.
  lemma GroupedMatch(ts: seq<Term>, n: nat, keys: seq<Bounds>, groups: seq<seq<Term>>, i: nat)
    requires n < |ts| && Grouped(ts[..n], keys, groups) && i < |keys| && keys[i] == BoundsOf(ts[n])
    ensures Grouped(ts[..n + 1], keys, groups[i := groups[i] + [ts[n]]])
  {
    DistinctBoundsSnoc(ts, n);
    DistinctBoundsMembers(ts[..n]);
    var updated := groups[i := groups[i] + [ts[n]]];
    forall j | 0 <= j < |keys| ensures updated[j] == WithBounds(ts[..n + 1], keys[j]) {
      assert WithBounds(ts[..n + 1], keys[j])
          == WithBounds(ts[..n], keys[j]) + (if BoundsOf(ts[n]) == keys[j] then [ts[n]] else []);
    }
  }

  // Otherwise, it starts a new group.
  lemma GroupedNew(ts: seq<Term>, n: nat, keys: seq<Bounds>, groups: seq<seq<Term>>)
    requires n < |ts| && Grouped(ts[..n], keys, groups) && BoundsOf(ts[n]) !in keys
    ensures Grouped(ts[..n + 1], keys + [BoundsOf(ts[n])], groups + [[ts[n]]])
  {
    DistinctBoundsSnoc(ts, n);
    NoneWithBounds(ts[..n], BoundsOf(ts[n]));
    var keys', groups' := keys + [BoundsOf(ts[n])], groups + [[ts[n]]];
    forall j | 0 <= j < |keys'| ensures groups'[j] == WithBounds(ts[..n + 1], keys'[j]) {
      assert WithBounds(ts[..n + 1], keys'[j])
          == WithBounds(ts[..n], keys'[j]) + (if BoundsOf(ts[n]) == keys'[j] then [ts[n]] else []);
    }
  }

  /** Partition terms into groups of terms which share their bounds. */
  method GroupTermsByBounds(terms: seq<Term>) returns (groups: seq<seq<Term>>)
    ensures Grouped(terms, DistinctBounds(terms), groups)
  {
    var keys: seq<Bounds> := [];
    groups := [];
    for n := 0 to |terms|
      invariant Grouped(terms[..n], keys, groups)
    {
      var bounds := BoundsOf(terms[n]);
      var matched := false;
      ghost var before := groups;
      for i := 0 to |keys|
        invariant groups == before && !matched
        invariant bounds !in keys[..i]
      {
        if keys[i] == bounds {
          GroupedMatch(terms, n, keys, groups, i);
          groups := groups[i := groups[i] + [terms[n]]];
          matched := true;
          break;
        }
        assert keys[..i + 1] == keys[..i] + [keys[i]];
      }
      if !matched {
        assert keys[..|keys|] == keys;
        GroupedNew(terms, n, keys, groups);
        keys := keys + [bounds];
        groups := groups + [[terms[n]]];
      }
    }
    assert terms[..|terms|] == terms;
  }

  // ---------------------------------------------------------------------------
  // Summing groups
  // ---------------------------------------------------------------------------

  /** Whether a term vanishes on every row of a table on which it is defined. */
  ghost predicate Accepts(p: Prime, t: Term, tb: Table) {
    forall k :: BoundsOf(t).Covers(k, tb.height) ==> Eval(t, Row(p, tb, k)) == 0
  }

  ghost predicate AllAccept(p: Prime, ts: seq<Term>, tb: Table) {
    forall t :: t in ts ==> Accepts(p, t, tb)
  }

  /** Two lists of terms which vanish together, be it row by row or on entire tables. */
  ghost predicate Equivalent(sc: Scope, xs: seq<Term>, ys: seq<Term>) {
    && (forall at: Row :: at.Over(sc) ==> (AllVanish(xs, at) <==> AllVanish(ys, at)))
    && (forall tb: Table :: tb.Valid(sc.p) && sc.regs <= tb.registers ==>
          (AllAccept(sc.p, xs, tb) <==> AllAccept(sc.p, ys, tb)))
  }

  lemma EquivalentConcat(sc: Scope, xs: seq<Term>, ys: seq<Term>, us: seq<Term>, vs: seq<Term>)
    requires Equivalent(sc, xs, ys) && Equivalent(sc, us, vs)
    ensures Equivalent(sc, xs + us, ys + vs)
  {
    forall at: Row | at.Over(sc) ensures AllVanish(xs + us, at) <==> AllVanish(ys + vs, at) {
      VanishConcat(xs, us, at);
      VanishConcat(ys, vs, at);
    }
    forall tb: Table | tb.Valid(sc.p) && sc.regs <= tb.registers
      ensures AllAccept(sc.p, xs + us, tb) <==> AllAccept(sc.p, ys + vs, tb)
    {
      AcceptConcat(sc.p, xs, us, tb);
      AcceptConcat(sc.p, ys, vs, tb);
    }
  }

  lemma VanishConcat(xs: seq<Term>, ys: seq<Term>, at: Row)
    ensures AllVanish(xs + ys, at) <==> AllVanish(xs, at) && AllVanish(ys, at)
  {
    assert forall t :: t in xs + ys <==> t in xs || t in ys;
  }

  lemma AcceptConcat(p: Prime, xs: seq<Term>, ys: seq<Term>, tb: Table)
    ensures AllAccept(p, xs + ys, tb) <==> AllAccept(p, xs, tb) && AllAccept(p, ys, tb)
  {
    assert forall t :: t in xs + ys <==> t in xs || t in ys;
  }

  lemma {:induction false} SharedBounds(ts: seq<Term>, b: Bounds)
    requires ts != [] && forall t :: t in ts ==> BoundsOf(t) == b
    ensures BoundsOfAll(ts) == b
  {
    assert ts == [ts[0]] + ts[1..];
    if |ts| > 1 {
      SharedBounds(ts[1..], b);
    }
  }

  /** Summing a packet of terms which share their bounds loses no row and no failure. */
  lemma PacketEquivalent(bandwidth: nat, ts: seq<Term>, b: Bounds, sc: Scope)
    requires |ts| == 1 || (ts != [] && Packs(bandwidth, ts))
    requires AllShaped(ts, sc) && Pow2(bandwidth) <= sc.p
    requires forall t :: t in ts ==> BoundsOf(t) == b
    ensures Equivalent(sc, [Sum(ts)], ts) && Shaped(Sum(ts), sc)
  {
    SumShaped(ts, sc);
    SumBounds(ts);
    SharedBounds(ts, b);
    forall at: Row | at.Over(sc) ensures AllVanish([Sum(ts)], at) <==> AllVanish(ts, at) {
      PackedVanishes(bandwidth, ts, sc, at);
    }
    forall tb: Table | tb.Valid(sc.p) && sc.regs <= tb.registers
      ensures AllAccept(sc.p, [Sum(ts)], tb) <==> AllAccept(sc.p, ts, tb)
    {
      PacketAccepts(bandwidth, ts, b, sc, tb);
    }
  }

  lemma PacketAccepts(bandwidth: nat, ts: seq<Term>, b: Bounds, sc: Scope, tb: Table)
    requires |ts| == 1 || (ts != [] && Packs(bandwidth, ts))
    requires AllShaped(ts, sc) && Pow2(bandwidth) <= sc.p
    requires forall t :: t in ts ==> BoundsOf(t) == b
    requires BoundsOf(Sum(ts)) == b && tb.Valid(sc.p) && sc.regs <= tb.registers
    ensures AllAccept(sc.p, [Sum(ts)], tb) <==> AllAccept(sc.p, ts, tb)
  {
    forall k | b.Covers(k, tb.height)
      ensures Eval(Sum(ts), Row(sc.p, tb, k)) == 0 <==> AllVanish(ts, Row(sc.p, tb, k))
    {
      PackedVanishes(bandwidth, ts, sc, Row(sc.p, tb, k));
    }
    if AllAccept(sc.p, [Sum(ts)], tb) {
      assert Accepts(sc.p, Sum(ts), tb);
      forall t | t in ts ensures Accepts(sc.p, t, tb) {
        forall k | b.Covers(k, tb.height) ensures Eval(t, Row(sc.p, tb, k)) == 0 {
          assert AllVanish(ts, Row(sc.p, tb, k));
        }
      }
    }
    if AllAccept(sc.p, ts, tb) {
      forall k | b.Covers(k, tb.height) ensures Eval(Sum(ts), Row(sc.p, tb, k)) == 0 {
        forall t | t in ts ensures Eval(t, Row(sc.p, tb, k)) == 0 {
          assert Accepts(sc.p, t, tb);
        }
        assert AllVanish(ts, Row(sc.p, tb, k));
      }
      assert Accepts(sc.p, Sum(ts), tb);
    }
  }

  lemma GroupsCover(worklist: seq<Term>, groups: seq<seq<Term>>)
    requires Grouped(worklist, DistinctBounds(worklist), groups)
    ensures forall t :: t in Concat(groups) <==> t in worklist
  {
    DistinctBoundsMembers(worklist);
    forall t ensures t in Concat(groups) <==> t in worklist {
      ConcatMembers(groups, t);
      if t in worklist {
        var i :| 0 <= i < |groups| && DistinctBounds(worklist)[i] == BoundsOf(t);
        WithBoundsMembers(worklist, BoundsOf(t));
        assert t in groups[i];
      }
      if i :| 0 <= i < |groups| && t in groups[i] {
        WithBoundsMembers(worklist, DistinctBounds(worklist)[i]);
      }
    }
  }

  function Concat<T>(tss: seq<seq<T>>): seq<T> {
    if tss == [] then [] else Concat(tss[..|tss| - 1]) + tss[|tss| - 1]
  }

  lemma {:induction false} ConcatMembers<T>(tss: seq<seq<T>>, t: T)
    ensures t in Concat(tss) <==> exists i :: 0 <= i < |tss| && t in tss[i]
  {
    if tss != [] {
      ConcatMembers(tss[..|tss| - 1], t);
      if t in Concat(tss) && t !in tss[|tss| - 1] {
        var i :| 0 <= i < |tss| - 1 && t in tss[..|tss| - 1][i];
        assert t in tss[i];
      }
      if i :| 0 <= i < |tss| && t in tss[i] {
        assert i < |tss| - 1 ==> t in tss[..|tss| - 1][i];
      }
    }
  }

  lemma EquivalentMembers(sc: Scope, xs: seq<Term>, ys: seq<Term>, zs: seq<Term>)
    requires (xs == ys || Equivalent(sc, xs, ys)) && forall t :: t in ys <==> t in zs
    ensures Equivalent(sc, xs, zs)
  {
    forall at: Row | at.Over(sc) ensures AllVanish(xs, at) <==> AllVanish(zs, at) {
      assert AllVanish(ys, at) <==> AllVanish(zs, at);
    }
    forall tb: Table | tb.Valid(sc.p) && sc.regs <= tb.registers
      ensures AllAccept(sc.p, xs, tb) <==> AllAccept(sc.p, zs, tb)
    {
      assert AllAccept(sc.p, ys, tb) <==> AllAccept(sc.p, zs, tb);
    }
  }

  /** All terms, in order of when their bounds first occur. */
  function GroupsOf(ts: seq<Term>): (groups: seq<seq<Term>>)
    ensures |groups| == |DistinctBounds(ts)|
    ensures forall i :: 0 <= i < |groups| ==> groups[i] == WithBounds(ts, DistinctBounds(ts)[i])
  {
    var keys := DistinctBounds(ts);
    seq(|keys|, i requires 0 <= i < |keys| => WithBounds(ts, keys[i]))
  }

  /** The sums of the packets into which a group is split. */
  function SumPackets(bandwidth: nat, group: seq<Term>): seq<Term> {
    if group == [] then []
    else
      var n := PacketLength(bandwidth, group);
      [Sum(group[..n])] + SumPackets(bandwidth, group[n..])
  }

  /** The sums of those terms with one of the given bounds. */
  function SumGroups(bandwidth: nat, ts: seq<Term>, keys: seq<Bounds>): seq<Term> {
    if keys == [] then []
    else
      SumGroups(bandwidth, ts, keys[..|keys| - 1]) + SumPackets(bandwidth, WithBounds(ts, keys[|keys| - 1]))
  }

  /** What some terms are summed to. */
  function Sums(bandwidth: nat, ts: seq<Term>): seq<Term> {
    SumGroups(bandwidth, ts, DistinctBounds(ts))
  }

  /** Sums of packets, each of which is either a single term or cannot overflow. */
  ghost predicate SumsOf(bandwidth: nat, sums: seq<Term>, packets: seq<seq<Term>>) {
    && |sums| == |packets|
    && forall i :: 0 <= i < |sums| ==>
         sums[i] == Sum(packets[i]) && packets[i] != [] && (|packets[i]| == 1 || Packs(bandwidth, packets[i]))
  }

  /** A sum of some of the given terms. */
  ghost predicate SumsSome(s: Term, ts: seq<Term>) {
    exists packet: seq<Term> :: s == Sum(packet) && forall t :: t in packet ==> t in ts
  }

  lemma GroupCount(worklist: seq<Term>, groups: seq<seq<Term>>)
    requires Grouped(worklist, DistinctBounds(worklist), groups)
    ensures |groups| == |DistinctBounds(worklist)|
  {
  }

  lemma GroupMembers(worklist: seq<Term>, groups: seq<seq<Term>>, i: nat)
    requires Grouped(worklist, DistinctBounds(worklist), groups) && i < |groups|
    ensures forall t :: t in groups[i] ==> t in worklist && BoundsOf(t) == DistinctBounds(worklist)[i]
  {
    WithBoundsMembers(worklist, DistinctBounds(worklist)[i]);
  }

  lemma SumsSomeIntro(packet: seq<Term>, ts: seq<Term>)
    requires forall t :: t in packet ==> t in ts
    ensures SumsSome(Sum(packet), ts)
  {
  }

  // Where summing a group has got to: what is done, and what is left.
  ghost predicate SummedSoFar(
    bandwidth: nat, group: seq<Term>, sums: seq<Term>, packets: seq<seq<Term>>, rest: seq<Term>)
  {
    && Concat(packets) + rest == group && SumsOf(bandwidth, sums, packets)
    && sums + SumPackets(bandwidth, rest) == SumPackets(bandwidth, group)
  }

  lemma SummedNext(
    bandwidth: nat, group: seq<Term>, sums: seq<Term>, packets: seq<seq<Term>>, rest: seq<Term>, n: nat)
    requires SummedSoFar(bandwidth, group, sums, packets, rest) && rest != []
    requires n == PacketLength(bandwidth, rest) && (n == 1 || Packs(bandwidth, rest[..n]))
    ensures SummedSoFar(bandwidth, group, sums + [Sum(rest[..n])], packets + [rest[..n]], rest[n..])
  {
    hide Packs, Sum, PacketLength, Concat, SumsOf, SumPackets;
    var packet := rest[..n];
    SumAdded(bandwidth, sums, packets, packet);
    SumPacketsNext(bandwidth, rest);
    assert rest == packet + rest[n..];
    Associative(Concat(packets), packet, rest[n..]);
    Associative(sums, [Sum(packet)], SumPackets(bandwidth, rest[n..]));
  }

  lemma Associative<T>(xs: seq<T>, ys: seq<T>, zs: seq<T>)
    ensures (xs + ys) + zs == xs + (ys + zs)
  {
  }

  /** Sum the terms of a group packet by packet, as long as there are any left. */
  method SumGroup(bandwidth: nat, group: seq<Term>, ghost b: Bounds, ghost sc: Scope)
    returns (sums: seq<Term>, ghost packets: seq<seq<Term>>)
    requires AllShaped(group, sc) && Pow2(bandwidth) <= sc.p && forall t :: t in group ==> BoundsOf(t) == b
    ensures sums == SumPackets(bandwidth, group) && AllShaped(sums, sc)
    ensures Equivalent(sc, sums, group)
    ensures SumsOf(bandwidth, sums, packets) && Concat(packets) == group
    ensures forall s :: s in sums ==> SumsSome(s, group)
  {
    hide Packs, Shaped, Equivalent, BoundsOf, RangeOf, Sum, SumsSome, SumsOf, Concat, SumPackets, PacketLength, Pow2;
    var rest := group;
    sums, packets := [], [];
    NothingSummed(bandwidth, sc);
    assert Concat<Term>([]) + rest == group && sums + SumPackets(bandwidth, rest) == SumPackets(bandwidth, group);
    while |rest| > 0
      invariant SummedSoFar(bandwidth, group, sums, packets, rest)
      invariant forall t :: t in rest ==> t in group
    {
      hide SummedSoFar;
      var n := NextSumConjunct(bandwidth, rest, sc);
      SummedNext(bandwidth, group, sums, packets, rest, n);
      sums, packets := sums + [Sum(rest[..n])], packets + [rest[..n]];
      rest := rest[n..];
    }
    SumPacketsNext(bandwidth, rest);
    assert Concat(packets) + rest == Concat(packets) && sums + [] == sums;
    SumsEquivalent(bandwidth, sums, packets, b, sc);
  }

  /** Whichever way terms which share their bounds are split into packets, their sums are equivalent to them. */
  lemma {:induction false} SumsEquivalent(
    bandwidth: nat, sums: seq<Term>, packets: seq<seq<Term>>, b: Bounds, sc: Scope)
    requires SumsOf(bandwidth, sums, packets) && Pow2(bandwidth) <= sc.p
    requires AllShaped(Concat(packets), sc) && forall t :: t in Concat(packets) ==> BoundsOf(t) == b
    ensures Equivalent(sc, sums, Concat(packets)) && AllShaped(sums, sc)
    ensures forall s :: s in sums ==> SumsSome(s, Concat(packets))
  {
    hide Packs, Shaped, Equivalent, BoundsOf, RangeOf, Sum, Pow2, SumsSome;
    if packets == [] {
      NothingSummed(bandwidth, sc);
    } else {
      var n := |packets| - 1;
      var packet, before := packets[n], Concat(packets[..n]);
      assert forall t :: t in Concat(packets) <==> t in before || t in packet;
      SumsEquivalent(bandwidth, sums[..n], packets[..n], b, sc);
      PacketEquivalent(bandwidth, packet, b, sc);
      EquivalentConcat(sc, sums[..n], before, [Sum(packet)], packet);
      assert sums == sums[..n] + [Sum(packet)];
      SumsSomeIntro(packet, Concat(packets));
      SumsOfMore(sums[..n], before, Concat(packets));
    }
  }

  /**
   * Replace terms which must all vanish by sums which must all vanish, where only terms sharing
   * their bounds are ever summed together. Every term ends up in one of the sums.
   */
  method SumByBounds(bandwidth: nat, worklist: seq<Term>, ghost sc: Scope)
    returns (sums: seq<Term>, ghost packets: seq<seq<Term>>)
    requires AllShaped(worklist, sc) && Pow2(bandwidth) <= sc.p
    ensures AllShaped(sums, sc)
    ensures sums == Sums(bandwidth, worklist)
    ensures Equivalent(sc, sums, worklist)
    ensures SumsOf(bandwidth, sums, packets) && Concat(packets) == Concat(GroupsOf(worklist))
    ensures forall s :: s in sums ==> SumsSome(s, worklist)
  {
    hide Packs, Shaped, Equivalent, BoundsOf, DistinctBounds, WithBounds, SumsSome, Grouped, SumsOf, GroupsOf, Concat,
      SumGroups, SumPackets, Pow2;
    var groups := GroupTermsByBounds(worklist);
    GroupsCover(worklist, groups);
    GroupedIs(worklist, groups);
    GroupCount(worklist, groups);
    ghost var keys := DistinctBounds(worklist);
    sums, packets := [], [];
    NothingSummed(bandwidth, sc);
    NoGroups(bandwidth, worklist, groups, keys);
    for i := 0 to |groups|
      invariant AllShaped(sums, sc) && sums == SumGroups(bandwidth, worklist, keys[..i])
      invariant Equivalent(sc, sums, Concat(groups[..i]))
      invariant SumsOf(bandwidth, sums, packets) && Concat(packets) == Concat(groups[..i])
      invariant forall s :: s in sums ==> SumsSome(s, worklist)
    {
      GroupMembers(worklist, groups, i);
      SumGroupsNext(bandwidth, worklist, keys, groups, i);
      ConcatNext(groups, i);
      ghost var more;
      var next;
      next, more := SumGroup(bandwidth, groups[i], keys[i], sc);
      EquivalentConcat(sc, sums, Concat(groups[..i]), next, groups[i]);
      SumsAdded(bandwidth, sums, packets, next, more);
      SumsOfMore(next, groups[i], worklist);
      sums, packets := sums + next, packets + more;
    }
    assert groups[..|groups|] == groups && keys[..|groups|] == keys;
    EquivalentMembers(sc, sums, Concat(groups), worklist);
  }

  lemma SumsOfMore(sums: seq<Term>, ts: seq<Term>, us: seq<Term>)
    requires (forall s :: s in sums ==> SumsSome(s, ts)) && forall t :: t in ts ==> t in us
    ensures forall s :: s in sums ==> SumsSome(s, us)
  {
  }

  lemma SumGroupsNext(bandwidth: nat, ts: seq<Term>, keys: seq<Bounds>, groups: seq<seq<Term>>, i: nat)
    requires Grouped(ts, keys, groups) && i < |groups|
    ensures SumGroups(bandwidth, ts, keys[..i + 1])
         == SumGroups(bandwidth, ts, keys[..i]) + SumPackets(bandwidth, groups[i])
  {
    hide SumPackets, WithBounds;
    assert keys[..i + 1][..i] == keys[..i];
  }

  lemma SumPacketsNext(bandwidth: nat, group: seq<Term>)
    ensures SumPackets(bandwidth, group) ==
              if group == [] then []
              else var n := PacketLength(bandwidth, group); [Sum(group[..n])] + SumPackets(bandwidth, group[n..])
  {
  }

  lemma GroupedIs(worklist: seq<Term>, groups: seq<seq<Term>>)
    requires Grouped(worklist, DistinctBounds(worklist), groups)
    ensures groups == GroupsOf(worklist)
  {
  }

  lemma NothingSummed(bandwidth: nat, sc: Scope)
    ensures SumsOf(bandwidth, [], []) && Concat<Term>([]) == [] && Equivalent(sc, [], []) && AllShaped([], sc)
  {
    EquivalentMembers(sc, [], [], []);
  }

  lemma NoGroups(bandwidth: nat, ts: seq<Term>, groups: seq<seq<Term>>, keys: seq<Bounds>)
    ensures Concat(groups[..0]) == [] && SumGroups(bandwidth, ts, keys[..0]) == []
  {
  }

  lemma ConcatNext(tss: seq<seq<Term>>, i: nat)
    requires i < |tss|
    ensures Concat(tss[..i + 1]) == Concat(tss[..i]) + tss[i]
  {
    assert tss[..i + 1][..i] == tss[..i];
  }

  lemma SumAdded(bandwidth: nat, sums: seq<Term>, packets: seq<seq<Term>>, packet: seq<Term>)
    requires SumsOf(bandwidth, sums, packets) && packet != [] && (|packet| == 1 || Packs(bandwidth, packet))
    ensures SumsOf(bandwidth, sums + [Sum(packet)], packets + [packet])
    ensures Concat(packets + [packet]) == Concat(packets) + packet
  {
    hide Sum, Packs;
    assert (packets + [packet])[..|packets|] == packets;
  }

  lemma ConcatAppend<T>(xss: seq<seq<T>>, yss: seq<seq<T>>)
    ensures Concat(xss + yss) == Concat(xss) + Concat(yss)
  {
    if yss == [] {
      assert xss + yss == xss;
    } else {
      var n := |yss| - 1;
      assert (xss + yss)[..|xss| + n] == xss + yss[..n];
      ConcatAppend(xss, yss[..n]);
    }
  }

  lemma SumsAdded(
    bandwidth: nat, sums: seq<Term>, packets: seq<seq<Term>>, next: seq<Term>, more: seq<seq<Term>>)
    requires SumsOf(bandwidth, sums, packets) && SumsOf(bandwidth, next, more)
    ensures SumsOf(bandwidth, sums + next, packets + more)
    ensures Concat(packets + more) == Concat(packets) + Concat(more)
  {
    hide Sum, Packs, Concat;
    ConcatAppend(packets, more);
  }
}
