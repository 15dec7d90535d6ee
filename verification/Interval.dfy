// Integer range analysis: possibly infinite integers and the intervals between them.
module Intervals {

  /** An integer, an infinity of known sign, or plain infinity (of either sign). */
  datatype InfInt = Finite(val: int) | NegInfinity | PosInfinity | Infinity {

    function Add(o: InfInt): InfInt {
      if Finite? && o.Finite? then Finite(val + o.val)
      else if this == o then this
      else Infinity
    }

    function Negate(): InfInt {
      match this
      case PosInfinity => NegInfinity
      case NegInfinity => PosInfinity
      case Infinity => Infinity
      case Finite(v) => Finite(-v)
    }

    function Sub(o: InfInt): InfInt {
      Add(o.Negate())
    }

    function Mul(o: InfInt): InfInt {
      if Infinity? || o.Infinity? then Infinity
      else if NegInfinity? && o.NegInfinity? then PosInfinity
      else if NegInfinity? || o.NegInfinity? then NegInfinity
      else if PosInfinity? || o.PosInfinity? then PosInfinity
      else Finite(val * o.val)
    }

    /** The lesser of two values, where anything but two finite or two positive values gives -oo. */
    function Min(o: InfInt): InfInt {
      if Finite? && o.Finite? then (if val <= o.val then this else o)
      else if PosInfinity? && o.PosInfinity? then PosInfinity
      else NegInfinity
    }

    /** The greater of two values, where anything but two finite or two negative values gives +oo. */
    function Max(o: InfInt): InfInt {
      if Finite? && o.Finite? then (if val >= o.val then this else o)
      else if NegInfinity? && o.NegInfinity? then NegInfinity
      else PosInfinity
    }

    /** Three-way comparison, which is not defined on plain infinity. */
    function Cmp(o: InfInt): int
      requires !Infinity? && !o.Infinity?
    {
      if Finite? && o.Finite? then (if val < o.val then -1 else if val == o.val then 0 else 1)
      else if Finite? == o.Finite? && this == o then 0
      else if NegInfinity? || o.PosInfinity? then -1
      else 1
    }
  }

  /** The value of an interval: everything from min to max inclusive. */
  datatype Range = Range(min: InfInt, max: InfInt) {

    function Normalised(): Range {
      Range(if min.Infinity? then NegInfinity else min, if max.Infinity? then PosInfinity else max)
    }

    function Plus(q: Range): Range {
      Range(min.Add(q.min), max.Add(q.max)).Normalised()
    }

    function Minus(q: Range): Range {
      Range(min.Sub(q.max), max.Sub(q.min)).Normalised()
    }

    function Times(q: Range): Range {
      var x1, x2, x3, x4 := min.Mul(q.min), min.Mul(q.max), max.Mul(q.min), max.Mul(q.max);
      Range(x1.Min(x2).Min(x3.Min(x4)), x1.Max(x2).Max(x3.Max(x4)))
    }

    function Union(q: Range): Range {
      Range(min.Min(q.min), max.Max(q.max))
    }

    predicate Within(q: Range)
      requires Proper() && q.Proper()
    {
      min.Cmp(q.min) >= 0 && max.Cmp(q.max) <= 0
    }

    /** The two shapes analysis ever produces: a finite interval, or all integers. */
    predicate Proper() {
      || (min.Finite? && max.Finite? && min.val <= max.val)
      || this == EVERYTHING
    }

    predicate NonNegative() {
      min.Finite? && min.val >= 0 && max.Finite?
    }

    predicate Contains(v: int) {
      && (min.Finite? ==> min.val <= v) && !min.PosInfinity?
      && (max.Finite? ==> v <= max.val) && !max.NegInfinity?
    }
  }

  const EVERYTHING := Range(NegInfinity, PosInfinity)

  function Exactly(v: int): Range {
    Range(Finite(v), Finite(v))
  }

  // ---------------------------------------------------------------------------
  // Soundness
  // ---------------------------------------------------------------------------

  lemma PlusSound(r: Range, q: Range, v: int, w: int)
    requires r.Proper() && q.Proper() && r.Contains(v) && q.Contains(w)
    ensures r.Plus(q).Proper() && r.Plus(q).Contains(v + w)
  {
  }

  lemma MinusSound(r: Range, q: Range, v: int, w: int)
    requires r.Proper() && q.Proper() && r.Contains(v) && q.Contains(w)
    ensures r.Minus(q).Proper() && r.Minus(q).Contains(v - w)
  {
  }

  /** Nothing else is in a sum of intervals: each member is a sum of members. */
  lemma PlusTight(r: Range, q: Range, x: int) returns (v: int, w: int)
    requires r.Proper() && q.Proper() && r.Plus(q).Contains(x)
    ensures r.Contains(v) && q.Contains(w) && v + w == x
  {
    if r == EVERYTHING {
      w := if q == EVERYTHING then 0 else q.min.val;
      v := x - w;
    } else if q == EVERYTHING {
      v := r.min.val;
      w := x - v;
    } else {
      v := if x - q.min.val <= r.max.val then x - q.min.val else r.max.val;
      w := x - v;
    }
  }

  /** Nor is there in a difference. */
  lemma MinusTight(r: Range, q: Range, x: int) returns (v: int, w: int)
    requires r.Proper() && q.Proper() && r.Minus(q).Contains(x)
    ensures r.Contains(v) && q.Contains(w) && v - w == x
  {
    if r == EVERYTHING {
      w := if q == EVERYTHING then 0 else q.min.val;
      v := x + w;
    } else if q == EVERYTHING {
      v := r.min.val;
      w := v - x;
    } else {
      v := if x + q.max.val <= r.max.val then x + q.max.val else r.max.val;
      w := v - x;
    }
  }

  /** Turning a difference around where it cannot be positive finds a non-negative one, if there is one. */
  lemma MinusOriented(r: Range, q: Range)
    requires r.Proper() && q.Proper()
    ensures var d, f := r.Minus(q), q.Minus(r);
            d.NonNegative() || f.NonNegative() ==>
              (if d.max.Finite? && d.max.val <= 0 then f else d).NonNegative()
  {
  }

  function Least(a: int, b: int): int {
    if a <= b then a else b
  }

  function Most(a: int, b: int): int {
    if a >= b then a else b
  }

  lemma ScaleBetween(a: int, b: int, v: int, w: int)
    requires a <= v <= b
    ensures Least(a * w, b * w) <= v * w <= Most(a * w, b * w)
  {
    if w >= 0 {
      assert (v - a) * w >= 0 && (b - v) * w >= 0;
    } else {
      assert (v - a) * (-w) >= 0 && (b - v) * (-w) >= 0;
    }
  }

  // A product lies between the products of the ends.
  lemma ProductBetween(a: int, b: int, c: int, d: int, v: int, w: int)
    requires a <= v <= b && c <= w <= d
    ensures Least(Least(a * c, a * d), Least(b * c, b * d)) <= v * w <= Most(Most(a * c, a * d), Most(b * c, b * d))
  {
    ScaleBetween(a, b, v, w);
    ScaleBetween(c, d, w, a);
    ScaleBetween(c, d, w, b);
    assert a * w == w * a && b * w == w * b && c * a == a * c && d * a == a * d && c * b == b * c && d * b == b * d;
  }

  lemma FiniteExtremes(w: int, x: int, y: int, z: int)
    ensures Finite(w).Min(Finite(x)).Min(Finite(y).Min(Finite(z))) == Finite(Least(Least(w, x), Least(y, z)))
    ensures Finite(w).Max(Finite(x)).Max(Finite(y).Max(Finite(z))) == Finite(Most(Most(w, x), Most(y, z)))
  {
  }

  lemma FiniteTimes(r: Range, q: Range)
    requires r.min.Finite? && r.max.Finite? && q.min.Finite? && q.max.Finite?
    ensures var a, b, c, d := r.min.val, r.max.val, q.min.val, q.max.val;
            r.Times(q) == Range(Finite(Least(Least(a * c, a * d), Least(b * c, b * d))),
                                Finite(Most(Most(a * c, a * d), Most(b * c, b * d))))
  {
    var a, b, c, d := r.min.val, r.max.val, q.min.val, q.max.val;
    assert r.min.Mul(q.min) == Finite(a * c) && r.min.Mul(q.max) == Finite(a * d);
    assert r.max.Mul(q.min) == Finite(b * c) && r.max.Mul(q.max) == Finite(b * d);
    FiniteExtremes(a * c, a * d, b * c, b * d);
  }

  lemma TimesSound(r: Range, q: Range, v: int, w: int)
    requires r.Proper() && q.Proper() && r.Contains(v) && q.Contains(w)
    ensures r.Times(q).Proper() && r.Times(q).Contains(v * w)
  {
    if r != EVERYTHING && q != EVERYTHING {
      ProductBetween(r.min.val, r.max.val, q.min.val, q.max.val, v, w);
      FiniteTimes(r, q);
    }
  }

  /** The product of two finite intervals is the least one which holds all products of members. */
  lemma TimesLeast(r: Range, q: Range, o: Range)
    requires r.Proper() && q.Proper() && o.Proper() && r != EVERYTHING && q != EVERYTHING
    requires forall v, w :: r.Contains(v) && q.Contains(w) ==> o.Contains(v * w)
    ensures r.Times(q).Within(o)
  {
    var a, b, c, d := r.min.val, r.max.val, q.min.val, q.max.val;
    FiniteTimes(r, q);
    ProductBetween(a, b, c, d, a, c);
    assert r.Contains(a) && r.Contains(b) && q.Contains(c) && q.Contains(d);
    assert o.Contains(a * c) && o.Contains(a * d) && o.Contains(b * c) && o.Contains(b * d);
  }

  /** A union is the least interval which holds the members of both. */
  lemma UnionLeast(r: Range, q: Range, o: Range)
    requires r.Proper() && q.Proper() && o.Proper()
    requires forall v :: r.Contains(v) || q.Contains(v) ==> o.Contains(v)
    ensures r.Union(q).Proper() && r.Union(q).Within(o)
  {
    WithinExact(r, o);
    WithinExact(q, o);
  }

  lemma UnionSound(r: Range, q: Range, v: int)
    requires r.Proper() && q.Proper() && (r.Contains(v) || q.Contains(v))
    ensures r.Union(q).Proper() && r.Union(q).Contains(v)
  {
  }

  lemma WithinSound(r: Range, q: Range, v: int)
    requires r.Proper() && q.Proper() && r.Within(q) && r.Contains(v)
    ensures q.Contains(v)
  {
  }

  /** A containment test that fails always has a witness, so Within is exact. */
  lemma WithinExact(r: Range, q: Range)
    requires r.Proper() && q.Proper()
    ensures r.Within(q) <==> forall v :: r.Contains(v) ==> q.Contains(v)
  {
    if forall v :: r.Contains(v) ==> q.Contains(v) {
      if r.min.Finite? {
        assert r.Contains(r.min.val) && r.Contains(r.max.val);
      } else if q.min.Finite? {
        assert r.Contains(q.min.val - 1);
      }
    }
  }

  /** In particular, this holds of finite intervals. */
  lemma WithinFinite(r: Range, lo: int, hi: int)
    requires r.Proper() && lo <= hi
    ensures r.Within(Range(Finite(lo), Finite(hi))) <==> forall v :: r.Contains(v) ==> lo <= v <= hi
  {
    var q := Range(Finite(lo), Finite(hi));
    assert forall v :: q.Contains(v) <==> lo <= v <= hi;
    WithinExact(r, q);
    hide Range.Within;
  }

  // ---------------------------------------------------------------------------
  // The interval object, whose operations overwrite its bounds.
  // ---------------------------------------------------------------------------

  class Interval {
    var min: InfInt
    var max: InfInt

    ghost function Value(): Range
      reads this
    {
      Range(min, max)
    }

    constructor (r: Range)
      ensures Value() == r
    {
      min, max := r.min, r.max;
    }

    method Set(q: Interval)
      modifies this
      ensures Value() == old(q.Value())
    {
      min, max := q.min, q.max;
    }

    method Add(q: Interval)
      modifies this
      ensures Value() == old(Value()).Plus(old(q.Value()))
    {
      var lower, upper := q.min, q.max;
      min := min.Add(lower);
      max := max.Add(upper);
      Normalise();
    }

    method Sub(q: Interval)
      modifies this
      ensures Value() == old(Value()).Minus(old(q.Value()))
    {
      var lower, upper := q.min, q.max;
      min := min.Sub(upper);
      max := max.Sub(lower);
      Normalise();
    }

    method Mul(q: Interval)
      modifies this
      ensures Value() == old(Value()).Times(old(q.Value()))
    {
      var x1, x2 := min.Mul(q.min), min.Mul(q.max);
      var x3, x4 := max.Mul(q.min), max.Mul(q.max);
      min := x1.Min(x2).Min(x3.Min(x4));
      max := x1.Max(x2).Max(x3.Max(x4));
    }

    method Insert(q: Interval)
      modifies this
      ensures Value() == old(Value()).Union(old(q.Value()))
    {
      min, max := min.Min(q.min), max.Max(q.max);
    }

    method Normalise()
      modifies this
      ensures Value() == old(Value()).Normalised()
    {
      if min.Infinity? {
        min := NegInfinity;
      }
      if max.Infinity? {
        max := PosInfinity;
      }
    }
  }
}
