// Arithmetic terms over a table of registers: their meaning, their row bounds and the
// constructors which build them.

module Options {
  datatype Option<+T> = None | Some(value: T)
}

/** Registers and the trace columns which hold their values. */
module Tables {
  import opened Options
  import opened Congruence
  import opened PrimeField

  /** A register without a width is native: it can hold any field element. */
  datatype Register = Register(width: Option<nat>, padding: nat, isConstant: bool)

  /** Whether a value is a field element which respects the declared width. */
  predicate InWidth(p: Prime, width: Option<nat>, v: nat) {
    IsElement(p, v) && (width.Some? ==> v < Pow2(width.value))
  }

  /** Registers together with a trace for them, where only constant registers may lack a column. */
  datatype Table = Table(registers: seq<Register>, height: nat, columns: seq<Option<seq<nat>>>) {

    ghost predicate Valid(p: Prime) {
      && |columns| == |registers|
      && (forall r :: 0 <= r < |registers| ==> InWidth(p, registers[r].width, registers[r].padding))
      && (forall r :: 0 <= r < |registers| ==> ColumnValid(p, registers[r], columns[r]))
    }

    ghost predicate ColumnValid(p: Prime, register: Register, column: Option<seq<nat>>) {
      match column
      case None => register.isConstant
      case Some(cells) => |cells| == height && forall i :: 0 <= i < |cells| ==> InWidth(p, register.width, cells[i])
    }

    /** Read a register on a given row, which falls back on padding outside of the table. */
    function Read(r: nat, row: int): nat
      requires r < |registers| && |columns| == |registers|
    {
      match columns[r]
      case None => registers[r].padding
      case Some(cells) => if 0 <= row < |cells| then cells[row] else registers[r].padding
    }

    lemma ReadInWidth(p: Prime, r: nat, row: int)
      requires Valid(p) && r < |registers|
      ensures InWidth(p, registers[r].width, Read(r, row))
    {
      assert ColumnValid(p, registers[r], columns[r]);
    }
  }

  /** How far from either end of a table a computation starts, respectively stops, being defined. */
  datatype Bounds = Bounds(start: nat, end: nat) {

    function Union(o: Bounds): Bounds {
      Bounds(if start >= o.start then start else o.start, if end >= o.end then end else o.end)
    }

    predicate AtMost(o: Bounds) {
      start <= o.start && end <= o.end
    }

    /** Whether a computation with these bounds is defined on row k of a table of the given height. */
    predicate Covers(k: int, height: nat) {
      start <= k < height - end
    }
  }

  const EMPTY_BOUND := Bounds(0, 0)
}

module Terms {
  import opened Options
  import opened Congruence
  import opened PrimeField
  import opened Tables

  datatype Term =
    | Constant(value: nat)
    | RegisterAccess(register: nat, bitwidth: Option<nat>, shift: int)
    | Add(args: seq<Term>)
    | Sub(args: seq<Term>)
    | Mul(args: seq<Term>)

  // ---------------------------------------------------------------------------
  // Meaning
  // ---------------------------------------------------------------------------

  /** A row of a table (or of the padding around it) on which terms are evaluated. */
  datatype Row = Row(p: Prime, tb: Table, k: int) {

    /** Whether terms formed over a given scope can be evaluated here. */
    ghost predicate Over(sc: Scope) {
      p == sc.p && sc.regs <= tb.registers && tb.Valid(p)
    }
  }

  /** The field element denoted by a term on a given row. */
  function Eval(t: Term, at: Row): nat
    decreases t, 0
  {
    match t
    case Constant(v) => v
    case RegisterAccess(r, _, shift) =>
      if r < |at.tb.registers| && |at.tb.columns| == |at.tb.registers| then at.tb.Read(r, at.k + shift) else 0
    case Add(args) => SumOf(args, at) % at.p
    case Sub(args) => if args == [] then 0 else (Eval(args[0], at) - SumOf(args[1..], at)) % at.p
    case Mul(args) => ProductOf(args, at) % at.p
  }

  /** The integer sum of the elements denoted by some terms. */
  function SumOf(ts: seq<Term>, at: Row): int
    decreases ts, 1
  {
    if ts == [] then 0 else Eval(ts[0], at) + SumOf(ts[1..], at)
  }

  /** The integer product of the elements denoted by some terms. */
  function ProductOf(ts: seq<Term>, at: Row): int
    decreases ts, 1
  {
    if ts == [] then 1 else Eval(ts[0], at) * ProductOf(ts[1..], at)
  }

  lemma SumOfConcat(xs: seq<Term>, ys: seq<Term>, at: Row)
    ensures SumOf(xs + ys, at) == SumOf(xs, at) + SumOf(ys, at)
  {
    if xs == [] {
      assert xs + ys == ys;
    } else {
      assert (xs + ys)[1..] == xs[1..] + ys;
      SumOfConcat(xs[1..], ys, at);
    }
  }

  lemma ProductOfConcat(xs: seq<Term>, ys: seq<Term>, at: Row)
    ensures ProductOf(xs + ys, at) == ProductOf(xs, at) * ProductOf(ys, at)
  {
    if xs == [] {
      assert xs + ys == ys;
    } else {
      assert (xs + ys)[1..] == xs[1..] + ys;
      ProductOfConcat(xs[1..], ys, at);
      MulAssociates(Eval(xs[0], at), ProductOf(xs[1..], at), ProductOf(ys, at));
      assert (xs + ys)[0] == xs[0];
    }
  }

  // ---------------------------------------------------------------------------
  // Shape
  // ---------------------------------------------------------------------------

  /** The rows on which a term is defined, as determined by its shifted accesses. */
  function BoundsOf(t: Term): Bounds
    decreases t, 0
  {
    match t
    case Constant(_) => EMPTY_BOUND
    case RegisterAccess(_, _, shift) => if shift >= 0 then Bounds(0, shift) else Bounds(-shift, 0)
    case Add(args) => BoundsOfAll(args)
    case Sub(args) => BoundsOfAll(args)
    case Mul(args) => BoundsOfAll(args)
  }

  function BoundsOfAll(ts: seq<Term>): Bounds
    decreases ts, 1
  {
    if ts == [] then EMPTY_BOUND else BoundsOf(ts[0]).Union(BoundsOfAll(ts[1..]))
  }

  /** What terms are formed over: a field, some registers, and the bounds accesses must respect. */
  datatype Scope = Scope(p: Prime, regs: seq<Register>, bounds: Bounds) {

    /** A scope which admits everything this one does. */
    predicate Within(o: Scope) {
      p == o.p && regs <= o.regs && bounds.AtMost(o.bounds)
    }
  }

  /**
   * A term which can be evaluated: operators have operands, constants are canonical, and every
   * access names a declared register by its declared width, staying within the given bounds.
   */
  predicate Shaped(t: Term, sc: Scope) {
    match t
    case Constant(v) => IsElement(sc.p, v)
    case RegisterAccess(r, width, shift) =>
      && r < |sc.regs| && width == sc.regs[r].width
      && 0 <= sc.bounds.start + shift && shift <= sc.bounds.end
    case Add(args) => args != [] && forall a :: a in args ==> Shaped(a, sc)
    case Sub(args) => args != [] && forall a :: a in args ==> Shaped(a, sc)
    case Mul(args) => args != [] && forall a :: a in args ==> Shaped(a, sc)
  }

  predicate AllShaped(ts: seq<Term>, sc: Scope) {
    forall a :: a in ts ==> Shaped(a, sc)
  }

  /** BoundsOf is the least bound within which a term is shaped. */
  lemma {:induction false} ShapedBounds(t: Term, sc: Scope)
    requires Shaped(t, sc)
    ensures BoundsOf(t).AtMost(sc.bounds) && Shaped(t, sc.(bounds := BoundsOf(t)))
    decreases t, 0
  {
    match t
    case Constant(_) =>
    case RegisterAccess(_, _, _) =>
    case Add(args) => AllShapedBounds(args, sc);
    case Sub(args) => AllShapedBounds(args, sc);
    case Mul(args) => AllShapedBounds(args, sc);
  }

  lemma {:induction false} AllShapedBounds(ts: seq<Term>, sc: Scope)
    requires AllShaped(ts, sc)
    ensures BoundsOfAll(ts).AtMost(sc.bounds) && AllShaped(ts, sc.(bounds := BoundsOfAll(ts)))
    decreases ts, 1
  {
    if ts != [] {
      var b := BoundsOfAll(ts);
      ShapedBounds(ts[0], sc);
      AllShapedBounds(ts[1..], sc);
      ShapedWiden(ts[0], sc.(bounds := BoundsOf(ts[0])), sc.(bounds := b));
      forall a | a in ts[1..] ensures Shaped(a, sc.(bounds := b)) {
        ShapedWiden(a, sc.(bounds := BoundsOfAll(ts[1..])), sc.(bounds := b));
      }
    }
  }

  /** Declaring further registers or relaxing bounds does not affect existing terms. */
  lemma {:induction false} ShapedWiden(t: Term, sc: Scope, wide: Scope)
    requires Shaped(t, sc) && sc.Within(wide)
    ensures Shaped(t, wide)
  {
    if t.Add? || t.Sub? || t.Mul? {
      forall a | a in t.args ensures Shaped(a, wide) {
        ShapedWiden(a, sc, wide);
      }
    }
  }

  lemma EvalIsElement(t: Term, sc: Scope, at: Row)
    requires Shaped(t, sc) && at.Over(sc)
    ensures IsElement(at.p, Eval(t, at))
  {
    if t.RegisterAccess? {
      at.tb.ReadInWidth(at.p, t.register, at.k + t.shift);
    }
  }

  /**
   * What is read from a register of any width: the cell of its column on the row accessed, or its
   * padding where that row is outside of the table or there is no column.
   */
  lemma AccessEval(p: Prime, tb: Table, r: nat, width: Option<nat>, shift: int, k: int)
    requires tb.Valid(p) && r < |tb.registers|
    ensures var v := Eval(RegisterAccess(r, width, shift), Row(p, tb, k));
            match tb.columns[r]
            case Some(cells) => v == if 0 <= k + shift < |cells| then cells[k + shift] else tb.registers[r].padding
            case None => v == tb.registers[r].padding
  {
  }

  /** A constant has its value, and an operator applied to one operand more has that operand's value worked in. */
  lemma OperatorsEval(ts: seq<Term>, t: Term, v: nat, sc: Scope, at: Row)
    requires AllShaped(ts + [t], sc) && at.Over(sc)
    ensures Eval(Constant(v), at) == v
    ensures Eval(Add([t]), at) == Eval(Sub([t]), at) == Eval(Mul([t]), at) == Eval(t, at)
    ensures Eval(Add(ts + [t]), at) == (Eval(Add(ts), at) + Eval(t, at)) % at.p
    ensures ts != [] ==> Eval(Sub(ts + [t]), at) == (Eval(Sub(ts), at) - Eval(t, at)) % at.p
    ensures Eval(Mul(ts + [t]), at) == (Eval(Mul(ts), at) * Eval(t, at)) % at.p
  {
    var p, x := at.p, Eval(t, at);
    assert t in ts + [t];
    EvalIsElement(t, sc, at);
    SmallModulus(p, x);
    assert SumOf([t], at) == x && ProductOf([t], at) == x by {
      assert [t][1..] == [];
    }
    SumOfConcat(ts, [t], at);
    ProductOfConcat(ts, [t], at);
    SameMod(p, SumOf(ts, at));
    SameAdd(p, SumOf(ts, at) % p, SumOf(ts, at), x, x);
    SameMod(p, ProductOf(ts, at));
    SameMul(p, ProductOf(ts, at) % p, ProductOf(ts, at), x, x);
    if ts != [] {
      assert (ts + [t])[1..] == ts[1..] + [t];
      SumOfConcat(ts[1..], [t], at);
      var d := Eval(ts[0], at) - SumOf(ts[1..], at);
      SameMod(p, d);
      SameSub(p, d % p, d, x, x);
    }
  }

  // ---------------------------------------------------------------------------
  // Evaluation as it is carried out: left to right, stopping early at a zero factor.
  // ---------------------------------------------------------------------------

  lemma SumOfSnoc(ts: seq<Term>, i: nat, at: Row)
    requires i < |ts|
    ensures SumOf(ts[..i + 1], at) == SumOf(ts[..i], at) + Eval(ts[i], at)
  {
    assert ts[..i + 1] == ts[..i] + [ts[i]];
    SumOfConcat(ts[..i], [ts[i]], at);
  }

  lemma ProductOfSnoc(ts: seq<Term>, i: nat, at: Row)
    requires i < |ts|
    ensures ProductOf(ts[..i + 1], at) == ProductOf(ts[..i], at) * Eval(ts[i], at)
  {
    assert ts[..i + 1] == ts[..i] + [ts[i]];
    ProductOfConcat(ts[..i], [ts[i]], at);
    assert ProductOf([ts[i]], at) == Eval(ts[i], at);
  }

  /** Add up the values of all operands of a sum. */
  method EvalSum(args: seq<Term>, ghost sc: Scope, at: Row) returns (val: nat)
    requires args != [] && AllShaped(args, sc) && at.Over(sc)
    ensures val == SumOf(args, at) % at.p
    decreases args, 0
  {
    hide Shaped;
    val := EvalAt(args[0], sc, at);
    SmallModulus(at.p, val);
    assert SumOf(args[..1], at) == val;
    for i := 1 to |args|
      invariant val == SumOf(args[..i], at) % at.p
    {
      var ith := EvalAt(args[i], sc, at);
      SumOfSnoc(args, i, at);
      SameMod(at.p, SumOf(args[..i], at));
      SameAdd(at.p, val, SumOf(args[..i], at), ith, ith);
      val := FAdd(at.p, val, ith);
    }
    assert args[..|args|] == args;
  }

  /** Subtract the values of all other operands from that of the first one. */
  method EvalDifference(args: seq<Term>, ghost sc: Scope, at: Row) returns (val: nat)
    requires args != [] && AllShaped(args, sc) && at.Over(sc)
    ensures val == (Eval(args[0], at) - SumOf(args[1..], at)) % at.p
    decreases args, 0
  {
    hide Shaped;
    val := EvalAt(args[0], sc, at);
    ghost var first := val;
    SmallModulus(at.p, val);
    for i := 1 to |args|
      invariant val == (first - SumOf(args[1..i], at)) % at.p
    {
      var ith := EvalAt(args[i], sc, at);
      SumOfSnoc(args[1..], i - 1, at);
      assert args[1..][..i - 1] == args[1..i] && args[1..][..i] == args[1..i + 1];
      SameMod(at.p, first - SumOf(args[1..i], at));
      SameSub(at.p, val, first - SumOf(args[1..i], at), ith, ith);
      val := FSub(at.p, val, ith);
    }
    assert args[1..|args|] == args[1..];
  }

  /** Multiply the values of all operands of a product, up to the first one which is zero. */
  method EvalProduct(args: seq<Term>, ghost sc: Scope, at: Row) returns (val: nat)
    requires args != [] && AllShaped(args, sc) && at.Over(sc)
    ensures val == ProductOf(args, at) % at.p
    decreases args, 0
  {
    hide Shaped;
    val := EvalAt(args[0], sc, at);
    SmallModulus(at.p, val);
    assert ProductOf(args[..1], at) == val;
    for i := 1 to |args|
      invariant val == ProductOf(args[..i], at) % at.p
    {
      if val == 0 {
        ProductOfConcat(args[..i], args[i..], at);
        assert args[..i] + args[i..] == args;
        NoZeroDivisors(at.p, ProductOf(args[..i], at), ProductOf(args[i..], at));
        return;
      }
      var ith := EvalAt(args[i], sc, at);
      ProductOfSnoc(args, i, at);
      SameMod(at.p, ProductOf(args[..i], at));
      SameMul(at.p, val, ProductOf(args[..i], at), ith, ith);
      val := FMul(at.p, val, ith);
    }
    assert args[..|args|] == args;
  }

  method EvalAt(t: Term, ghost sc: Scope, at: Row) returns (val: nat)
    requires Shaped(t, sc) && at.Over(sc)
    ensures val == Eval(t, at) && IsElement(at.p, val)
    ensures t.RegisterAccess? ==>
              match at.tb.columns[t.register]
              case Some(cells) =>
                val == if 0 <= at.k + t.shift < |cells| then cells[at.k + t.shift]
                       else at.tb.registers[t.register].padding
              case None => val == at.tb.registers[t.register].padding
    decreases t
  {
    EvalIsElement(t, sc, at);
    match t {
      case Constant(v) =>
        val := v;
      case RegisterAccess(r, _, shift) =>
        val := at.tb.Read(r, at.k + shift);
      case Add(args) =>
        val := EvalSum(args, sc, at);
      case Sub(args) =>
        val := EvalDifference(args, sc, at);
      case Mul(args) =>
        val := EvalProduct(args, sc, at);
    }
  }
}
