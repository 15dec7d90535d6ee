// Equalities between variables and constants: the atoms of the proposition engine, and how one is
// closed over another.
module Equalities {
  import opened SortedSets

  datatype Operand = Var(id: nat) | Const(value: int)

  /** An equality (or non-equality) between a variable and either a variable or a constant. */
  datatype Equality = Equality(sign: bool, left: nat, right: Operand)

  /** An assignment of integers to variables. */
  type Env = nat -> int

  function ValueOf(e: Operand, env: Env): int {
    match e
    case Var(v) => env(v)
    case Const(c) => c
  }

  predicate Holds(a: Equality, env: Env) {
    a.sign == (env(a.left) == ValueOf(a.right, env))
  }

  ghost predicate AllHold(atoms: seq<Equality>, env: Env) {
    forall a :: a in atoms ==> Holds(a, env)
  }

  /** An atom says that a variable has the value of another or a constant, or that it has not. */
  lemma AtomMeans(x: nat, y: nat, c: int, env: Env)
    ensures Holds(Equality(true, x, Var(y)), env) <==> env(x) == env(y)
    ensures Holds(Equality(false, x, Var(y)), env) <==> env(x) != env(y)
    ensures Holds(Equality(true, x, Const(c)), env) <==> env(x) == c
    ensures Holds(Equality(false, x, Const(c)), env) <==> env(x) != c
  {
  }

  // ---------------------------------------------------------------------------
  // Construction
  // ---------------------------------------------------------------------------

  /** The lowest variable always goes on the left-hand side. */
  function Relate(sign: bool, l: nat, r: nat): Equality {
    if l > r then Equality(sign, r, Var(l)) else Equality(sign, l, Var(r))
  }

  function Equals(l: nat, r: nat): Equality {
    Relate(true, l, r)
  }

  function Negate(a: Equality): Equality {
    a.(sign := !a.sign)
  }

  /** Whether an atom is, on the face of it, equivalent to the given truth value. */
  predicate Is(a: Equality, truth: bool) {
    a.sign == truth && a.right == Var(a.left)
  }

  /** An atom whose variables are in order. */
  predicate WellFormed(a: Equality) {
    a.right.Var? ==> a.left <= a.right.id
  }

  /** An atom which is neither trivially true nor trivially false. */
  predicate Proper(a: Equality) {
    a.right.Var? ==> a.left < a.right.id
  }

  // ---------------------------------------------------------------------------
  // Order
  // ---------------------------------------------------------------------------

  function Cmp(p: Equality, o: Equality): int {
    if p.sign != o.sign then (if p.sign then -1 else 1)
    else if p.left != o.left then p.left - o.left
    else CmpRhs(p.right, o.right)
  }

  function CmpRhs(l: Operand, r: Operand): int {
    if l.Var? && r.Const? then -1
    else if l.Const? && r.Var? then 1
    else if l.Var? then l.id - r.id
    else l.value - r.value
  }

  /** Equalities come before all others, then lower variables first; variables come before constants. */
  lemma CmpFirst(p: Equality, o: Equality)
    ensures p.sign && !o.sign ==> Cmp(p, o) < 0
    ensures p.sign == o.sign && p.left < o.left ==> Cmp(p, o) < 0
    ensures p.sign == o.sign && p.left == o.left ==>
      && (p.right.Var? && o.right.Const? ==> Cmp(p, o) < 0)
      && (p.right.Var? && o.right.Var? && p.right.id < o.right.id ==> Cmp(p, o) < 0)
      && (p.right.Const? && o.right.Const? && p.right.value < o.right.value ==> Cmp(p, o) < 0)
  {
  }

  lemma CmpIsOrder()
    ensures TotalOrder(Cmp)
  {
  }

  // ---------------------------------------------------------------------------
  // Closure
  // ---------------------------------------------------------------------------

  /** What is left of one atom in the light of another. */
  function CloseOver(p: Equality, o: Equality): Equality {
    if Cmp(p, o) == 0 then p
    else if p.left == o.left && o.sign then
      // x == e1 && x == e2 ==> e1 == e2, and x != e1 && x == e2 ==> e1 != e2
      CompareOperands(p.sign, p.right, o.right, p.left)
    else if p.right.Const? || !o.sign then p
    else if p.right.id == o.left then
      // x == y && y == e ==> x == e
      Equality(p.sign, p.left, o.right)
    else p
  }

  /** The atom comparing two operands, where v is used to express truth and falsehood. */
  function CompareOperands(sign: bool, l: Operand, r: Operand, v: nat): Equality {
    match (l, r)
    case (Var(x), Var(y)) => Relate(sign, x, y)
    case (Var(x), Const(_)) => Equality(sign, x, r)
    case (Const(_), Var(y)) => Equality(sign, y, l)
    case (Const(c), Const(d)) => Relate((c == d) == sign, v, v)
  }

  /** Closing over an atom which holds does not affect the meaning of another. */
  lemma CloseOverSound(p: Equality, o: Equality, env: Env)
    requires Holds(o, env)
    ensures Holds(CloseOver(p, o), env) <==> Holds(p, env)
  {
  }

  /** Replacing an atom of a conjunction by its closure over another one preserves the conjunction. */
  lemma CloseOverPreserves(atoms: seq<Equality>, i: nat, j: nat, env: Env)
    requires i < |atoms| && j < |atoms| && i != j
    ensures AllHold(atoms[i := CloseOver(atoms[i], atoms[j])], env) <==> AllHold(atoms, env)
  {
    var c := CloseOver(atoms[i], atoms[j]);
    var next := atoms[i := c];
    assert next[i] == c && next[j] == atoms[j];
    if Holds(atoms[j], env) {
      CloseOverSound(atoms[i], atoms[j], env);
      assert forall k :: 0 <= k < |atoms| && k != i ==> next[k] == atoms[k];
    } else {
      assert atoms[j] in atoms && next[j] in next;
    }
  }

  // ---------------------------------------------------------------------------
  // Termination
  // ---------------------------------------------------------------------------

  /** All variables of an atom are below n. */
  predicate Below(a: Equality, n: nat) {
    a.left < n && (a.right.Var? ==> a.right.id < n)
  }

  function Rank(e: Operand, n: nat): nat {
    if e.Var? && e.id < n then e.id else n
  }

  /** How far the left, then the right side of an atom is from the top, where constants are. */
  function Distance(a: Equality, n: nat): nat {
    if a.left < n then (n - a.left) * (n + 1) + (n - Rank(a.right, n)) else 0
  }

  function Inequality(a: Equality): nat {
    if a.sign then 0 else 1
  }

  lemma DistanceDrops(a: Equality, b: Equality, n: nat)
    requires Below(a, n) && Below(b, n)
    requires a.left < b.left || (a.left == b.left && Rank(a.right, n) < Rank(b.right, n))
    ensures Distance(b, n) < Distance(a, n)
  {
    if a.left < b.left {
      MoreRows(n - a.left, n - b.left, n + 1, n - Rank(a.right, n), n - Rank(b.right, n));
    }
  }

  lemma MoreRows(x: nat, y: nat, w: nat, r: nat, s: nat)
    requires y < x && s < w
    ensures y * w + s < x * w + r
  {
    assert x * w - y * w == (x - y) * w;
    assert (x - y - 1) * w >= 0;
  }

  /** An atom changed by closing over another is no longer an inequality, or got closer to the top. */
  lemma CloseOverProgress(p: Equality, o: Equality, n: nat)
    requires WellFormed(p) && WellFormed(o) && Below(p, n) && Below(o, n) && !Is(p, false)
    requires !Is(CloseOver(p, o), false)
    ensures var c := CloseOver(p, o);
      && WellFormed(c) && Below(c, n)
      && (c != p ==> Inequality(c) < Inequality(p) || (c.sign == p.sign && Distance(c, n) < Distance(p, n)))
  {
    var c := CloseOver(p, o);
    if c != p && c.sign == p.sign {
      DistanceDrops(p, c, n);
    }
  }

  /** Closing over another atom never makes a proper equality trivial, unless it exposes a contradiction. */
  lemma CloseOverProper(p: Equality, o: Equality)
    requires WellFormed(p) && WellFormed(o) && !Is(o, false) && !Is(p, false)
    requires !Is(CloseOver(p, o), false)
    ensures var c := CloseOver(p, o);
      && (Proper(p) && p.sign ==> Proper(c) && c.sign)
      && (Proper(p) && !p.sign ==> Proper(c) || (Proper(o) && o.sign))
  {
  }

  // ---------------------------------------------------------------------------
  // Closed conjunctions
  // ---------------------------------------------------------------------------

  /** No atom of a conjunction is affected by any other. */
  predicate Closed(atoms: seq<Equality>) {
    forall i, j :: 0 <= i < |atoms| && 0 <= j < |atoms| && i != j ==> CloseOver(atoms[i], atoms[j]) == atoms[i]
  }

  // What the equalities of a conjunction say about a variable.
  function Binding(atoms: seq<Equality>, v: nat): (r: Operand)
    ensures r == Var(v) || (Equality(true, v, r) in atoms && Proper(Equality(true, v, r)))
    ensures r == Var(v) ==> forall a :: a in atoms && a.sign && a.left == v ==> !Proper(a)
  {
    if atoms == [] then Var(v)
    else if atoms[0].sign && atoms[0].left == v && Proper(atoms[0]) then atoms[0].right
    else Binding(atoms[1..], v)
  }

  // A number above all constants of a conjunction.
  function Top(atoms: seq<Equality>): (r: nat)
    ensures forall a :: a in atoms && a.right.Const? ==> a.right.value < r
  {
    if atoms == [] then 0
    else
      var rest := Top(atoms[1..]);
      if atoms[0].right.Const? && atoms[0].right.value >= rest then atoms[0].right.value + 1 else rest
  }

  /** An assignment where every variable which is not bound has a value of its own. */
  function Solution(atoms: seq<Equality>): Env {
    (v: nat) =>
      match Binding(atoms, v)
      case Const(c) => c
      case Var(w) => Top(atoms) + w
  }

  lemma ClosedPair(atoms: seq<Equality>, a: Equality, b: Equality)
    requires Closed(atoms) && a in atoms && b in atoms
    ensures CloseOver(a, b) == a
  {
    var i :| 0 <= i < |atoms| && atoms[i] == a;
    var j :| 0 <= j < |atoms| && atoms[j] == b;
    if i == j {
      assert Cmp(a, a) == 0;
    }
  }

  // In a closed conjunction, variables which stand for others are mentioned nowhere else.
  lemma BoundOnce(atoms: seq<Equality>, a: Equality)
    requires Closed(atoms) && a in atoms && Proper(a)
    ensures Binding(atoms, a.left) == if a.sign then a.right else Var(a.left)
    ensures a.right.Var? ==> Binding(atoms, a.right.id) == a.right
  {
    var e := Binding(atoms, a.left);
    if e != Var(a.left) {
      ClosedPair(atoms, a, Equality(true, a.left, e));
    }
    if a.right.Var? {
      var f := Binding(atoms, a.right.id);
      if f != a.right {
        ClosedPair(atoms, a, Equality(true, a.right.id, f));
      }
    }
  }

  /** A closed conjunction without contradictory atoms has a solution. */
  lemma ClosedSatisfiable(atoms: seq<Equality>)
    requires Closed(atoms) && forall a :: a in atoms ==> WellFormed(a) && !Is(a, false)
    ensures AllHold(atoms, Solution(atoms))
  {
    var env := Solution(atoms);
    forall a | a in atoms ensures Holds(a, env) {
      if Proper(a) {
        BoundOnce(atoms, a);
      }
    }
  }
}
