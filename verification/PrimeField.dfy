// Arithmetic modulo a prime: the field over which every term is evaluated.

/** Congruence modulo a positive number, and powers of two. */
module Congruence {

  /** Whether a and b leave the same remainder, i.e. denote the same field element. */
  ghost predicate Same(m: nat, a: int, b: int)
    requires m > 0
  {
    a % m == b % m
  }

  // The only multiple of m strictly between -m and m is 0.
  lemma NoSmallMultiple(m: int, d: int)
    requires m > 0 && -m < d * m < m
    ensures d == 0
  {
    if d > 0 {
      MultipleIsLarge(m, d);
    } else if d < 0 {
      assert (-d) * m == -(d * m);
      MultipleIsLarge(m, -d);
    }
  }

  lemma MultipleIsLarge(m: int, d: int)
    requires m > 0 && d > 0
    ensures d * m >= m
  {
    if d > 1 {
      assert d * m == (d - 1) * m + m;
      MultipleIsLarge(m, d - 1);
    }
  }

  // A remainder is determined by its defining equation.
  lemma RemainderUnique(m: nat, x: int, q: int, r: int)
    requires 0 <= r < m && x == q * m + r
    ensures x % m == r && x / m == q
  {
    assert (q - x / m) * m == x % m - r by {
      assert x == (x / m) * m + x % m;
      assert (q - x / m) * m == q * m - (x / m) * m;
    }
    NoSmallMultiple(m, q - x / m);
  }

  lemma SameShift(m: nat, x: int, q: int)
    requires m > 0
    ensures Same(m, x + q * m, x)
  {
    assert x + q * m == (x / m + q) * m + x % m by {
      assert x == (x / m) * m + x % m;
      assert (x / m + q) * m == (x / m) * m + q * m;
    }
    RemainderUnique(m, x + q * m, x / m + q, x % m);
  }

  /** Congruence in the form it is most often used: a difference by a multiple. */
  lemma SameDifference(m: nat, a: int, b: int) returns (q: int)
    requires m > 0 && Same(m, a, b)
    ensures a == b + q * m
  {
    q := a / m - b / m;
    assert a == (a / m) * m + a % m && b == (b / m) * m + b % m;
    assert q * m == (a / m) * m - (b / m) * m;
  }

  lemma SameMod(m: nat, a: int)
    requires m > 0
    ensures Same(m, a % m, a)
  {
    RemainderUnique(m, a % m, 0, a % m);
  }

  lemma SameAdd(m: nat, a: int, b: int, c: int, d: int)
    requires m > 0 && Same(m, a, b) && Same(m, c, d)
    ensures Same(m, a + c, b + d)
  {
    var q := SameDifference(m, a, b);
    var r := SameDifference(m, c, d);
    assert a + c == (b + d) + (q + r) * m by {
      assert (q + r) * m == q * m + r * m;
    }
    SameShift(m, b + d, q + r);
  }

  lemma SameSub(m: nat, a: int, b: int, c: int, d: int)
    requires m > 0 && Same(m, a, b) && Same(m, c, d)
    ensures Same(m, a - c, b - d)
  {
    var q := SameDifference(m, a, b);
    var r := SameDifference(m, c, d);
    assert a - c == (b - d) + (q - r) * m by {
      assert (q - r) * m == q * m - r * m;
    }
    SameShift(m, b - d, q - r);
  }

  lemma ProductOfShifts(m: int, b: int, d: int, q: int, r: int)
    ensures (b + q * m) * (d + r * m) == b * d + (b * r + q * d + q * r * m) * m
  {
  }

  lemma SameMul(m: nat, a: int, b: int, c: int, d: int)
    requires m > 0 && Same(m, a, b) && Same(m, c, d)
    ensures Same(m, a * c, b * d)
  {
    var q := SameDifference(m, a, b);
    var r := SameDifference(m, c, d);
    SameProductOfShifts(m, b, d, q, r);
  }

  lemma SameProductOfShifts(m: nat, b: int, d: int, q: int, r: int)
    requires m > 0
    ensures Same(m, (b + q * m) * (d + r * m), b * d)
  {
    ProductOfShifts(m, b, d, q, r);
    SameShift(m, b * d, b * r + q * d + q * r * m);
  }

  // Subtraction only vanishes between equal remainders.
  lemma SameIffDifferenceVanishes(m: nat, a: int, b: int)
    requires m > 0
    ensures Same(m, a, b) <==> (a - b) % m == 0
  {
    if Same(m, a, b) {
      SameSub(m, a, b, b, b);
    }
    if (a - b) % m == 0 {
      SameAdd(m, a - b, 0, b, b);
    }
  }

  lemma MulAssociates(a: int, b: int, c: int)
    ensures a * (b * c) == (a * b) * c
  {
  }

  lemma SmallModulus(m: nat, a: int)
    requires 0 <= a < m
    ensures a % m == a
  {
    RemainderUnique(m, a, 0, a);
  }

  /** 2^n */
  function Pow2(n: nat): (r: nat)
    ensures r > 0
  {
    if n == 0 then 1 else 2 * Pow2(n - 1)
  }
}

/** The prime field itself. */
module PrimeField {
  import opened Congruence

  predicate IsPrime(p: int) {
    p >= 2 && forall d :: 2 <= d < p ==> p % d != 0
  }

  type Prime = p: nat | p >= 2 && IsPrime(p) witness 2

  /** Canonical representatives of the field modulo p. */
  predicate IsElement(p: Prime, x: int) {
    0 <= x < p
  }

  function FAdd(p: Prime, a: int, b: int): (r: nat)
    ensures IsElement(p, r)
  {
    (a + b) % p
  }

  function FSub(p: Prime, a: int, b: int): (r: nat)
    ensures IsElement(p, r)
  {
    (a - b) % p
  }

  function FMul(p: Prime, a: int, b: int): (r: nat)
    ensures IsElement(p, r)
  {
    (a * b) % p
  }

  /** Coefficients with a*x + b*y = gcd(a, b), the latter dividing both. */
  function Bezout(a: nat, b: nat): (r: (int, int, nat))
    ensures r.0 * a + r.1 * b == r.2
    ensures a > 0 || b > 0 ==> r.2 > 0 && a % r.2 == 0 && b % r.2 == 0
    decreases b
  {
    if b == 0 then (1, 0, a)
    else
      var (x, y, g) := Bezout(b, a % b);
      BezoutStep(a, b, x, y, g);
      (y, x - (a / b) * y, g)
  }

  lemma BezoutStep(a: nat, b: nat, x: int, y: int, g: nat)
    requires b > 0 && g > 0 && x * b + y * (a % b) == g
    requires b % g == 0 && (a % b) % g == 0
    ensures y * a + (x - (a / b) * y) * b == g
    ensures a % g == 0
  {
    var q := a / b;
    assert a == q * b + a % b;
    calc {
      y * a + (x - q * y) * b;
      y * (q * b + a % b) + x * b - (q * y) * b;
      { assert y * (q * b + a % b) == (q * y) * b + y * (a % b); }
      x * b + y * (a % b);
      g;
    }
    SameMul(g, q, q, b, 0);
    assert q * 0 == 0;
    SameAdd(g, q * b, 0, a % b, 0);
  }

  /** The multiplicative inverse of a, or 0 when a is 0. */
  function Inverse(p: Prime, a: int): (x: nat)
    ensures IsElement(p, x)
    ensures a % p == 0 ==> x == 0
    ensures a % p != 0 ==> FMul(p, a, x) == 1
  {
    if a % p == 0 then 0
    else
      BezoutInverts(p, a);
      Bezout(a % p, p).0 % p
  }

  lemma BezoutInverts(p: Prime, a: int)
    requires a % p != 0
    ensures FMul(p, a, Bezout(a % p, p).0 % p) == 1
  {
    var r := a % p;
    var (u, v, g) := Bezout(r, p);
    assert g == 1 by {
      assert p % g == 0 && r % g == 0 && IsPrime(p);
      if g > p {
        SmallModulus(g, p);
      } else if g == p {
        SmallModulus(p, r);
      }
    }
    SameMod(p, u);
    SameMod(p, a);
    SameMul(p, a, r, u % p, u);
    assert r * u == 1 + (-v) * p by {
      assert (-v) * p == -(v * p);
    }
    SameShift(p, 1, -v);
    SmallModulus(p, 1);
  }

  /** Euclid's lemma: the field has no zero divisors. */
  lemma NoZeroDivisors(p: Prime, a: int, b: int)
    ensures (a * b) % p == 0 <==> a % p == 0 || b % p == 0
  {
    if a % p == 0 {
      SameMul(p, a, 0, b, b);
    }
    if b % p == 0 {
      SameMul(p, a, a, b, 0);
      assert a * 0 == 0;
    }
    if (a * b) % p == 0 && a % p != 0 {
      var x := Inverse(p, a);
      calc {
        b % p;
        { SmallModulus(p, 1); SameMul(p, a * x, 1, b, b); }
        ((a * x) * b) % p;
        { assert (a * x) * b == (a * b) * x; }
        ((a * b) * x) % p;
        { SameMul(p, a * b, 0, x, x); }
        0 % p;
      }
    }
  }

  /** Inverses are unique, so Inverse is the only function with its contract. */
  lemma InverseUnique(p: Prime, a: int, x: int)
    requires IsElement(p, x)
    requires if a % p == 0 then x == 0 else FMul(p, a, x) == 1
    ensures x == Inverse(p, a)
  {
    var y := Inverse(p, a);
    if a % p != 0 {
      assert (a * (x - y)) % p == 0 by {
        assert a * (x - y) == a * x - a * y;
        SameIffDifferenceVanishes(p, a * x, a * y);
      }
      NoZeroDivisors(p, a, x - y);
      SameIffDifferenceVanishes(p, x, y);
      SmallModulus(p, x);
      SmallModulus(p, y);
    }
  }
}
