/** Integer arithmetic vocabulary shared by the whole model: powers,
    divisibility, greatest common divisors, primality, and the modular
    arithmetic facts the algorithms rely on.  Python integers are unbounded,
    so everything here is stated over Dafny's `int` and `nat`. */
module NumberTheory {

  /** The exception Python raises for `x % 0` and `x // 0`. */
  datatype ArithError = ZeroDivision

  /** b raised to the e-th power (with Pow(0, 0) == 1, as in Python). */
  function Pow(b: nat, e: nat): nat
    decreases e
  {
    if e == 0 then 1 else b * Pow(b, e - 1)
  }

  /** d divides n.  Every number divides 0, and 0 divides only 0. */
  predicate Divides(d: nat, n: int) {
    if d == 0 then n == 0 else n % d == 0
  }

  /** g is a greatest common divisor of a and b: a common divisor that every
      common divisor divides. */
  ghost predicate IsGcd(g: nat, a: nat, b: nat) {
    && Divides(g, a)
    && Divides(g, b)
    && forall c: nat :: Divides(c, a) && Divides(c, b) ==> Divides(c, g)
  }

  /** a and b have no common divisor other than 1. */
  ghost predicate Coprime(a: nat, b: nat) {
    IsGcd(1, a, b)
  }

  /** n is prime: at least 2, and divisible only by 1 and itself. */
  ghost predicate IsPrime(n: nat) {
    n >= 2 && forall d: nat :: Divides(d, n) ==> d == 1 || d == n
  }

  // ---------------------------------------------------------------------------
  // Powers

  lemma {:induction false} PowAdd(b: nat, m: nat, n: nat)
    ensures Pow(b, m + n) == Pow(b, m) * Pow(b, n)
    decreases m
  {
    if m > 0 {
      PowAdd(b, m - 1, n);
      assert Pow(b, m + n) == b * Pow(b, m - 1 + n);
      assert b * (Pow(b, m - 1) * Pow(b, n)) == (b * Pow(b, m - 1)) * Pow(b, n);
    }
  }

  lemma {:induction false} PowMul(b: nat, m: nat, n: nat)
    ensures Pow(b, m * n) == Pow(Pow(b, m), n)
    decreases n
  {
    if n > 0 {
      PowMul(b, m, n - 1);
      assert m * n == m * (n - 1) + m;
      PowAdd(b, m * (n - 1), m);
    }
  }

  lemma {:induction false} PowZeroBase(e: nat)
    requires e > 0
    ensures Pow(0, e) == 0
  {
  }

  // ---------------------------------------------------------------------------
  // Euclidean division

  /** A multiple of m strictly between -m and m is zero. */
  lemma MultipleInRange(m: int, t: int)
    requires m > 0
    requires -m < m * t < m
    ensures t == 0
  {
    if t >= 1 {
      MulMonotone(m, 1, t);
    } else if t <= -1 {
      MulMonotone(m, t, -1);
    }
  }

  lemma MulMonotone(m: int, s: int, t: int)
    requires m > 0 && s <= t
    ensures m * s <= m * t
  {
    assert m * t - m * s == m * (t - s);
  }

  /** Division by m is unique: any representation x == m*q + r with
      0 <= r < m is the one Dafny's `/` and `%` produce. */
  lemma DivModUnique(x: int, m: int, q: int, r: int)
    requires m > 0
    requires x == m * q + r && 0 <= r < m
    ensures x / m == q && x % m == r
  {
    var q0, r0 := x / m, x % m;
    assert m * (q - q0) == r0 - r;
    MultipleInRange(m, q - q0);
  }

  lemma ModAddMultiple(x: int, k: int, m: int)
    requires m > 0
    ensures (m * k + x) % m == x % m
  {
    DivModUnique(m * k + x, m, k + x / m, x % m);
  }

  lemma ModSmall(x: int, m: int)
    requires 0 <= x < m
    ensures x % m == x
  {
    DivModUnique(x, m, 0, x);
  }

  lemma MulMod(a: int, b: int, m: int)
    requires m > 0
    ensures (a * b) % m == ((a % m) * (b % m)) % m
  {
    var qa, ra := a / m, a % m;
    var qb, rb := b / m, b % m;
    calc {
      a * b;
      (m * qa + ra) * (m * qb + rb);
      m * (qa * m * qb + qa * rb + ra * qb) + ra * rb;
    }
    ModAddMultiple(ra * rb, qa * m * qb + qa * rb + ra * qb, m);
  }

  lemma {:induction false} PowMod(b: nat, e: nat, m: nat)
    requires m > 0
    ensures Pow(b % m, e) % m == Pow(b, e) % m
    decreases e
  {
    if e > 0 {
      PowMod(b, e - 1, m);
      calc {
        Pow(b % m, e) % m;
        ((b % m) * Pow(b % m, e - 1)) % m;
        { MulMod(b % m, Pow(b % m, e - 1), m); }
        (((b % m) % m) * (Pow(b % m, e - 1) % m)) % m;
        { ModSmall(b % m, m); }
        ((b % m) * (Pow(b, e - 1) % m)) % m;
        { MulMod(b, Pow(b, e - 1), m); }
        (b * Pow(b, e - 1)) % m;
      }
    }
  }

  // ---------------------------------------------------------------------------
  // Divisibility

  lemma DividesMultiple(d: nat, k: int)
    ensures Divides(d, d * k)
  {
    if d > 0 {
      ModAddMultiple(0, k, d);
    }
  }

  lemma DividesElim(d: nat, n: int) returns (k: int)
    requires Divides(d, n)
    ensures n == d * k
  {
    if d == 0 {
      k := 0;
    } else {
      k := n / d;
    }
  }

  /** Any common divisor of a and b divides every integer combination of them. */
  lemma DividesLinear(c: nat, a: int, b: int, x: int, y: int)
    requires Divides(c, a) && Divides(c, b)
    ensures Divides(c, a * x + b * y)
  {
    var i := DividesElim(c, a);
    var j := DividesElim(c, b);
    assert a * x + b * y == c * (i * x + j * y);
    DividesMultiple(c, i * x + j * y);
  }

  lemma DividesProduct(c: nat, a: int, b: int)
    requires Divides(c, a)
    ensures Divides(c, a * b)
  {
    DividesLinear(c, a, 0, b, 0);
  }

  lemma DividesSum(c: nat, a: int, b: int)
    requires Divides(c, a) && Divides(c, b)
    ensures Divides(c, a + b) && Divides(c, a - b)
  {
    DividesLinear(c, a, b, 1, 1);
    DividesLinear(c, a, b, 1, -1);
  }

  lemma DividesRefl(a: nat)
    ensures Divides(a, a)
  {
    DividesMultiple(a, 1);
  }

  lemma DividesZero(a: nat)
    ensures Divides(a, 0)
  {
    DividesMultiple(a, 0);
  }

  /** A positive number's divisors lie between 1 and itself. */
  lemma DivisorBound(c: nat, n: int)
    requires Divides(c, n) && n > 0
    ensures 1 <= c <= n
  {
    var k := DividesElim(c, n);
    if c > 0 && k <= 0 {
      MulMonotone(c, k, 0);
    }
    if c > 0 && k >= 1 {
      MulMonotone(c, 1, k);
    }
  }

  lemma DividesAntisym(a: nat, b: nat)
    requires Divides(a, b) && Divides(b, a)
    ensures a == b
  {
    if a == 0 || b == 0 {
    } else {
      DivisorBound(a, b);
      DivisorBound(b, a);
    }
  }

  /** Congruence modulo m, stated through divisibility. */
  lemma CongruenceMod(x: int, y: int, m: nat)
    requires m > 0
    ensures Divides(m, x - y) <==> x % m == y % m
  {
    if x % m == y % m {
      assert x - y == m * (x / m - y / m);
      DividesMultiple(m, x / m - y / m);
    }
    if Divides(m, x - y) {
      var k := DividesElim(m, x - y);
      ModAddMultiple(y, k, m);
      assert x == m * k + y;
    }
  }

  // ---------------------------------------------------------------------------
  // Greatest common divisors

  lemma GcdUnique(g1: nat, g2: nat, a: nat, b: nat)
    requires IsGcd(g1, a, b) && IsGcd(g2, a, b)
    ensures g1 == g2
  {
    DividesAntisym(g1, g2);
  }

  lemma GcdZero(a: nat)
    ensures IsGcd(a, a, 0) && IsGcd(a, 0, a)
  {
    DividesRefl(a);
    DividesZero(a);
  }
}
