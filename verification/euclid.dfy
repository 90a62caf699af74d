/** The GCD / modular-inverse engine (main.py:83-103): the recursive extended
    Euclidean algorithm `egcd`, the modular inverse built on it, and the
    iterative `gcd`. */
module Euclid {
  import opened Wrappers
  import opened NumberTheory

  /** The triple (g, x, y) returned by `egcd(a, b)`. */
  datatype Bezout = Bezout(g: nat, x: int, y: int)

  /** One step of Euclid's algorithm keeps the common divisors: the
      divisors shared by a and b are those shared by b % a and a. */
  lemma EuclidStepDivisors(a: nat, b: nat, c: nat)
    requires a > 0
    ensures Divides(c, a) && Divides(c, b) <==> Divides(c, b % a) && Divides(c, a)
  {
    assert b % a == b + a * -(b / a);
    assert b == b % a + a * (b / a);
    if Divides(c, a) && Divides(c, b) {
      DividesLinear(c, b, a, 1, -(b / a));
    }
    if Divides(c, b % a) && Divides(c, a) {
      DividesLinear(c, b % a, a, 1, b / a);
    }
  }

  /** The back-substitution of `egcd`: from b == a * k + r and
      r * x + a * y == g follows a * (y - k * x) + b * x == g. */
  lemma BezoutStep(a: int, b: int, k: int, r: int, x: int, y: int, g: int)
    requires b == a * k + r
    requires r * x + a * y == g
    ensures a * (y - k * x) + b * x == g
  {
    calc {
      a * (y - k * x) + b * x;
      a * y - (a * k) * x + (a * k + r) * x;
      r * x + a * y;
    }
  }

  /** The extended Euclidean algorithm `egcd` (main.py:86-91).  It recurses on
      (b % a, a), which terminates because b % a < a. */
  function Egcd(a: nat, b: nat): (r: Bezout)
    decreases a
    ensures a * r.x + b * r.y == r.g
    ensures IsGcd(r.g, a, b)
  {
    if a == 0 then
      GcdZero(b);
      Bezout(b, 0, 1)
    else
      var sub := Egcd(b % a, a);
      BezoutStep(a, b, b / a, b % a, sub.x, sub.y, sub.g);
      forall c: nat | Divides(c, a) && Divides(c, b)
        ensures Divides(c, sub.g)
      {
        EuclidStepDivisors(a, b, c);
      }
      EuclidStepDivisors(a, b, sub.g);
      Bezout(sub.g, sub.y - (b / a) * sub.x, sub.x)
  }

  /** `modInverse(e, phi)` (main.py:85-97).  Python returns `None` when
      `egcd` reports a gcd other than 1; when the gcd is 1 it returns
      `x % phi`, which raises ZeroDivisionError if phi == 0 (that is, for
      e == 1, phi == 0). */
  function ModInverse(e: nat, phi: nat): (r: Result<Option<nat>, ArithError>)
    ensures r.Failure? <==> e == 1 && phi == 0
    ensures r.Success? ==> (r.value.Some? <==> Coprime(e, phi))
    ensures r.Success? && r.value.Some? ==>
              r.value.value < phi && (e * r.value.value) % phi == 1 % phi
  {
    var b := Egcd(e, phi);
    if b.g != 1 then
      assert !Coprime(e, phi) by {
        if Coprime(e, phi) {
          GcdUnique(1, b.g, e, phi);
        }
      }
      Success(None)
    else if phi == 0 then
      assert e == 1 by {
        DividesAntisym(e, 1);
      }
      Failure(ZeroDivision)
    else
      InverseFromBezout(e, phi, b.x, b.y);
      Success(Some(b.x % phi))
  }

  /** From e*x + phi*y == 1 the normalised x % phi is an inverse of e. */
  lemma InverseFromBezout(e: nat, phi: nat, x: int, y: int)
    requires phi > 0
    requires e * x + phi * y == 1
    ensures (e * (x % phi)) % phi == 1 % phi
  {
    calc {
      (e * (x % phi)) % phi;
      { MulMod(e, x % phi, phi); ModSmall(x % phi, phi); }
      ((e % phi) * (x % phi)) % phi;
      { MulMod(e, x, phi); }
      (e * x) % phi;
      { ModAddMultiple(e * x, y, phi); }
      (phi * y + e * x) % phi;
    }
  }

  /** The iterative `gcd(a, b)` (main.py:100-103).  Each step keeps the set
      of common divisors unchanged. */
  method Gcd(a: nat, b: nat) returns (g: nat)
    ensures IsGcd(g, a, b)
    ensures g == Egcd(a, b).g
    ensures b == 0 ==> g == a
  {
    var x, y := a, b;
    while y != 0
      invariant forall c: nat :: Divides(c, x) && Divides(c, y) <==> Divides(c, a) && Divides(c, b)
      invariant b == 0 ==> x == a && y == 0
      decreases y
    {
      forall c: nat
        ensures Divides(c, y) && Divides(c, x % y) <==> Divides(c, x) && Divides(c, y)
      {
        EuclidStepDivisors(y, x, c);
      }
      x, y := y, x % y;
    }
    g := x;
    DividesRefl(g);
    DividesZero(g);
    GcdUnique(g, Egcd(a, b).g, a, b);
  }
}
