/** Facts about primes that the correctness of RSA and of the Miller-Rabin
    test rest on: Euclid's lemma, Fermat's little theorem (proved through the
    binomial theorem), square roots of 1 modulo a prime, and the Chinese
    remainder step for two distinct primes. */
module Primes {
  import opened NumberTheory
  import Euclid

  // ---------------------------------------------------------------------------
  // Euclid's lemma

  lemma DividesNeg(p: nat, a: int)
    ensures Divides(p, a) <==> Divides(p, -a)
  {
    if Divides(p, a) {
      DividesProduct(p, a, -1);
    }
    if Divides(p, -a) {
      DividesProduct(p, -a, -1);
    }
  }

  /** A prime that divides a product divides one of its factors. */
  lemma EuclidLemma(p: nat, a: int, b: int)
    requires IsPrime(p)
    requires Divides(p, a * b)
    ensures Divides(p, a) || Divides(p, b)
  {
    if !Divides(p, a) {
      var aa: nat := if a < 0 then -a else a;
      DividesNeg(p, a);
      assert !Divides(p, aa);
      var r := Euclid.Egcd(p, aa);
      assert r.g == 1 by {
        assert Divides(r.g, p) && Divides(r.g, aa);
      }
      // b == p * (x * b) + (aa * b) * y
      assert b == p * (r.x * b) + (aa * b) * r.y by {
        assert p * r.x + aa * r.y == 1;
        assert b * (p * r.x + aa * r.y) == b;
      }
      assert Divides(p, aa * b) by {
        if a < 0 {
          assert aa * b == -(a * b);
          DividesNeg(p, a * b);
        }
      }
      DividesRefl(p);
      DividesLinear(p, p, aa * b, r.x * b, r.y);
    }
  }

  /** A prime does not divide a positive number smaller than itself. */
  lemma PrimeNotDividesSmaller(p: nat, k: int)
    requires IsPrime(p) && 0 < k < p
    ensures !Divides(p, k)
  {
    if Divides(p, k) {
      DivisorBound(p, k);
    }
  }

  /** A multiple of p strictly between -p and p is zero. */
  lemma DividesSmall(p: nat, t: int)
    requires p > 0 && Divides(p, t) && -(p as int) < t < p
    ensures t == 0
  {
    var k := DividesElim(p, t);
    MultipleInRange(p, k);
  }

  // ---------------------------------------------------------------------------
  // Binomial coefficients

  /** n choose k, by Pascal's rule. */
  function Binom(n: nat, k: nat): nat
    decreases n
  {
    if k == 0 then 1
    else if n == 0 then 0
    else Binom(n - 1, k - 1) + Binom(n - 1, k)
  }

  lemma {:induction false} BinomAbove(n: nat, k: nat)
    requires k > n
    ensures Binom(n, k) == 0
    decreases n
  {
    if n > 0 {
      BinomAbove(n - 1, k - 1);
      BinomAbove(n - 1, k);
    }
  }

  /** The absorption identity k * C(n, k) == n * C(n-1, k-1). */
  lemma {:induction false} Absorption(n: nat, k: nat)
    requires n >= 1 && k >= 1
    ensures k * Binom(n, k) == n * Binom(n - 1, k - 1)
    decreases n
  {
    if n == 1 {
      if k > 1 {
        BinomAbove(0, k - 1);
        BinomAbove(0, k);
      }
    } else if k == 1 {
      Absorption(n - 1, 1);
      assert Binom(n, 1) == Binom(n - 1, 0) + Binom(n - 1, 1);
    } else {
      Absorption(n - 1, k);
      Absorption(n - 1, k - 1);
      AbsorptionArith(n, k, Binom(n - 1, k - 1), Binom(n - 1, k),
                      Binom(n - 2, k - 2), Binom(n - 2, k - 1));
    }
  }

  /** The arithmetic of the inductive step of Absorption, over plain numbers. */
  lemma AbsorptionArith(n: int, k: int, a: int, b: int, c: int, d: int)
    requires a == c + d
    requires k * b == (n - 1) * d
    requires (k - 1) * a == (n - 1) * c
    ensures k * (a + b) == n * a
  {
    calc {
      k * (a + b);
      k * a + k * b;
      (k - 1) * a + a + (n - 1) * d;
      (n - 1) * c + (n - 1) * d + a;
      (n - 1) * (c + d) + a;
      n * a;
    }
  }

  /** A prime p divides C(p, k) for 0 < k < p. */
  lemma PrimeDividesBinom(p: nat, k: nat)
    requires IsPrime(p) && 0 < k < p
    ensures Divides(p, Binom(p, k))
  {
    Absorption(p, k);
    DividesMultiple(p, Binom(p - 1, k - 1));
    PrimeNotDividesSmaller(p, k);
    EuclidLemma(p, k, Binom(p, k));
  }

  /** The partial binomial expansion: the sum of C(n, j) * a^j for j <= k. */
  function BinomSum(a: nat, n: nat, k: nat): nat
    decreases k
  {
    Binom(n, k) * Pow(a, k) + if k == 0 then 0 else BinomSum(a, n, k - 1)
  }

  /** Pascal's rule lifted to the partial sums. */
  lemma {:induction false} BinomSumPascal(a: nat, n: nat, k: nat)
    ensures BinomSum(a, n + 1, k + 1) == BinomSum(a, n, k + 1) + a * BinomSum(a, n, k)
    decreases k
  {
    var t := Pow(a, k + 1);
    assert t == a * Pow(a, k);
    assert Binom(n + 1, k + 1) == Binom(n, k) + Binom(n, k + 1);
    if k == 0 {
      assert BinomSum(a, n + 1, 1) == Binom(n + 1, 1) * t + 1;
      assert BinomSum(a, n, 1) == Binom(n, 1) * t + 1;
      PascalArith(Binom(n, 0), Binom(n, 1), t, a, Pow(a, 0), 1, 0);
    } else {
      BinomSumPascal(a, n, k - 1);
      PascalArith(Binom(n, k), Binom(n, k + 1), t, a, Pow(a, k),
                  BinomSum(a, n, k), BinomSum(a, n, k - 1));
    }
  }

  /** The arithmetic of one step of BinomSumPascal: with s1 the sum up to k
      and s0 the sum up to k - 1 of row n,
      (b0 + b1) * a^(k+1) + s1 + a * s0 == (b1 * a^(k+1) + s1) + a * (b0 * a^k + s0). */
  lemma PascalArith(b0: int, b1: int, t: int, a: int, ak: int, s1: int, s0: int)
    requires t == a * ak
    ensures (b0 + b1) * t + s1 + a * s0 == (b1 * t + s1) + a * (b0 * ak + s0)
  {
    calc {
      (b0 + b1) * t + s1 + a * s0;
      b0 * t + b1 * t + s1 + a * s0;
      { assert b0 * t == a * (b0 * ak); }
      b1 * t + s1 + a * (b0 * ak) + a * s0;
      (b1 * t + s1) + a * (b0 * ak + s0);
    }
  }

  /** The binomial theorem for (a + 1)^n. */
  lemma {:induction false} BinomialTheorem(a: nat, n: nat)
    ensures Pow(a + 1, n) == BinomSum(a, n, n)
    decreases n
  {
    if n > 0 {
      var m := n - 1;
      BinomialTheorem(a, m);
      BinomSumPascal(a, m, m);
      BinomAbove(m, m + 1);
      assert BinomSum(a, m, m + 1) == BinomSum(a, m, m);
      calc {
        Pow(a + 1, n);
        (a + 1) * Pow(a + 1, m);
        (a + 1) * BinomSum(a, m, m);
        BinomSum(a, m, m) + a * BinomSum(a, m, m);
        BinomSum(a, n, n);
      }
    }
  }

  /** Modulo a prime p, all the middle terms of (a + 1)^p vanish. */
  lemma {:induction false} MiddleTermsVanish(a: nat, p: nat, k: nat)
    requires IsPrime(p) && k < p
    ensures Divides(p, BinomSum(a, p, k) - 1)
    decreases k
  {
    if k == 0 {
      DividesZero(p);
    } else {
      MiddleTermsVanish(a, p, k - 1);
      PrimeDividesBinom(p, k);
      DividesProduct(p, Binom(p, k), Pow(a, k));
      DividesSum(p, Binom(p, k) * Pow(a, k), BinomSum(a, p, k - 1) - 1);
    }
  }

  /** (a + 1)^p == a^p + 1 (mod p). */
  lemma FreshmanStep(a: nat, p: nat)
    requires IsPrime(p)
    ensures Divides(p, Pow(a + 1, p) - Pow(a, p) - 1)
  {
    BinomialTheorem(a, p);
    MiddleTermsVanish(a, p, p - 1);
    assert Binom(p, p) == 1 by {
      BinomChooseAll(p);
    }
  }

  lemma {:induction false} BinomChooseAll(n: nat)
    ensures Binom(n, n) == 1
    decreases n
  {
    if n > 0 {
      BinomChooseAll(n - 1);
      BinomAbove(n - 1, n);
    }
  }

  /** Fermat's little theorem, first form: a^p == a (mod p). */
  lemma {:induction false} FermatPower(a: nat, p: nat)
    requires IsPrime(p)
    ensures Divides(p, Pow(a, p) - a)
    decreases a
  {
    if a == 0 {
      PowZeroBase(p);
      DividesZero(p);
    } else {
      FermatPower(a - 1, p);
      FreshmanStep(a - 1, p);
      DividesSum(p, Pow(a, p) - Pow(a - 1, p) - 1, Pow(a - 1, p) - (a - 1));
    }
  }

  /** Fermat's little theorem: a^(p-1) == 1 (mod p) when p does not divide a. */
  lemma FermatLittle(a: nat, p: nat)
    requires IsPrime(p) && !Divides(p, a)
    ensures Divides(p, Pow(a, p - 1) - 1)
  {
    FermatPower(a, p);
    assert Pow(a, p) - a == a * (Pow(a, p - 1) - 1);
    EuclidLemma(p, a, Pow(a, p - 1) - 1);
  }

  /** If x == 1 (mod p) then so is every power of x. */
  lemma {:induction false} PowCongruentOne(x: nat, t: nat, p: nat)
    requires Divides(p, x - 1)
    ensures Divides(p, Pow(x, t) - 1)
    decreases t
  {
    if t == 0 {
      DividesZero(p);
    } else {
      PowCongruentOne(x, t - 1, p);
      assert Pow(x, t) - 1 == x * (Pow(x, t - 1) - 1) + (x - 1);
      DividesProduct(p, Pow(x, t - 1) - 1, x);
      DividesSum(p, (Pow(x, t - 1) - 1) * x, x - 1);
    }
  }

  /** The only square roots of 1 modulo a prime are 1 and p - 1. */
  lemma SquareRootOfOne(p: nat, x: nat)
    requires IsPrime(p) && x < p
    requires Divides(p, x * x - 1)
    ensures x == 1 || x == p - 1
  {
    var lo, hi: int := x - 1, x + 1;
    assert x * x - 1 == lo * hi;
    EuclidLemma(p, lo, hi);
    if Divides(p, lo) {
      DividesSmall(p, lo);
    } else {
      DividesRefl(p);
      DividesSum(p, hi, p);
      DividesSmall(p, hi - p);
    }
  }

  /** Two distinct primes that both divide z divide it together. */
  lemma ProductOfPrimesDivides(p: nat, q: nat, z: int)
    requires IsPrime(p) && IsPrime(q) && p != q
    requires Divides(p, z) && Divides(q, z)
    ensures Divides(p * q, z)
  {
    var t := DividesElim(p, z);
    EuclidLemma(q, p, t);
    if Divides(q, p) {
      assert false;
    }
    var u := DividesElim(q, t);
    assert z == (p * q) * u;
    DividesMultiple(p * q, u);
  }
}
