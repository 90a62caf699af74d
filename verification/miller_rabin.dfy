/** The Miller-Rabin test `isMillerRabinPassed` (main.py:38-58), the
    probabilistic primality test of FIPS 186-4 Appendix C.3.1.  The random
    bases the source draws with `random.randrange(2, mrc - 1)` are passed in
    as a sequence, one base per trial. */
module MillerRabin {
  import opened NumberTheory
  import Primes

  /** The number of times 2 divides n. */
  ghost function TwoAdicValuation(n: nat): nat
    requires n > 0
    decreases n
  {
    if n % 2 == 1 then 0 else 1 + TwoAdicValuation(n / 2)
  }

  /** n with every factor 2 removed. */
  ghost function OddPart(n: nat): nat
    requires n > 0
    decreases n
  {
    if n % 2 == 1 then n else OddPart(n / 2)
  }

  lemma {:induction false} OddPartDecomposes(n: nat)
    requires n > 0
    ensures n == Pow(2, TwoAdicValuation(n)) * OddPart(n)
    ensures OddPart(n) % 2 == 1
    decreases n
  {
    if n % 2 == 0 {
      OddPartDecomposes(n / 2);
      var s := TwoAdicValuation(n / 2);
      assert Pow(2, s + 1) == 2 * Pow(2, s);
      assert n == 2 * (Pow(2, s) * OddPart(n / 2));
    }
  }

  /** Writing a positive number as 2^s * d with d odd can be done in one
      way only: s and d are its 2-adic valuation and odd part. */
  lemma {:induction false} DecompositionUnique(n: nat, s: nat, d: nat)
    requires n == Pow(2, s) * d && d % 2 == 1
    ensures n > 0 && s == TwoAdicValuation(n) && d == OddPart(n)
    decreases s
  {
    if s == 0 {
      assert n == d;
    } else {
      PowTwoStep(s, d);
      var half := Pow(2, s - 1) * d;
      assert n == 2 * half;
      DecompositionUnique(half, s - 1, d);
      assert n / 2 == half;
    }
  }

  lemma PowTwoStep(s: nat, d: nat)
    requires s > 0
    ensures Pow(2, s) * d == 2 * (Pow(2, s - 1) * d)
  {
    assert Pow(2, s) == 2 * Pow(2, s - 1);
  }

  /** The j-th value of a trial's square chain: a^(2^j * ec) mod n. */
  function SquareChain(a: nat, ec: nat, j: nat, n: nat): nat
    requires n > 0
  {
    Pow(a, Pow(2, j) * ec) % n
  }

  lemma SquareChainStep(a: nat, ec: nat, j: nat, n: nat)
    requires n > 0
    ensures SquareChain(a, ec, j + 1, n)
         == (SquareChain(a, ec, j, n) * SquareChain(a, ec, j, n)) % n
  {
    var k := Pow(2, j) * ec;
    assert Pow(2, j + 1) * ec == k + k;
    PowAdd(a, k, k);
    MulMod(Pow(a, k), Pow(a, k), n);
  }

  /** A trial with base a, for n - 1 == 2^s * ec, passes when a^ec mod n is
      1 or n - 1, or one of the next s - 1 squarings reaches n - 1. */
  ghost predicate PassesWith(n: nat, s: nat, ec: nat, a: nat)
    requires n > 0
  {
    || SquareChain(a, ec, 0, n) == 1
    || SquareChain(a, ec, 0, n) == n - 1
    || exists j :: 1 <= j < s && SquareChain(a, ec, j, n) == n - 1
  }

  /** n is a strong probable prime to base a (for the decomposition of n - 1). */
  ghost predicate StrongProbablePrime(n: nat, a: nat)
    requires n >= 2
  {
    PassesWith(n, TwoAdicValuation(n - 1), OddPart(n - 1), a)
  }

  /** The halving loop of main.py:39-44: strips the factors 2 from n,
      counting them. */
  method HalveToOdd(n: nat) returns (s: nat, ec: nat)
    requires n > 0
    ensures n == Pow(2, s) * ec && ec % 2 == 1
    ensures s == TwoAdicValuation(n) && ec == OddPart(n)
  {
    ec, s := n, 0;
    while ec % 2 == 0
      invariant ec > 0
      invariant n == Pow(2, s) * ec
      decreases ec
    {
      assert Pow(2, s) * ec == Pow(2, s + 1) * (ec / 2) by {
        assert Pow(2, s + 1) == 2 * Pow(2, s);
        assert ec == 2 * (ec / 2);
      }
      ec := ec / 2;
      s := s + 1;
    }
    OddPartDecomposes(n);
    DecompositionUnique(n, s, ec);
  }

  /** One trial of main.py:47-57 with base a: `x = pow(a, ec, mrc)` and up
      to s - 1 squarings.  Returns false exactly when the source returns
      False for this base. */
  method WitnessTrial(mrc: nat, s: nat, ec: nat, a: nat) returns (passed: bool)
    requires mrc >= 2
    ensures passed <==> PassesWith(mrc, s, ec, a)
  {
    var x := Pow(a, ec) % mrc;
    assert x == SquareChain(a, ec, 0, mrc);
    if x == 1 || x == mrc - 1 {
      return true;
    }
    var j := 1;
    while j < s
      invariant 1 <= j && (j <= s || j == 1)
      invariant x == SquareChain(a, ec, j - 1, mrc)
      invariant forall i :: 1 <= i < j ==> SquareChain(a, ec, i, mrc) != mrc - 1
      decreases s - j
    {
      SquareChainStep(a, ec, j - 1, mrc);
      x := (x * x) % mrc;
      if x == mrc - 1 {
        return true;
      }
      j := j + 1;
    }
    return false;
  }

  /** `isMillerRabinPassed(mrc, trials)` (main.py:38-58) with the bases of
      the trials given: true exactly when mrc is a strong probable prime to
      every base.  A prime is never rejected, so False means composite. */
  method IsMillerRabinPassed(mrc: nat, witnesses: seq<nat>) returns (passed: bool)
    requires mrc >= 2
    requires forall i :: 0 <= i < |witnesses| ==> 2 <= witnesses[i] <= mrc - 2
    ensures passed <==> forall i :: 0 <= i < |witnesses| ==> StrongProbablePrime(mrc, witnesses[i])
    ensures IsPrime(mrc) ==> passed
  {
    var s, ec := HalveToOdd(mrc - 1);
    for i := 0 to |witnesses|
      invariant forall k :: 0 <= k < i ==> StrongProbablePrime(mrc, witnesses[k])
    {
      var ok := WitnessTrial(mrc, s, ec, witnesses[i]);
      if !ok {
        PrimePassesEveryWitness(mrc, witnesses[i]);
        return false;
      }
    }
    return true;
  }

  // ---------------------------------------------------------------------------
  // Soundness: a prime passes every trial

  /** Walking down a square chain that ends at 1 modulo a prime: either the
      chain starts at 1, or some earlier element is p - 1. */
  lemma {:induction false} ChainReachesMinusOne(p: nat, a: nat, ec: nat, j: nat)
    requires IsPrime(p)
    requires SquareChain(a, ec, j, p) == 1
    ensures || SquareChain(a, ec, 0, p) == 1
            || exists i :: 0 <= i < j && SquareChain(a, ec, i, p) == p - 1
    decreases j
  {
    if j > 0 {
      var x := SquareChain(a, ec, j - 1, p);
      SquareChainStep(a, ec, j - 1, p);
      assert Divides(p, x * x - 1) by {
        ModSmall(1, p);
        CongruenceMod(x * x, 1, p);
      }
      Primes.SquareRootOfOne(p, x);
      if x == 1 {
        ChainReachesMinusOne(p, a, ec, j - 1);
      }
    }
  }

  /** Every base in [2, p - 2] is passed by a prime p. */
  lemma PrimePassesEveryWitness(p: nat, a: nat)
    requires 2 <= a <= p - 2
    ensures IsPrime(p) ==> StrongProbablePrime(p, a)
  {
    if IsPrime(p) {
      var s, ec := TwoAdicValuation(p - 1), OddPart(p - 1);
      OddPartDecomposes(p - 1);
      assert p % 2 == 1 by {
        assert !Divides(2, p);
      }
      assert s > 0;
      Primes.PrimeNotDividesSmaller(p, a);
      Primes.FermatLittle(a, p);
      assert SquareChain(a, ec, s, p) == 1 by {
        ModSmall(1, p);
        CongruenceMod(Pow(a, p - 1), 1, p);
      }
      ChainReachesMinusOne(p, a, ec, s);
    }
  }
}
