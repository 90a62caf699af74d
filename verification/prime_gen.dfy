/** Prime candidate generation (main.py:9-36, 61-68): the range of
    `rBitRandom`, the small-prime sieve of `getLowLevelPrime`, and one round
    of the accept/reject loop of `generatePrimes`.  The random draws are
    parameters: `pc` is the value `rBitRandom` returned and `witnesses` are
    the bases the Miller-Rabin trials drew. */
module PrimeGen {
  import opened Wrappers
  import opened NumberTheory
  import MillerRabin

  /** A value the small-prime table may hold: between 2 and 349, and no
      proper multiple of a prime below 19.  (As 19 * 19 > 349 this makes it
      a prime, but the model does not need that.) */
  type SmallPrime = d: nat | 2 <= d <= 349 && NoFactorBelow19(d) witness 2

  predicate NoFactorBelow19(d: nat) {
    && (d == 2 || d % 2 != 0) && (d == 3 || d % 3 != 0) && (d == 5 || d % 5 != 0)
    && (d == 7 || d % 7 != 0) && (d == 11 || d % 11 != 0) && (d == 13 || d % 13 != 0)
    && (d == 17 || d % 17 != 0)
  }

  /** The pre-generated small primes of main.py:9-17, in order.  (Written
      as two displays only so that the verifier can index into the table.) */
  const FirstPrimes: seq<SmallPrime> := [
    2, 3, 5, 7, 11, 13, 17, 19, 23, 29,
    31, 37, 41, 43, 47, 53, 59, 61, 67] + [
    71, 73, 79, 83, 89, 97, 101, 103,
    107, 109, 113, 127, 131, 137, 139,
    149, 151, 157, 163, 167, 173, 179,
    181, 191, 193, 197, 199, 211, 223,
    227, 229, 233, 239, 241, 251, 257,
    263, 269, 271, 277, 281, 283, 293,
    307, 311, 313, 317, 331, 337, 347, 349]

  /** The number of Miller-Rabin trials `generatePrimes` asks for. */
  const DefaultTrials: nat := 20

  /** pc is a value `rBitRandom(r)` can return:
      `random.randrange(2**(r-1) + 1, 2**r - 1)` includes its lower bound and
      excludes its upper bound.  For r == 0 Python's `2**(r-1)` is a float and
      randrange raises, so r >= 1. */
  predicate InRBitRange(r: nat, pc: nat) {
    r >= 1 && Pow(2, r - 1) + 1 <= pc < Pow(2, r) - 1
  }

  /** pc is thrown away by the sieve because of the listed prime d. */
  predicate RejectedBy(pc: nat, d: nat) {
    d > 0 && pc % d == 0 && d * d <= pc
  }

  /** pc survives the sieve: no listed prime rejects it. */
  predicate PassesSieve(pc: nat) {
    forall i :: 0 <= i < |FirstPrimes| ==> !RejectedBy(pc, FirstPrimes[i])
  }

  lemma {:induction false} PowTwoGrows(k: nat)
    ensures Pow(2, k) >= k + 1
    ensures k >= 2 ==> Pow(2, k) >= 4
    decreases k
  {
    if k > 0 {
      PowTwoGrows(k - 1);
      if k >= 2 {
        assert Pow(2, k) == 2 * Pow(2, k - 1);
      }
    }
  }

  /** `randrange` raises on an empty range: `rBitRandom(r)` returns only for
      r >= 3, and then every value is at least 5 and has exactly r bits. */
  lemma RBitRangeBounds(r: nat, pc: nat)
    requires InRBitRange(r, pc)
    ensures r >= 3 && pc >= 5
    ensures Pow(2, r - 1) < pc < Pow(2, r)
  {
    assert Pow(2, r) == 2 * Pow(2, r - 1);
    PowTwoGrows(r - 1);
  }

  lemma RBitRangeNonEmpty(r: nat)
    requires r >= 1
    ensures (exists pc :: InRBitRange(r, pc)) <==> r >= 3
  {
    if r >= 3 {
      assert Pow(2, r) == 2 * Pow(2, r - 1);
      PowTwoGrows(r - 1);
      assert InRBitRange(r, Pow(2, r - 1) + 1);
    }
    if exists pc :: InRBitRange(r, pc) {
      var pc :| InRBitRange(r, pc);
      RBitRangeBounds(r, pc);
    }
  }

  /** The sieve only throws away composites: a rejecting d in the list is a
      proper divisor of pc. */
  lemma RejectedIsComposite(pc: nat, d: nat)
    requires RejectedBy(pc, d) && d >= 2
    ensures !IsPrime(pc)
  {
    assert Divides(d, pc);
    assert d * d >= 2 * d;
  }

  /** The `for ... else` scan of main.py:32-36 over the listed primes; the
      divisibility-and-square test it applies to each one is RejectedBy. */
  method SieveAccepts(pc: nat) returns (accepted: bool)
    ensures accepted <==> PassesSieve(pc)
    ensures IsPrime(pc) ==> accepted
  {
    var table := FirstPrimes;
    for i := 0 to |table|
      invariant forall k :: 0 <= k < i ==> !RejectedBy(pc, table[k])
    {
      var divisor := table[i];
      if RejectedBy(pc, divisor) {
        RejectedIsComposite(pc, divisor);
        return false;
      }
    }
    return true;
  }

  /** One draw of `getLowLevelPrime(r)` (main.py:26-36): the candidate is
      returned when it survives the sieve; None means the source draws again. */
  method LowLevelPrimeAttempt(r: nat, pc: nat) returns (c: Option<nat>)
    requires InRBitRange(r, pc)
    ensures c.Some? <==> PassesSieve(pc)
    ensures c.Some? ==> c.value == pc && c.value % 2 == 1
    ensures c.Some? ==> Pow(2, r - 1) < c.value < Pow(2, r)
    ensures IsPrime(pc) ==> c == Some(pc)
  {
    RBitRangeBounds(r, pc);
    var accepted := SieveAccepts(pc);
    if accepted {
      assert FirstPrimes[0] == 2 && !RejectedBy(pc, FirstPrimes[0]);
      c := Some(pc);
    } else {
      c := None;
    }
  }

  /** One round of `generatePrimes` (main.py:61-68) for a candidate of r
      bits: the sieve, then `isMillerRabinPassed` with its default 20 trials.
      None means the source starts another round. */
  method GeneratePrimeAttempt(r: nat, pc: nat, witnesses: seq<nat>) returns (c: Option<nat>)
    requires InRBitRange(r, pc)
    requires |witnesses| == DefaultTrials
    requires forall i :: 0 <= i < |witnesses| ==> 2 <= witnesses[i] <= pc - 2
    ensures c.Some? <==>
              PassesSieve(pc) &&
              forall i :: 0 <= i < |witnesses| ==> MillerRabin.StrongProbablePrime(pc, witnesses[i])
    ensures c.Some? ==> c.value == pc && c.value % 2 == 1
    ensures c.Some? ==> Pow(2, r - 1) < c.value < Pow(2, r)
    ensures IsPrime(pc) ==> c == Some(pc)
  {
    RBitRangeBounds(r, pc);
    var candidate := LowLevelPrimeAttempt(r, pc);
    if candidate.None? {
      return None;
    }
    var passed := MillerRabin.IsMillerRabinPassed(pc, witnesses);
    if passed {
      c := Some(pc);
    } else {
      c := None;
    }
  }

  /** No entry of the table rejects another: a listed d with d * d <= p is
      below 19, hence one of 2, 3, ..., 17, and p is not its multiple. */
  lemma ListedNotRejected(p: SmallPrime, d: SmallPrime)
    ensures !RejectedBy(p, d)
  {
    assert d * d >= 2 * d;
    if d * d <= p {
      assert d <= 18 by {
        SquareGrows(d);
      }
      assert NoFactorBelow19(d) && NoFactorBelow19(p);
      if d % 2 == 0 {
        assert d == 2;
      } else if d % 3 == 0 {
        assert d == 3;
      } else {
        assert d == 5 || d == 7 || d == 11 || d == 13 || d == 17;
      }
    }
  }

  lemma SquareGrows(d: nat)
    ensures d >= 19 ==> d * d >= 19 * d
  {
  }

  /** Every listed prime survives the sieve, so the sieve never throws away
      one of its own small primes. */
  lemma FirstPrimesPassSieve()
    ensures forall i :: 0 <= i < |FirstPrimes| ==> PassesSieve(FirstPrimes[i])
  {
    forall i, j | 0 <= i < |FirstPrimes| && 0 <= j < |FirstPrimes|
      ensures !RejectedBy(FirstPrimes[i], FirstPrimes[j])
    {
      ListedNotRejected(FirstPrimes[i], FirstPrimes[j]);
    }
  }
}
