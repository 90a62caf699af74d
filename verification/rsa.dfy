/** Key derivation (the arithmetic of `generateKeys`, main.py:117-139) and the
    encrypt-then-decrypt round trip of main.py:153-164, together with the
    theorem that makes it work: for distinct primes p, q and e * d == 1 modulo
    (p - 1)(q - 1), decryption undoes encryption for every m < p * q. */
module Rsa {
  import opened Wrappers
  import opened NumberTheory
  import Euclid
  import Primes
  import ModExp

  /** The public exponent tried first. */
  const PreferredExponent: nat := 65537

  /** The triple `generateKeys` returns: public exponent e, private exponent
      d (None when `modInverse` found no inverse) and modulus n. */
  datatype KeyPair = KeyPair(e: nat, d: Option<nat>, n: nat)

  /** The errors the round trip of main.py:153-164 can raise: the ValueError
      for a message that does not fit the modulus, and the TypeError that
      `power` raises when the private exponent is None. */
  datatype RoundTripError = MessageTooLarge | NoPrivateExponent

  /** (p - 1)(q - 1), Euler's totient of p * q when p and q are distinct primes. */
  function Totient(p: nat, q: nat): nat
    requires p >= 1 && q >= 1
  {
    (p - 1) * (q - 1)
  }

  // ---------------------------------------------------------------------------
  // Choosing e

  /** No odd candidate in [3, bound) is coprime to phi. */
  ghost predicate NoOddCoprimeBelow(bound: nat, phi: nat) {
    forall c :: 3 <= c < bound && c % 2 == 1 ==> !Coprime(c, phi)
  }

  lemma NoOddCoprimeStep(candidate: nat, phi: nat)
    requires candidate % 2 == 1
    requires NoOddCoprimeBelow(candidate, phi) && !Coprime(candidate, phi)
    ensures NoOddCoprimeBelow(candidate + 2, phi)
  {
  }

  /** The fallback scan of main.py:131-134: the first odd candidate in
      [3, phi) coprime to phi, or None when there is none. */
  method FirstCoprimeOdd(phi: nat) returns (e: Option<nat>)
    ensures e.Some? ==> 3 <= e.value < phi && e.value % 2 == 1 && Coprime(e.value, phi)
    ensures e.Some? ==> NoOddCoprimeBelow(e.value, phi)
    ensures e.None? ==> NoOddCoprimeBelow(phi, phi)
  {
    var candidate := 3;
    while candidate < phi
      invariant candidate >= 3 && candidate % 2 == 1
      invariant NoOddCoprimeBelow(candidate, phi)
      decreases phi - candidate
    {
      var g := Euclid.Gcd(candidate, phi);
      GcdOneIffCoprime(g, candidate, phi);
      if g == 1 {
        return Some(candidate);
      }
      NoOddCoprimeStep(candidate, phi);
      candidate := candidate + 2;
    }
    return None;
  }

  /** A gcd of 1 is what makes a and b coprime. */
  lemma GcdOneIffCoprime(g: nat, a: nat, b: nat)
    requires IsGcd(g, a, b)
    ensures g == 1 <==> Coprime(a, b)
  {
    if Coprime(a, b) {
      GcdUnique(g, 1, a, b);
    }
  }

  /** Every common divisor of a and b that divides 1 makes them coprime. */
  lemma CoprimeIfDivisorsDivideOne(a: nat, b: nat)
    requires forall c: nat :: Divides(c, a) && Divides(c, b) ==> Divides(c, 1)
    ensures Coprime(a, b)
  {
    assert Divides(1, a) && Divides(1, b);
  }

  /** The fallback scan cannot come back empty once phi >= 4: phi - 1 (for
      even phi) or phi - 2 (for odd phi) is an odd candidate coprime to phi. */
  lemma OddCoprimeBelow(phi: nat) returns (c: nat)
    requires phi >= 4
    ensures 3 <= c < phi && c % 2 == 1 && Coprime(c, phi)
  {
    if phi % 2 == 0 {
      c := phi - 1;
      forall k: nat | Divides(k, c) && Divides(k, phi)
        ensures Divides(k, 1)
      {
        DividesSum(k, phi, c);
      }
    } else {
      c := phi - 2;
      forall k: nat | Divides(k, c) && Divides(k, phi)
        ensures Divides(k, 1)
      {
        DividesSum(k, phi, c);
        DivisorBound(k, 2);
      }
    }
    CoprimeIfDivisorsDivideOne(c, phi);
  }

  /** For phi of 2 or 3 the preferred exponent 65537 is already coprime. */
  lemma PreferredCoprimeToSmall(phi: nat)
    requires 2 <= phi <= 3
    ensures Coprime(PreferredExponent, phi)
  {
    forall k: nat | Divides(k, PreferredExponent) && Divides(k, phi)
      ensures Divides(k, 1)
    {
      DivisorBound(k, phi);
      assert k == 1 || k == 2 || k == 3;
    }
    CoprimeIfDivisorsDivideOne(PreferredExponent, phi);
  }

  /** The choice of e in main.py:128-134: 65537 when it is coprime to phi,
      otherwise the first odd candidate in [3, phi) that is, and 65537 again
      when the scan finds none. */
  method ChooseExponent(phi: nat) returns (e: nat)
    ensures Coprime(PreferredExponent, phi) ==> e == PreferredExponent
    ensures !Coprime(PreferredExponent, phi) && phi >= 2 ==>
              && 3 <= e < phi && e % 2 == 1 && Coprime(e, phi)
              && NoOddCoprimeBelow(e, phi)
    ensures phi == 0 ==> e == PreferredExponent
    ensures phi >= 2 ==> Coprime(e, phi)
  {
    e := PreferredExponent;
    var g := Euclid.Gcd(e, phi);
    GcdOneIffCoprime(g, e, phi);
    if g != 1 {
      var fallback := FirstCoprimeOdd(phi);
      if phi >= 2 {
        if phi <= 3 {
          PreferredCoprimeToSmall(phi);
        }
        var c := OddCoprimeBelow(phi);
      }
      if fallback.Some? {
        e := fallback.value;
      }
    }
  }

  /** (p - 1)(q - 1) for distinct positive p, q is 0 (one of them is 1) or at least 2. */
  lemma TotientZeroOrAtLeastTwo(p: nat, q: nat)
    requires p >= 1 && q >= 1 && p != q
    ensures Totient(p, q) == 0 || Totient(p, q) >= 2
    ensures Totient(p, q) == 0 <==> p == 1 || q == 1
  {
    if p >= 2 && q >= 2 {
      assert p >= 3 || q >= 3;
      MulMonotone(p - 1, 1, q - 1);
      MulMonotone(q - 1, 1, p - 1);
    }
  }

  /** The key for modulus n and totient phi: e from ChooseExponent and
      d = modInverse(e, phi) (main.py:128-139). */
  method KeyFromTotient(n: nat, phi: nat) returns (key: KeyPair)
    requires phi == 0 || phi >= 2
    ensures key.n == n
    ensures Coprime(PreferredExponent, phi) ==> key.e == PreferredExponent
    ensures !Coprime(PreferredExponent, phi) && phi > 0 ==>
              && 3 <= key.e < phi && key.e % 2 == 1
              && NoOddCoprimeBelow(key.e, phi)
    ensures key.d.Some? <==> Coprime(key.e, phi)
    ensures phi > 0 ==> key.d.Some? && key.d.value < phi && (key.e * key.d.value) % phi == 1
    ensures phi == 0 ==> key == KeyPair(PreferredExponent, None, n)
  {
    var e := ChooseExponent(phi);
    if phi == 0 {
      assert !Coprime(e, phi) by {
        DividesRefl(e);
        DividesZero(e);
      }
    }
    var inverse := Euclid.ModInverse(e, phi);
    key := KeyPair(e, inverse.value, n);
    if phi > 0 {
      ModSmall(1, phi);
      assert inverse.value.Some?;
    }
  }

  /** The arithmetic of `generateKeys` (main.py:117-139) for the primes p, q
      the `while True` loop settled on (so p != q): n = p * q,
      phi = (p - 1)(q - 1), then the key of KeyFromTotient. */
  method GenerateKeys(p: nat, q: nat) returns (key: KeyPair)
    requires p >= 1 && q >= 1 && p != q
    ensures key.n == p * q
    ensures Coprime(PreferredExponent, Totient(p, q)) ==> key.e == PreferredExponent
    ensures !Coprime(PreferredExponent, Totient(p, q)) && Totient(p, q) > 0 ==>
              && 3 <= key.e < Totient(p, q) && key.e % 2 == 1
              && NoOddCoprimeBelow(key.e, Totient(p, q))
    ensures key.d.Some? <==> Coprime(key.e, Totient(p, q))
    ensures Totient(p, q) > 0 ==>
              && key.d.Some?
              && key.d.value < Totient(p, q)
              && (key.e * key.d.value) % Totient(p, q) == 1
    ensures Totient(p, q) == 0 ==> key == KeyPair(PreferredExponent, None, p * q)
  {
    TotientZeroOrAtLeastTwo(p, q);
    key := KeyFromTotient(p * q, Totient(p, q));
  }

  // ---------------------------------------------------------------------------
  // Correctness of RSA

  /** m^(1 + (p-1)*j) == m (mod p) for a prime p: Fermat's little theorem,
      with the case p | m handled separately. */
  lemma FermatLift(p: nat, m: nat, j: nat)
    requires IsPrime(p)
    ensures Divides(p, Pow(m, 1 + (p - 1) * j) - m)
  {
    var x := (p - 1) * j;
    var y: int := Pow(m, x);
    assert Pow(m, 1 + x) == m * y;
    FactorOut(m, y);
    if Divides(p, m) {
      DividesProduct(p, m, y - 1);
    } else {
      UnitPowerCongruent(p, m, j);
      DividesProduct(p, y - 1, m);
      FactorOut(m, y);
    }
  }

  /** m * y - m == m * (y - 1), with the factors in either order. */
  lemma FactorOut(m: int, y: int)
    ensures m * y - m == m * (y - 1) == (y - 1) * m
  {
  }

  /** m^((p-1)*j) == 1 (mod p) for a prime p that does not divide m. */
  lemma UnitPowerCongruent(p: nat, m: nat, j: nat)
    requires IsPrime(p) && !Divides(p, m)
    ensures Divides(p, Pow(m, (p - 1) * j) - 1)
  {
    Primes.FermatLittle(m, p);
    Primes.PowCongruentOne(Pow(m, p - 1), j, p);
    PowMul(m, p - 1, j);
  }

  /** The RSA identity: for distinct primes p, q, a message m < p * q and
      exponents with e * d == 1 (mod (p - 1)(q - 1)), raising to e and then
      to d modulo p * q gives back m. */
  lemma RsaCorrect(p: nat, q: nat, e: nat, d: nat, m: nat)
    requires IsPrime(p) && IsPrime(q) && p != q
    requires (e * d) % Totient(p, q) == 1
    requires m < p * q
    ensures Pow(Pow(m, e) % (p * q), d) % (p * q) == m
  {
    var n := p * q;
    ExponentOneModTotient(p, q, e * d, m);
    assert Pow(Pow(m, e) % n, d) % n == Pow(Pow(m, e), d) % n by {
      PowMod(Pow(m, e), d, n);
    }
    PowMul(m, e, d);
  }

  /** m^x == m (mod p * q) for every exponent x == 1 (mod (p - 1)(q - 1)):
      the congruence holds modulo p and modulo q, hence modulo their product. */
  lemma ExponentOneModTotient(p: nat, q: nat, x: nat, m: nat)
    requires IsPrime(p) && IsPrime(q) && p != q
    requires x % Totient(p, q) == 1
    requires m < p * q
    ensures Pow(m, x) % (p * q) == m
  {
    var n := p * q;
    assert n > 0 by {
      MulMonotone(p, 1, q);
    }
    var jp, jq := ExponentSplit(p, q, x);
    var mx := Pow(m, x);
    FermatLift(p, m, jp);
    FermatLift(q, m, jq);
    Primes.ProductOfPrimesDivides(p, q, mx - m);
    CongruenceMod(mx, m, n);
    ModSmall(m, n);
  }

  /** An exponent that is 1 modulo (p - 1)(q - 1) is 1 plus a multiple of
      p - 1 and 1 plus a multiple of q - 1. */
  lemma ExponentSplit(p: nat, q: nat, x: nat) returns (jp: nat, jq: nat)
    requires p >= 2 && q >= 2
    requires x % Totient(p, q) == 1
    ensures x == 1 + (p - 1) * jp
    ensures x == 1 + (q - 1) * jq
  {
    var phi := Totient(p, q);
    var k := x / phi;
    assert x == phi * k + 1;
    jp, jq := (q - 1) * k, (p - 1) * k;
    assert phi * k == (p - 1) * jp == (q - 1) * jq;
  }

  // ---------------------------------------------------------------------------
  // The round trip

  /** The round trip of main.py:153-164 on a message integer: the capacity
      check, `encrypt` with (e, n) and `decrypt` with (d, n). */
  method RoundTrip(msg: nat, key: KeyPair) returns (r: Result<nat, RoundTripError>)
    ensures r.Success? <==> msg < key.n && key.d.Some?
    ensures msg >= key.n ==> r == Failure(MessageTooLarge)
    ensures msg < key.n && key.d.None? ==> r == Failure(NoPrivateExponent)
    ensures msg < key.n && key.d.Some? && key.n > 1 ==>
              r == Success(Pow(Pow(msg, key.e) % key.n, key.d.value) % key.n)
    ensures msg < key.n && key.d.Some? && key.n == 1 ==>
              r == Success(if key.d.value == 0 then 1 else 0)
  {
    if msg >= key.n {
      return Failure(MessageTooLarge);
    }
    var c := ModExp.Encrypt(msg, key.e, key.n);
    if key.d.None? {
      return Failure(NoPrivateExponent);
    }
    var decrypted := ModExp.Decrypt(c.value, key.d.value, key.n);
    r := Success(decrypted.value);
  }

  /** Key generation followed by the round trip (main.py:144-164) for
      distinct primes p and q: every message below p * q comes back
      unchanged, and every other message is refused. */
  method KeyGenRoundTrip(p: nat, q: nat, msg: nat) returns (r: Result<nat, RoundTripError>)
    requires IsPrime(p) && IsPrime(q) && p != q
    ensures msg < p * q ==> r == Success(msg)
    ensures msg >= p * q ==> r == Failure(MessageTooLarge)
  {
    var key := GenerateKeys(p, q);
    assert Totient(p, q) > 0;
    r := RoundTrip(msg, key);
    if msg < p * q {
      RsaCorrect(p, q, key.e, key.d.value, msg);
    }
  }
}
