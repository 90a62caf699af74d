# Textbook RSA in Dafny

This project models the arithmetic core of a small textbook-RSA library,
`main.py`, and proves it correct. The core covers:

- candidate generation: the range of `rBitRandom`, the small-prime sieve of
  `getLowLevelPrime`, and one round of `generatePrimes`;
- the Miller-Rabin test `isMillerRabinPassed`, the test of FIPS 186-4
  Appendix C.3.1;
- square-and-multiply modular exponentiation `power`, and the RSAEP/RSADP
  primitives `encrypt`/`decrypt` of sections 5.1.1 and 5.1.2 of RFC 8017;
- the extended Euclidean algorithm `egcd`, `modInverse` and the iterative
  `gcd`;
- the key arithmetic of `generateKeys`: n, phi, the choice of e, and d;
- the encrypt-then-decrypt round trip of the demo.

Randomness is a parameter. The candidate that `rBitRandom` drew and the
Miller-Rabin bases that `random.randrange` drew are inputs. The `while True`
retry loops are modelled one round at a time: a round either returns its
value or reports (as `None`) that the source would draw again.

Python exceptions are modelled as error results:

- `power(b, e, 0)` and `modInverse(1, 0)` raise ZeroDivisionError;
- the demo raises ValueError for a message that does not fit the modulus;
- the demo raises TypeError when `d` is None.

Modules, one file each:

| module | file | contents |
|---|---|---|
| `Wrappers` | wrappers.dfy | `Option`, `Result` |
| `NumberTheory` | number_theory.dfy | `Pow`, `Divides`, `IsGcd`, `Coprime`, `IsPrime` and their arithmetic lemmas |
| `Euclid` | euclid.dfy | `egcd`, `modInverse`, `gcd` |
| `ModExp` | mod_exp.dfy | `power`, `encrypt`, `decrypt` |
| `Primes` | primes.dfy | Euclid's lemma, the binomial theorem, Fermat's little theorem, square roots of 1, the Chinese-remainder step |
| `MillerRabin` | miller_rabin.dfy | the halving loop, one trial, the whole test, and its soundness |
| `PrimeGen` | prime_gen.dfy | the `rBitRandom` range, the sieve, one round of `generatePrimes` |
| `Rsa` | rsa.dfy | key derivation, the RSA identity, the round trip |

## Model

| member | source | states |
|---|---|---|
| `ModExp.Power` | main.py:73-81 | m == 0 fails with ZeroDivision, as `base % m` raises. For m > 1 the result is base^expo mod m. For m == 1 it is 1 when expo == 0 and 0 otherwise, so `power(b, 0, 1)` is 1, not 0. The loop keeps res * b^x ≡ base^expo (mod m) while x halves. |
| `ModExp.Encrypt` | main.py:108-109 | n == 0 fails. For n > 1 the ciphertext is msg^e mod n, below n. For n == 1 it is what `power` returns there: 1 when e == 0, else 0. |
| `ModExp.Decrypt` | main.py:112-113 | n == 0 fails. For n > 1 the plaintext is c^d mod n, below n. For n == 1 it is 1 when d == 0, else 0. |
| `Euclid.Egcd` | main.py:86-91 | The result (g, x, y) satisfies Bezout's identity a*x + b*y == g, and g is the greatest common divisor of a and b: it divides both, and every common divisor divides it. The recursion on (b % a, a) terminates. |
| `Euclid.ModInverse` | main.py:85-97 | It fails (ZeroDivision) exactly when e == 1 and phi == 0. Otherwise it returns Some exactly when e and phi are coprime, and then the value r satisfies r < phi and e*r ≡ 1 (mod phi). |
| `Euclid.Gcd` | main.py:100-103 | The result is the greatest common divisor of a and b, and gcd(a, 0) == a. It agrees with the g of `egcd`. The loop keeps the set of common divisors unchanged. |
| `MillerRabin.HalveToOdd` | main.py:39-44 | After the halving loop, n == 2^s * ec with ec odd; s and ec are the 2-adic valuation and the odd part of n. |
| `MillerRabin.DecompositionUnique` | main.py:39-44 | A number written as 2^s * d with d odd is positive, and s and d are its 2-adic valuation and odd part, so the decomposition is unique. |
| `MillerRabin.WitnessTrial` | main.py:46-57 | A trial passes exactly when a^ec mod mrc is 1 or mrc - 1, or one of the next s - 1 squarings reaches mrc - 1. |
| `MillerRabin.IsMillerRabinPassed` | main.py:38-58 | It returns true exactly when mrc is a strong probable prime to every given base, so false means some base failed; every trial runs before true is returned. A prime is never rejected. |
| `MillerRabin.PrimePassesEveryWitness` | main.py:46-57 | A prime p is a strong probable prime to every base in [2, p - 2]. |
| `MillerRabin.ChainReachesMinusOne` | main.py:52-57 | Modulo a prime, a square chain that reaches 1 starts at 1 or passes through p - 1. |
| `MillerRabin.SquareChainStep` | main.py:53 | `pow(x, 2, mrc)` moves the chain one step: squaring the j-th element modulo n gives the (j+1)-th element. |
| `PrimeGen.RBitRangeBounds` | main.py:22-23 | A value `rBitRandom(r)` returns has exactly r bits, 2^(r-1) < pc < 2^r, and needs r >= 3 and pc >= 5. |
| `PrimeGen.RBitRangeNonEmpty` | main.py:22-23 | The range of `randrange` is non-empty exactly when r >= 3. |
| `PrimeGen.RejectedIsComposite` | main.py:33 | A candidate that a listed prime d >= 2 rejects (d divides it, d*d <= pc) is not prime. |
| `PrimeGen.SieveAccepts` | main.py:32-36 | The sieve accepts exactly the candidates that no listed prime rejects. It never rejects a prime. |
| `PrimeGen.LowLevelPrimeAttempt` | main.py:26-36 | One draw returns the candidate exactly when it passes the sieve. A returned candidate is odd and has r bits. A prime candidate is always returned. |
| `PrimeGen.GeneratePrimeAttempt` | main.py:61-68 | One round returns the candidate exactly when it passes the sieve and is a strong probable prime to all 20 bases. The result is odd with r bits, and a prime candidate is always returned. |
| `PrimeGen.ListedNotRejected` | main.py:9-17 | No entry of the table rejects another entry. |
| `PrimeGen.FirstPrimesPassSieve` | main.py:9-36 | Every listed prime passes the sieve: the sieve never throws away one of its own primes. |
| `Rsa.FirstCoprimeOdd` | main.py:131-134 | The fallback scan returns the first odd candidate in [3, phi) that is coprime to phi. None means no odd candidate in that range is coprime to phi. |
| `Rsa.OddCoprimeBelow` | main.py:131-134 | For phi >= 4 some odd candidate in [3, phi) is coprime to phi, so the scan cannot come back empty. |
| `Rsa.ChooseExponent` | main.py:128-134 | e is 65537 when 65537 is coprime to phi. Otherwise, for phi >= 2, e is the first odd coprime candidate in [3, phi). For phi >= 2, e is always coprime to phi. |
| `Rsa.KeyFromTotient` | main.py:128-139 | d exists exactly when e is coprime to phi. For phi > 0 it exists, lies below phi and satisfies e*d ≡ 1 (mod phi). For phi == 0 the key is (65537, None, n). |
| `Rsa.GenerateKeys` | main.py:117-139 | For distinct p, q >= 1: n == p*q, and e is chosen as in ChooseExponent against phi == (p-1)(q-1). d exists exactly when e is coprime to phi, and for phi > 0 it satisfies d < phi and e*d ≡ 1 (mod phi). |
| `Rsa.FermatLift` | main.py:153-164 | m^(1 + (p-1)j) ≡ m (mod p) for a prime p and every m, including multiples of p. |
| `Rsa.ExponentOneModTotient` | main.py:153-164 | For distinct primes p, q and x ≡ 1 (mod (p-1)(q-1)), m^x mod pq == m for every m < pq. |
| `Rsa.RsaCorrect` | main.py:153-164 | Decryption undoes encryption: (m^e mod n)^d mod n == m for distinct primes p, q, n == pq, e*d ≡ 1 (mod phi) and m < n. |
| `Rsa.RoundTrip` | main.py:153-164 | It succeeds exactly when msg < n and d exists. A message with msg >= n fails with MessageTooLarge. A missing d fails with NoPrivateExponent. Otherwise, for n > 1, the result is (msg^e mod n)^d mod n; for n == 1 it is 1 when d == 0, else 0. |
| `Rsa.KeyGenRoundTrip` | main.py:144-164 | For distinct primes p, q, key generation followed by the round trip returns every message below pq unchanged and refuses every other message. |

## Left out

- `random` (main.py:6, 23, 47) and its distributions are left out. The drawn candidate and the Miller-Rabin bases are parameters, and the probabilistic error bound of Miller-Rabin is not stated.
- The `while True` retry loops (main.py:27, 62, 118) have no termination argument. Each is modelled as a single round; `None` marks "draw again". `GenerateKeys` takes the primes that the `p != q` loop settled on.
- The 1024-bit size at main.py:63 is the parameter `r`.
- `MillerRabin.IsMillerRabinPassed` requires mrc >= 2, because for mrc == 1 the halving loop of main.py:42 never ends and for mrc == 0 `randrange` raises. Its bases must lie in [2, mrc - 2]; bases `randrange(2, mrc - 1)` could not draw (it raises for mrc <= 3) are excluded by that requires rather than modelled as an error.
- `Rsa.GenerateKeys` requires p, q >= 1. For a zero or negative p or q, phi and the Python range scan behave differently; prime generation never yields such values.
- Python's negative integers are not modelled. Every input is a `nat`, which is all the program ever passes.
- `pow(a, ec, mrc)` (main.py:48) is Python's built-in and is modelled by its value a^ec mod mrc.
- The comment at main.py:127 promises 1 < e < phi. The code keeps 65537 whenever it is coprime to phi, even when phi <= 65537 (tiny primes), and the model follows the code. The comment holds at 1024 bits.
- The sieve table of main.py:9-17 is copied value for value. That its entries are primes is not proved; the model only uses that none is a proper multiple of a prime below 19.
- The `__main__` demo's printing, `str.encode`/`decode` and `int.from_bytes`/`to_bytes` (main.py:143-170) are left out as I/O and library glue. The round trip starts from the message integer.
