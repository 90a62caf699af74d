/** The modular exponentiation engine `power` (main.py:73-81) and the raw RSA
    primitives `encrypt` / `decrypt` (main.py:108-113), which are RSAEP and
    RSADP of sections 5.1.1 and 5.1.2 of RFC 8017 without their range checks. */
module ModExp {
  import opened Wrappers
  import opened NumberTheory

  /** One square-and-multiply step preserves res * base^expo (mod m). */
  lemma SquareMultiplyStep(res: nat, b: nat, x: nat, m: nat)
    requires m > 0 && x > 0
    ensures x % 2 == 1 ==>
      (((res * b) % m) * Pow((b * b) % m, x / 2)) % m == (res * Pow(b, x)) % m
    ensures x % 2 == 0 ==>
      (res * Pow((b * b) % m, x / 2)) % m == (res * Pow(b, x)) % m
  {
    var k := x / 2;
    // Pow((b*b) % m, k) agrees with Pow(b, 2k) modulo m
    PowMod(b * b, k, m);
    PowMul(b, 2, k);
    assert Pow(b, 2) == b * b;
    assert Pow((b * b) % m, k) % m == Pow(b, 2 * k) % m;
    if x % 2 == 1 {
      assert x == 2 * k + 1;
      calc {
        (((res * b) % m) * Pow((b * b) % m, k)) % m;
        { MulMod((res * b) % m, Pow((b * b) % m, k), m); ModSmall((res * b) % m, m); }
        (((res * b) % m) * (Pow((b * b) % m, k) % m)) % m;
        (((res * b) % m) * (Pow(b, 2 * k) % m)) % m;
        { MulMod(res * b, Pow(b, 2 * k), m); ModSmall((res * b) % m, m); }
        ((res * b) * Pow(b, 2 * k)) % m;
        { assert (res * b) * Pow(b, 2 * k) == res * (b * Pow(b, 2 * k)); }
        (res * (b * Pow(b, 2 * k))) % m;
      }
    } else {
      assert x == 2 * k;
      calc {
        (res * Pow((b * b) % m, k)) % m;
        { MulMod(res, Pow((b * b) % m, k), m); }
        ((res % m) * (Pow((b * b) % m, k) % m)) % m;
        ((res % m) * (Pow(b, 2 * k) % m)) % m;
        { MulMod(res, Pow(b, 2 * k), m); }
        (res * Pow(b, 2 * k)) % m;
      }
    }
  }

  /** `power(base, expo, m)` (main.py:73-81), square-and-multiply.  Python
      raises ZeroDivisionError on `base % 0`. */
  method Power(base: nat, expo: nat, m: nat) returns (r: Result<nat, ArithError>)
    ensures r.Failure? <==> m == 0
    ensures m > 1 ==> r == Success(Pow(base, expo) % m)
    ensures m == 1 ==> r == Success(if expo == 0 then 1 else 0)
  {
    if m == 0 {
      return Failure(ZeroDivision);
    }
    var res: nat := 1;
    var b: nat := base % m;
    var x: nat := expo;
    PowMod(base, expo, m);
    while x > 0
      invariant (res * Pow(b, x)) % m == Pow(base, expo) % m
      invariant x <= expo
      invariant x == expo ==> res == 1
      invariant res < m || res == 1
      invariant x == 0 && expo > 0 ==> res < m
      decreases x
    {
      SquareMultiplyStep(res, b, x, m);
      if x % 2 == 1 {
        res := (res * b) % m;
      }
      b := (b * b) % m;
      x := x / 2;
    }
    if expo > 0 {
      ModSmall(res, m);
    } else if m > 1 {
      ModSmall(1, m);
    }
    r := Success(res);
  }

  /** `encrypt(m, e, n)` (main.py:108-109): the ciphertext m^e mod n. */
  method Encrypt(msg: nat, e: nat, n: nat) returns (c: Result<nat, ArithError>)
    ensures c.Failure? <==> n == 0
    ensures n > 1 ==> c == Success(Pow(msg, e) % n)
    ensures n > 1 ==> c.value < n
    ensures n == 1 ==> c == Success(if e == 0 then 1 else 0)
  {
    c := Power(msg, e, n);
  }

  /** `decrypt(c, d, n)` (main.py:112-113): the plaintext c^d mod n. */
  method Decrypt(c: nat, d: nat, n: nat) returns (msg: Result<nat, ArithError>)
    ensures msg.Failure? <==> n == 0
    ensures n > 1 ==> msg == Success(Pow(c, d) % n)
    ensures n > 1 ==> msg.value < n
    ensures n == 1 ==> msg == Success(if d == 0 then 1 else 0)
  {
    msg := Power(c, d, n);
  }
}
