/** Textbook RSA as `crypto_algs/rsa.py` writes it: Euclid's gcd, the
    extended Euclidean algorithm, the modular inverse built on it, per-code-point
    encryption and decryption, trial-division primality and the next-prime
    search. Python integers are unbounded, and `//` and `%` round toward
    negative infinity; both are modelled as such. */
module Rsa {
  import opened Arith
  import opened Outcomes
  import Sieve

  // ---- Python integer division --------------------------------------------

  /** Python's `a // b`: the quotient rounded toward negative infinity. */
  function FloorDiv(a: int, b: int): int
    requires b != 0
  {
    if b > 0 then a / b else (-a) / (-b)
  }

  /** Python's `a % b`: what is left after `a // b`; a nonzero remainder has
      the sign of the divisor. */
  function FloorMod(a: int, b: int): (r: int)
    requires b != 0
    ensures b > 0 ==> 0 <= r < b
    ensures b < 0 ==> b < r <= 0
    ensures Divides(b, a - r)
  {
    var q := FloorDiv(a, b);
    assert a - (a - b * q) == b * q;
    a - b * q
  }

  /** For a positive divisor Python's `%` agrees with the Euclidean one. */
  lemma FloorModPositive(a: int, b: int)
    requires b > 0
    ensures FloorMod(a, b) == a % b
  {}

  // ---- greatest common divisor --------------------------------------------

  /** `(a, b)` and `(a0, b0)` have the same common divisors. */
  ghost predicate SameCommonDivisors(a: int, b: int, a0: int, b0: int) {
    forall d :: Divides(d, a) && Divides(d, b) <==> Divides(d, a0) && Divides(d, b0)
  }

  /** Replacing `a` by `a - b*q` keeps the common divisors. */
  lemma CommonDivisorsStep(a: int, b: int, q: int)
    ensures SameCommonDivisors(b, a - b * q, a, b)
  {
    forall d
      ensures Divides(d, b) && Divides(d, a - b * q) <==> Divides(d, a) && Divides(d, b)
    {
      if Divides(d, b) && Divides(d, a - b * q) {
        DividesLinear(d, a - b * q, b, 1, q);
        assert (a - b * q) * 1 + b * q == a;
      }
      if Divides(d, a) && Divides(d, b) {
        DividesLinear(d, a, b, 1, -q);
        assert a * 1 + b * (-q) == a - b * q;
      }
    }
  }

  /** Once the second argument is 0, the first one is the gcd up to sign. */
  lemma GcdOfCommonDivisors(g: int, a: int, b: int)
    requires SameCommonDivisors(g, 0, a, b)
    ensures IsGcd(Abs(g), Abs(a), Abs(b))
  {
    DividesSelf(g);
    DividesAbs(g, a);
    DividesAbs(g, b);
    forall d | Divides(d, Abs(a)) && Divides(d, Abs(b))
      ensures Divides(d, Abs(g))
    {
      DividesAbs(d, a);
      DividesAbs(d, b);
      DividesAbs(d, Abs(a));
      DividesAbs(d, Abs(b));
      assert Divides(d, a) && Divides(d, b);
      DividesAbs(d, g);
      DividesAbs(d, Abs(g));
    }
  }

  /** `gcd(a, b)`: Euclid's loop `a, b = b, a % b` until `b` is 0. The result
      is the greatest common divisor up to sign, and non-negative for
      non-negative arguments. */
  method Gcd(a: int, b: int) returns (g: int)
    ensures IsGcd(Abs(g), Abs(a), Abs(b))
    ensures a >= 0 && b >= 0 ==> g >= 0
    ensures b == 0 ==> g == a
  {
    var x, y := a, b;
    DividesSelf(0);
    while y != 0
      invariant SameCommonDivisors(x, y, a, b)
      invariant a >= 0 && b >= 0 ==> x >= 0 && y >= 0
      invariant b == 0 ==> x == a && y == 0
      decreases Abs(y)
    {
      CommonDivisorsStep(x, y, FloorDiv(x, y));
      x, y := y, FloorMod(x, y);
    }
    GcdOfCommonDivisors(x, a, b);
    g := x;
  }

  /** `extended_gcd(a, b)`: `(g, x, y)` with the Bezout identity
      `a*x + b*y == g` and `g` the gcd of `a` and `b` up to sign. The
      recursion replaces `(a, b)` by `(b % a, a)`, so `|a|` decreases. */
  function ExtendedGcd(a: int, b: int): (r: (int, int, int))
    ensures a * r.1 + b * r.2 == r.0
    ensures IsGcd(Abs(r.0), Abs(a), Abs(b))
    ensures a >= 0 && b >= 0 ==> r.0 >= 0
    decreases Abs(a)
  {
    if a == 0 then
      DividesSelf(0);
      GcdOfCommonDivisors(b, a, b);
      (b, 0, 1)
    else
      var q := FloorDiv(b, a);
      var t := ExtendedGcd(FloorMod(b, a), a);
      BezoutStep(a, b, q, t.0, t.1, t.2);
      (t.0, t.2 - q * t.1, t.1)
  }

  /** One step of the extended algorithm keeps both the Bezout identity and
      the gcd. */
  lemma BezoutStep(a: int, b: int, q: int, g: int, x: int, y: int)
    requires (b - a * q) * x + a * y == g
    requires IsGcd(Abs(g), Abs(b - a * q), Abs(a))
    ensures a * (y - q * x) + b * x == g
    ensures IsGcd(Abs(g), Abs(a), Abs(b))
  {
    assert a * (y - q * x) == a * y - (a * q) * x;
    assert (b - a * q) * x == b * x - (a * q) * x;
    GcdStep(a, b, q, g);
  }

  /** The gcd of `(b - a*q, a)` is the gcd of `(a, b)`. */
  lemma GcdStep(a: int, b: int, q: int, g: int)
    requires IsGcd(Abs(g), Abs(b - a * q), Abs(a))
    ensures IsGcd(Abs(g), Abs(a), Abs(b))
  {
    var r := b - a * q;
    CommonDivisorsStep(b, a, q);
    assert SameCommonDivisors(a, r, b, a);
    forall d | Divides(d, Abs(a)) && Divides(d, Abs(b))
      ensures Divides(d, Abs(g))
    {
      DividesAbs(d, a);
      DividesAbs(d, b);
      DividesAbs(d, Abs(a));
      DividesAbs(d, Abs(b));
      assert Divides(d, a) && Divides(d, b);
      assert Divides(d, r);
      DividesAbs(d, r);
      DividesAbs(d, Abs(r));
    }
    var G := Abs(g);
    DividesAbs(G, r);
    DividesAbs(G, a);
    DividesAbs(G, Abs(r));
    DividesAbs(G, Abs(a));
    assert Divides(G, r) && Divides(G, a);
    DividesAbs(G, b);
    DividesAbs(G, Abs(b));
  }

  // ---- modular inverse ----------------------------------------------------

  /** `mod_inverse(e, phi)`: the `x` of `extended_gcd(e, phi)` reduced modulo
      `phi`, or an exception when the gcd it returns is not 1. When that gcd
      is 1 and `phi` is 0 (only for `e == 1`), `x % 0` raises
      ZeroDivisionError. The result is an inverse of `e` modulo `phi`, in
      the range Python's `%` gives. */
  function ModInverse(e: int, phi: int): (r: Result<int>)
    ensures r.Ok? ==> phi != 0 && Divides(phi, r.value * e - 1)
    ensures r.Ok? && phi > 0 ==> 0 <= r.value < phi
    ensures r.Ok? && phi < 0 ==> phi < r.value <= 0
  {
    var t := ExtendedGcd(e, phi);
    if t.0 != 1 then Err(NoModularInverse)
    else if phi == 0 then Err(ZeroDivisionError)
    else
      InverseCongruence(e, phi, t.1, t.2);
      Ok(FloorMod(t.1, phi))
  }

  lemma InverseCongruence(e: int, phi: int, x: int, y: int)
    requires phi != 0 && e * x + phi * y == 1
    ensures Divides(phi, FloorMod(x, phi) * e - 1)
  {
    var k := FloorDiv(x, phi);
    var d := FloorMod(x, phi);
    assert d == x - phi * k;
    assert d * e == x * e - phi * (k * e);
    assert d * e - 1 == phi * (-y - k * e);
  }

  /** `mod_inverse` raises its own exception exactly when `e` and `phi` are
      not coprime (for non-negative arguments). */
  lemma ModInverseFailsIffNotCoprime(e: nat, phi: nat)
    ensures ModInverse(e, phi) == Err(NoModularInverse) <==> !IsGcd(1, e, phi)
  {
    var g := ExtendedGcd(e, phi).0;
    if IsGcd(1, e, phi) {
      GcdUnique(g, 1, e, phi);
    }
  }

  /** `mod_inverse` raises ZeroDivisionError only for `phi == 0` and `e == 1`. */
  lemma ModInverseZeroDivision(e: int, phi: int)
    ensures ModInverse(e, phi) == Err(ZeroDivisionError) <==> phi == 0 && e == 1
  {
    if phi == 0 && e != 0 {
      assert FloorMod(0, e) == 0;
      assert ExtendedGcd(0, e) == (e, 0, 1);
      assert ExtendedGcd(e, 0).0 == e;
    }
  }

  /** Every inverse of `e` modulo `phi > 1` in `[0, phi)` is the one
      `mod_inverse` returns: the inverse is unique and is found whenever it
      exists. */
  lemma ModInverseUnique(e: nat, phi: int, d: int)
    requires phi > 1 && 0 <= d < phi && (d * e) % phi == 1
    ensures ModInverse(e, phi) == Ok(d)
  {
    var q := (d * e) / phi;
    assert d * e == phi * q + 1;
    CoprimeWhenInvertible(e, phi, d, q);
    ModInverseFailsIffNotCoprime(e, phi);
    var t := ExtendedGcd(e, phi);
    GcdUnique(t.0, 1, e, phi);
    var x := FloorMod(t.1, phi);
    assert ModInverse(e, phi) == Ok(x);
    InverseCongruence(e, phi, t.1, t.2);
    var k :| x * e - 1 == phi * k;
    InversesAgree(x, d, e, phi, q, k);
  }

  /** An invertible `e` is coprime to the modulus: every common divisor
      divides `d*e - phi*q == 1`. */
  lemma CoprimeWhenInvertible(e: nat, phi: nat, d: int, q: int)
    requires d * e == phi * q + 1
    ensures IsGcd(1, e, phi)
  {
    forall c | Divides(c, e) && Divides(c, phi)
      ensures Divides(c, 1)
    {
      DividesLinear(c, e, phi, d, -q);
      assert e * d + phi * (-q) == 1;
    }
    assert Divides(1, e) by { assert e == 1 * e; }
    assert Divides(1, phi) by { assert phi == 1 * phi; }
  }

  /** Two inverses of `e` in `[0, phi)` coincide: `x ≡ x*(d*e) == (x*e)*d ≡ d`. */
  lemma InversesAgree(x: int, d: int, e: int, phi: int, q: int, k: int)
    requires phi > 0 && 0 <= x < phi && 0 <= d < phi
    requires d * e == phi * q + 1 && x * e - 1 == phi * k
    ensures x == d
  {
    assert x * (d * e) == phi * (x * q) + x;
    assert (x * e) * d == phi * (k * d) + d;
    assert x * (d * e) == (x * e) * d;
    assert x - d == phi * (k * d - x * q);
    SameResidue(x, d, phi, k * d - x * q);
  }

  /** Two numbers in `[0, m)` that differ by a multiple of `m` are equal. */
  lemma SameResidue(x: int, y: int, m: int, k: int)
    requires 0 <= x < m && 0 <= y < m && x - y == m * k
    ensures x == y
  {
    MulBetween(m, k);
  }

  /** Whenever `mod_inverse` fails for `phi > 1`, no `d` inverts `e`. */
  lemma NoInverseWhenModInverseFails(e: nat, phi: int, d: int)
    requires phi > 1 && ModInverse(e, phi).Err?
    ensures (d * e) % phi != 1
  {
    if (d * e) % phi == 1 {
      ReducedInverse(d, e, phi);
      ModInverseUnique(e, phi, d % phi);
      assert false;
    }
  }

  lemma ReducedInverse(d: int, e: int, phi: int)
    requires phi > 1 && (d * e) % phi == 1
    ensures ((d % phi) * e) % phi == 1
  {
    var r, s := d % phi, e % phi;
    MulMod(d, e, phi);
    MulMod(r, e, phi);
    ModOfMod(d, phi);
    ProductOfEqualResidues(r % phi, s, r, s, phi);
  }

  // ---- encryption ---------------------------------------------------------

  /** A Python `str`, as its sequence of code points. */
  type CodePoint = c: int | 0 <= c <= 0x10FFFF

  /** A key pair component `(exponent, modulus)`. */
  datatype Key = Key(exponent: nat, modulus: int)

  /** `encrypt(public_key, plaintext)`: every code point `c` becomes
      `c ** key % n`. A nonempty plaintext under `n == 0` raises
      ZeroDivisionError. */
  function Encrypt(publicKey: Key, plaintext: seq<CodePoint>): (r: Result<seq<int>>)
    ensures r.Err? <==> |plaintext| > 0 && publicKey.modulus == 0
    ensures r.Ok? ==> |r.value| == |plaintext|
    ensures r.Ok? && publicKey.modulus > 0 ==>
      forall i :: 0 <= i < |r.value| ==> 0 <= r.value[i] < publicKey.modulus
  {
    var n := publicKey.modulus;
    if |plaintext| == 0 then Ok([])
    else if n == 0 then Err(ZeroDivisionError)
    else Ok(seq(|plaintext|, i requires 0 <= i < |plaintext| =>
                  FloorMod(Pow(plaintext[i], publicKey.exponent), n)))
  }

  /** `decrypt(private_key, ciphertext)`: every number `c` becomes
      `chr(c ** key % n)`; `chr` raises ValueError outside the code-point
      range. */
  function Decrypt(privateKey: Key, ciphertext: seq<int>): (r: Result<seq<CodePoint>>)
    ensures r == Err(ZeroDivisionError) <==> |ciphertext| > 0 && privateKey.modulus == 0
    ensures r.Ok? ==> |r.value| == |ciphertext|
    ensures 0 < privateKey.modulus <= 0x110000 ==> r.Ok?
  {
    var n := privateKey.modulus;
    if |ciphertext| == 0 then Ok([])
    else if n == 0 then Err(ZeroDivisionError)
    else
      var plain := seq(|ciphertext|, i requires 0 <= i < |ciphertext| =>
                         FloorMod(Pow(ciphertext[i], privateKey.exponent), n));
      if forall i :: 0 <= i < |plain| ==> 0 <= plain[i] <= 0x10FFFF then
        Ok(seq(|plain|, i requires 0 <= i < |plain| => plain[i] as CodePoint))
      else Err(ValueError)
  }

  // ---- primality ----------------------------------------------------------

  /** The bound of the primes list built at import. */
  const LIMIT := 100

  /** `PRIMES_TO_LIMIT`, `sieve_of_eratosthenes(LIMIT)`: exactly the primes
      no larger than LIMIT. */
  ghost predicate IsPrimesToLimit(primes: seq<int>) {
    forall x :: x in primes <==> IsPrime(x) && x <= LIMIT
  }

  /** The list the sieve returns for LIMIT meets the requirement the
      primality methods below place on `PRIMES_TO_LIMIT`. */
  lemma SieveGivesPrimesToLimit()
    ensures IsPrimesToLimit(Sieve.PrimesBelow(LIMIT + 1))
  {
    Sieve.PrimesBelowMembers(LIMIT + 1);
  }

  /** `is_prime(num)`: membership in the primes list, then division by each
      listed prime, then trial division by every `i` from LIMIT while
      `i * i <= num`. */
  method CheckPrime(primesToLimit: seq<int>, num: int) returns (b: bool)
    requires IsPrimesToLimit(primesToLimit)
    ensures b <==> IsPrime(num)
  {
    if num <= 1 {
      return false;
    }
    if num in primesToLimit {
      return true;
    }
    forall j | 0 <= j < |primesToLimit|
      ensures primesToLimit[j] >= 2
    {
      assert primesToLimit[j] in primesToLimit;
    }
    for k := 0 to |primesToLimit|
      invariant forall j :: 0 <= j < k ==> num % primesToLimit[j] != 0
    {
      var p := primesToLimit[k];
      assert p in primesToLimit;
      if num % p == 0 {
        return false;
      }
    }
    var i := LIMIT;
    while i * i <= num
      invariant LIMIT <= i
      invariant forall j :: LIMIT <= j < i ==> num % j != 0
      decreases num - i
    {
      MulMonotone(i, 1, i);
      if num % i == 0 {
        return false;
      }
      i := i + 1;
    }
    if !IsPrime(num) {
      var p := SmallPrimeFactor(num);
      if p > LIMIT && p >= i {
        MulMonotone(p, i, p);
        MulMonotone(i, i, p);
      }
      assert false;
    }
    return true;
  }

  /** The search loop of `find_next_prime`: the first prime from `start` on. */
  method FirstPrimeFrom(primesToLimit: seq<int>, start: int) returns (p: int)
    requires IsPrimesToLimit(primesToLimit)
    ensures p >= start && IsPrime(p)
    ensures forall k :: start <= k < p ==> !IsPrime(k)
  {
    ghost var bound := PrimeAtLeast(start);
    p := start;
    var found := CheckPrime(primesToLimit, p);
    while !found
      invariant start <= p <= bound
      invariant found <==> IsPrime(p)
      invariant forall k :: start <= k < p ==> !IsPrime(k)
      decreases bound - p
    {
      p := p + 1;
      found := CheckPrime(primesToLimit, p);
    }
  }

  /** Where `find_next_prime(n)` starts its search: `n + 1`, or `n + 2` when
      `n` is odd (Python's `%` by 2 agrees with Dafny's). The start is always
      above `n`, and it skips `n + 1` only when that number is even. */
  function SearchStart(n: int): (start: int)
    ensures n < start <= n + 2
    ensures start == n + 2 <==> (n + 1) % 2 == 0
  {
    if n % 2 == 1 then n + 2 else n + 1
  }

  /** `find_next_prime(n)`: the search starts at `n + 1`, or at `n + 2` when
      `n` is odd. The result is a prime above `n`, and it is the least prime
      above `n` for every `n` except 1, where the search starts at 3 and
      passes over 2. */
  method FindNextPrime(primesToLimit: seq<int>, n: int) returns (p: int)
    requires IsPrimesToLimit(primesToLimit)
    ensures p > n && IsPrime(p)
    ensures n != 1 ==> forall k :: n < k < p ==> !IsPrime(k)
    ensures n == 1 ==> p == 3
  {
    p := FirstPrimeFrom(primesToLimit, SearchStart(n));
    if n % 2 == 1 && n != 1 {
      assert !IsPrime(n + 1) by {
        if n + 1 >= 2 {
          assert n + 1 != 2;
          assert (n + 1) % 2 == 0;
        }
      }
    }
    if n == 1 {
      assert IsPrime(3);
    }
  }

  /** The least prime above `n`, searched from `n + 1` for every `n`. */
  method NextPrime(primesToLimit: seq<int>, n: int) returns (p: int)
    requires IsPrimesToLimit(primesToLimit)
    ensures p > n && IsPrime(p)
    ensures forall k :: n < k < p ==> !IsPrime(k)
  {
    p := FirstPrimeFrom(primesToLimit, n + 1);
  }

  /** The search of `find_next_prime(1)` starts at 3, past the prime 2. */
  lemma FindNextPrimeSkipsTwo()
    ensures SearchStart(1) == 3 && IsPrime(2) && 1 < 2 < SearchStart(1)
  {}
}
