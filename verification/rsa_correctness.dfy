/** Why textbook RSA decrypts what it encrypts: for distinct primes `p`, `q`,
    `n = p*q` and `e*d ≡ 1 (mod (p-1)*(q-1))`, every `x` in `[0, n)`
    satisfies `(x^e mod n)^d mod n == x`. The proof goes through Euclid's
    lemma (from the Bezout coefficients of `extended_gcd`), Fermat's little
    theorem (from the binomial theorem) and the Chinese remainder theorem
    for two primes. */
module RsaCorrectness {
  import opened Arith
  import opened Outcomes
  import Rsa

  // ---- Euclid's lemma -----------------------------------------------------

  /** A prime dividing a product divides one of the factors. */
  lemma EuclidLemma(p: int, a: int, b: int)
    requires IsPrime(p) && Divides(p, a * b)
    ensures Divides(p, a) || Divides(p, b)
  {
    if !Divides(p, a) {
      var t := Rsa.ExtendedGcd(a, p);
      UnitGcdWithPrime(p, a);
      EuclidFromBezout(p, a, b, t.1, t.2, t.0);
    }
  }

  /** A prime and a number it does not divide have gcd 1. */
  lemma UnitGcdWithPrime(p: int, a: int)
    requires IsPrime(p) && !Divides(p, a)
    ensures Abs(Rsa.ExtendedGcd(a, p).0) == 1
  {
    var g := Abs(Rsa.ExtendedGcd(a, p).0);
    assert Divides(g, p) by {
      DividesAbs(g, Abs(p));
    }
    if g == 0 {
      assert false;
    }
    PrimeDivisors(p, g);
    if g == p {
      DividesAbs(p, a);
      assert false;
    }
  }

  /** With `a*x + p*y == ±1`, `b == ±((a*b)*x + p*(b*y))`, so `p | a*b` gives `p | b`. */
  lemma EuclidFromBezout(p: int, a: int, b: int, x: int, y: int, g: int)
    requires a * x + p * y == g && Abs(g) == 1
    requires Divides(p, a * b)
    ensures Divides(p, b)
  {
    DividesSelf(p);
    DividesLinear(p, a * b, p, x, b * y);
    var ab := a * b;
    assert b * g == ab * x + p * (b * y) by {
      calc {
        b * g;
        b * (a * x + p * y);
        b * (a * x) + b * (p * y);
        { assert b * (a * x) == (a * b) * x; assert b * (p * y) == p * (b * y); }
        ab * x + p * (b * y);
      }
    }
    var k :| b * g == p * k;
    if g == 1 {
      assert b == p * k;
    } else {
      assert b == p * (-k);
    }
  }

  // ---- binomial coefficients ----------------------------------------------

  /** Pascal's triangle. */
  function Binomial(n: nat, k: nat): nat {
    if k == 0 then 1
    else if n == 0 then 0
    else Binomial(n - 1, k - 1) + Binomial(n - 1, k)
  }

  lemma {:induction false} BinomialAbove(n: nat, k: nat)
    requires k > n
    ensures Binomial(n, k) == 0
  {
    if n > 0 {
      BinomialAbove(n - 1, k - 1);
      BinomialAbove(n - 1, k);
    }
  }

  lemma {:induction false} BinomialDiagonal(n: nat)
    ensures Binomial(n, n) == 1
  {
    if n > 0 {
      BinomialDiagonal(n - 1);
      BinomialAbove(n - 1, n);
    }
  }

  lemma {:induction false} BinomialOne(n: nat)
    ensures Binomial(n, 1) == n
  {
    if n > 0 {
      BinomialOne(n - 1);
    }
  }

  /** `k * C(n, k) == n * C(n-1, k-1)`. */
  lemma {:induction false} BinomialAbsorption(n: nat, k: nat)
    requires n >= 1 && k >= 1
    ensures k * Binomial(n, k) == n * Binomial(n - 1, k - 1)
  {
    if k == 1 {
      BinomialOne(n);
    } else if n == 1 {
      BinomialAbove(0, k - 1);
      BinomialAbove(1, k);
    } else {
      BinomialAbsorption(n - 1, k);
      BinomialAbsorption(n - 1, k - 1);
      AbsorptionStep(n, k, Binomial(n - 1, k - 1), Binomial(n - 1, k),
                     Binomial(n - 2, k - 2), Binomial(n - 2, k - 1));
    }
  }

  /** The arithmetic of one absorption step: from Pascal's rule for
      `c0 = C(n-1,k-1) = a + b` and the two smaller identities
      `(k-1)*c0 == (n-1)*a` and `k*c1 == (n-1)*b`. */
  lemma AbsorptionStep(n: int, k: int, c0: int, c1: int, a: int, b: int)
    requires c0 == a + b && (k - 1) * c0 == (n - 1) * a && k * c1 == (n - 1) * b
    ensures k * (c0 + c1) == n * c0
  {
    calc {
      k * (c0 + c1);
      { MulAddDistrib(k, c0, c1); }
      k * c0 + k * c1;
      (k - 1) * c0 + c0 + k * c1;
      (n - 1) * a + (n - 1) * b + c0;
      { MulAddDistrib(n - 1, a, b); }
      (n - 1) * c0 + c0;
      n * c0;
    }
  }

  lemma MulAddDistrib(x: int, y: int, z: int)
    ensures x * (y + z) == x * y + x * z
    ensures (y + z) * x == y * x + z * x
  {}

  /** A prime divides every binomial coefficient strictly inside its row. */
  lemma PrimeDividesBinomial(p: int, k: nat)
    requires IsPrime(p) && 0 < k < p
    ensures Divides(p, Binomial(p, k))
  {
    BinomialAbsorption(p, k);
    assert k * Binomial(p, k) == p * Binomial(p - 1, k - 1);
    EuclidLemma(p, k, Binomial(p, k));
    if Divides(p, k) {
      DivisorBound(p, k);
    }
  }

  // ---- the binomial theorem -----------------------------------------------

  /** The first `j` terms of the expansion of `(a + 1)^n`. */
  function BinomialTerms(n: nat, a: int, j: nat): int {
    if j == 0 then 0 else BinomialTerms(n, a, j - 1) + Binomial(n, j - 1) * Pow(a, j - 1)
  }

  /** Pascal's rule, summed: the terms of row `n + 1` split into those of row
      `n` and `a` times those of row `n` shifted by one. */
  lemma {:induction false} BinomialTermsStep(n: nat, a: int, j: nat)
    ensures BinomialTerms(n + 1, a, j + 1) == BinomialTerms(n, a, j + 1) + a * BinomialTerms(n, a, j)
  {
    if j > 0 {
      BinomialTermsStep(n, a, j - 1);
      var c0, c1 := Binomial(n, j - 1), Binomial(n, j);
      var pj := Pow(a, j - 1);
      var x, y := BinomialTerms(n, a, j), BinomialTerms(n, a, j - 1);
      assert Pow(a, j) == a * pj;
      assert Binomial(n + 1, j) == c0 + c1;
      assert BinomialTerms(n + 1, a, j + 1) == x + a * y + (c0 + c1) * (a * pj);
      assert BinomialTerms(n, a, j + 1) == x + c1 * (a * pj);
      assert x == y + c0 * pj;
      TermsStepAlgebra(x, y, a, c0, c1, pj);
    }
  }

  lemma TermsStepAlgebra(x: int, y: int, a: int, c0: int, c1: int, pj: int)
    ensures x + a * y + (c0 + c1) * (a * pj) == (x + c1 * (a * pj)) + a * (y + c0 * pj)
  {
    MulAddDistrib(a * pj, c0, c1);
    MulAddDistrib(a, y, c0 * pj);
    assert c0 * (a * pj) == a * (c0 * pj);
  }

  /** `(a + 1)^n` is the sum of its `n + 1` binomial terms. */
  lemma {:induction false} BinomialTheorem(n: nat, a: int)
    ensures Pow(a + 1, n) == BinomialTerms(n, a, n + 1)
  {
    if n > 0 {
      var m := n - 1;
      BinomialTheorem(m, a);
      BinomialTermsStep(m, a, m + 1);
      BinomialAbove(m, m + 1);
      assert BinomialTerms(m, a, m + 2) == BinomialTerms(m, a, m + 1);
      calc {
        Pow(a + 1, n);
        (a + 1) * BinomialTerms(m, a, m + 1);
        BinomialTerms(m, a, m + 1) + a * BinomialTerms(m, a, m + 1);
      }
    }
  }

  /** Modulo a prime `p`, the inner terms of row `p` vanish. */
  lemma {:induction false} PrimeRowTerms(p: int, a: int, j: nat)
    requires IsPrime(p) && 1 <= j <= p
    ensures Divides(p, BinomialTerms(p, a, j) - 1)
  {
    if j == 1 {
      assert BinomialTerms(p, a, 1) == 1;
      DividesSelf(p);
    } else {
      PrimeRowTerms(p, a, j - 1);
      PrimeDividesBinomial(p, j - 1);
      DividesProduct(p, Binomial(p, j - 1), Pow(a, j - 1));
      DividesLinear(p, BinomialTerms(p, a, j - 1) - 1, Binomial(p, j - 1) * Pow(a, j - 1), 1, 1);
    }
  }

  /** `(a + 1)^p ≡ a^p + 1 (mod p)`. */
  lemma FreshmansDream(p: int, a: int)
    requires IsPrime(p)
    ensures Divides(p, Pow(a + 1, p) - Pow(a, p) - 1)
  {
    BinomialTheorem(p, a);
    PrimeRowTerms(p, a, p);
    BinomialDiagonal(p);
    assert Pow(a + 1, p) == BinomialTerms(p, a, p) + Pow(a, p);
  }

  // ---- Fermat's little theorem --------------------------------------------

  /** `a^p ≡ a (mod p)` for every `a >= 0`. */
  lemma {:induction false} FermatLittle(p: int, a: nat)
    requires IsPrime(p)
    ensures Divides(p, Pow(a, p) - a)
  {
    if a == 0 {
      assert Pow(0, p) == 0 * Pow(0, p - 1);
      DividesSelf(p);
    } else {
      FermatLittle(p, a - 1);
      FreshmansDream(p, a - 1);
      DividesLinear(p, Pow(a, p) - Pow(a - 1, p) - 1, Pow(a - 1, p) - (a - 1), 1, 1);
    }
  }

  /** `a^(p-1) ≡ 1 (mod p)` when `p` does not divide `a`. */
  lemma FermatCoprime(p: int, a: nat)
    requires IsPrime(p) && !Divides(p, a)
    ensures Divides(p, Pow(a, p - 1) - 1)
  {
    FermatLittle(p, a);
    assert Pow(a, p) - a == a * (Pow(a, p - 1) - 1);
    EuclidLemma(p, a, Pow(a, p - 1) - 1);
  }

  /** `y ≡ 1` implies `y^k ≡ 1`. */
  lemma {:induction false} PowOfOne(p: int, y: int, k: nat)
    requires Divides(p, y - 1)
    ensures Divides(p, Pow(y, k) - 1)
  {
    if k == 0 {
      DividesSelf(p);
    } else {
      PowOfOne(p, y, k - 1);
      assert Pow(y, k) - 1 == (Pow(y, k - 1) - 1) * y + (y - 1);
      DividesLinear(p, Pow(y, k - 1) - 1, y - 1, y, 1);
    }
  }

  /** `x^(1 + k*(p-1)) ≡ x (mod p)` for every `x >= 0`. */
  lemma FermatPower(p: int, x: nat, k: nat)
    requires IsPrime(p)
    ensures Divides(p, Pow(x, 1 + k * (p - 1)) - x)
  {
    var m := k * (p - 1);
    assert Pow(x, 1 + m) == x * Pow(x, m);
    if Divides(p, x) {
      DividesLinear(p, x, x, Pow(x, m), -1);
      assert x * Pow(x, m) + x * (-1) == Pow(x, 1 + m) - x;
    } else {
      FermatCoprime(p, x);
      PowMul(x, p - 1, k);
      assert m == (p - 1) * k;
      PowOfOne(p, Pow(x, p - 1), k);
      DividesProduct(p, Pow(x, m) - 1, x);
      assert (Pow(x, m) - 1) * x == Pow(x, 1 + m) - x;
    }
  }

  // ---- the Chinese remainder theorem for two primes -----------------------

  /** A number divisible by two distinct primes is divisible by their product. */
  lemma TwoPrimes(p: int, q: int, z: int)
    requires IsPrime(p) && IsPrime(q) && p != q
    requires Divides(p, z) && Divides(q, z)
    ensures Divides(p * q, z)
  {
    var s :| z == p * s;
    EuclidLemma(q, p, s);
    if Divides(q, p) {
      PrimeDivisors(p, q);
      assert false;
    }
    var u :| s == q * u;
    assert z == (p * q) * u;
  }

  // ---- RSA ----------------------------------------------------------------

  /** Exponentiation modulo `n` composes: `(x^e mod n)^d mod n == x^(e*d) mod n`. */
  lemma PowPowMod(x: int, e: nat, d: nat, n: int)
    requires n > 0
    ensures Pow(Pow(x, e) % n, d) % n == Pow(x, e * d) % n
  {
    PowMod(Pow(x, e), d, n);
    PowMul(x, e, d);
  }

  /** The RSA identity: decryption undoes encryption on every `x` in `[0, n)`. */
  lemma RsaIdentity(p: int, q: int, e: nat, d: nat, x: nat)
    requires IsPrime(p) && IsPrime(q) && p != q
    requires (e * d) % ((p - 1) * (q - 1)) == 1
    requires x < p * q
    ensures Pow(Pow(x, e) % (p * q), d) % (p * q) == x
  {
    var n := p * q;
    var s, t := ExponentSplit(p, q, e * d);
    FermatPower(p, x, s);
    FermatPower(q, x, t);
    TwoPrimes(p, q, Pow(x, e * d) - x);
    MulSign(p, q);
    ResidueOfCongruent(Pow(x, e * d), x, n);
    PowPowMod(x, e, d, n);
  }

  /** An exponent `≡ 1 (mod (p-1)*(q-1))` is `≡ 1` modulo both `p - 1` and `q - 1`. */
  lemma ExponentSplit(p: int, q: int, ed: nat) returns (s: nat, t: nat)
    requires p >= 2 && q >= 2 && ed % ((p - 1) * (q - 1)) == 1
    ensures ed == 1 + s * (p - 1) && ed == 1 + t * (q - 1)
  {
    var phi := (p - 1) * (q - 1);
    MulSign(p - 1, q - 1);
    var k := ed / phi;
    assert ed == phi * k + 1;
    assert k >= 0 by {
      if k < 0 {
        MulSign(phi, -k);
      }
    }
    MulSign(k, q - 1);
    MulSign(k, p - 1);
    s, t := k * (q - 1), k * (p - 1);
    assert phi * k == s * (p - 1) && phi * k == t * (q - 1);
  }

  /** A number in `[0, n)` congruent to `y` modulo `n` is `y % n`. */
  lemma ResidueOfCongruent(y: int, x: int, n: int)
    requires n > 0 && 0 <= x < n && Divides(n, y - x)
    ensures y % n == x
  {
    var k :| y - x == n * k;
    DivModUnique(y, n, k, x);
  }

  /** `decrypt(private_key, encrypt(public_key, m)) == m` for a key pair built
      from distinct primes with `e*d ≡ 1 (mod (p-1)*(q-1))`, whenever every
      code point of `m` is below `n`. */
  lemma DecryptEncrypt(p: int, q: int, e: nat, d: nat, m: seq<Rsa.CodePoint>)
    requires IsPrime(p) && IsPrime(q) && p != q
    requires (e * d) % ((p - 1) * (q - 1)) == 1
    requires forall i :: 0 <= i < |m| ==> m[i] < p * q
    ensures Rsa.Encrypt(Rsa.Key(e, p * q), m).Ok?
    ensures Rsa.Decrypt(Rsa.Key(d, p * q), Rsa.Encrypt(Rsa.Key(e, p * q), m).value) == Ok(m)
  {
    var n := p * q;
    MulSign(p, q);
    var c := Rsa.Encrypt(Rsa.Key(e, n), m).value;
    if |m| > 0 {
      var plain := seq(|c|, i requires 0 <= i < |c| => Rsa.FloorMod(Pow(c[i], d), n));
      forall i | 0 <= i < |m|
        ensures plain[i] == m[i]
      {
        Rsa.FloorModPositive(Pow(m[i], e), n);
        Rsa.FloorModPositive(Pow(c[i], d), n);
        RsaIdentity(p, q, e, d, m[i]);
      }
      assert forall i :: 0 <= i < |plain| ==> 0 <= plain[i] <= 0x10FFFF;
      assert seq(|plain|, i requires 0 <= i < |plain| => plain[i] as Rsa.CodePoint) == m;
    }
  }
}
