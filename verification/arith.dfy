/** Integer vocabulary shared by the RSA, sieve and padding models:
    powers, divisibility, primality and the greatest common divisor,
    with the arithmetic facts the proofs about them rest on. */
module Arith {

  function Pow(b: int, e: nat): int
    decreases e
  {
    if e == 0 then 1 else b * Pow(b, e - 1)
  }

  /** `d` divides `n` (every `d` divides 0; 0 divides only 0). */
  ghost predicate Divides(d: int, n: int) {
    exists k: int :: n == d * k
  }

  /** Primality by trial division over every candidate below `n`. */
  predicate IsPrime(n: int) {
    n >= 2 && forall d :: 2 <= d < n ==> n % d != 0
  }

  /** `g` is the greatest common divisor of `a` and `b`: a common divisor
      that every common divisor divides. */
  ghost predicate IsGcd(g: nat, a: nat, b: nat) {
    && Divides(g, a) && Divides(g, b)
    && forall d: int :: Divides(d, a) && Divides(d, b) ==> Divides(d, g)
  }

  // ---- powers -------------------------------------------------------------

  lemma {:induction false} PowAdd(b: int, m: nat, n: nat)
    ensures Pow(b, m + n) == Pow(b, m) * Pow(b, n)
  {
    if m > 0 {
      PowAdd(b, m - 1, n);
      calc {
        Pow(b, m + n);
        b * Pow(b, (m - 1) + n);
        b * (Pow(b, m - 1) * Pow(b, n));
        (b * Pow(b, m - 1)) * Pow(b, n);
      }
    }
  }

  lemma {:induction false} PowMul(b: int, m: nat, n: nat)
    ensures Pow(b, m * n) == Pow(Pow(b, m), n)
  {
    if n > 0 {
      calc {
        Pow(b, m * n);
        { assert m * n == m * (n - 1) + m; }
        Pow(b, m * (n - 1) + m);
        { PowAdd(b, m * (n - 1), m); }
        Pow(b, m * (n - 1)) * Pow(b, m);
        { PowMul(b, m, n - 1); }
        Pow(Pow(b, m), n - 1) * Pow(b, m);
        Pow(Pow(b, m), n);
      }
    }
  }

  lemma {:induction false} PowNonNegative(b: int, e: nat)
    requires b >= 0
    ensures Pow(b, e) >= 0
    ensures b > 0 ==> Pow(b, e) > 0
  {
    if e > 0 {
      PowNonNegative(b, e - 1);
      MulSign(b, Pow(b, e - 1));
    }
  }

  lemma MulSign(x: int, y: int)
    requires x >= 0 && y >= 0
    ensures x * y >= 0
    ensures x > 0 && y > 0 ==> x * y > 0
  {}

  // ---- Euclidean division -------------------------------------------------

  /** The quotient and remainder are the only pair with `x == m*q + r`, `0 <= r < m`. */
  lemma DivModUnique(x: int, m: int, q: int, r: int)
    requires m > 0 && 0 <= r < m && x == m * q + r
    ensures x / m == q && x % m == r
  {
    var q', r' := x / m, x % m;
    assert m * (q - q') == r' - r;
    MulBetween(m, q - q');
  }

  lemma MulBetween(m: int, t: int)
    requires m > 0 && -m < m * t < m
    ensures t == 0
  {
    if t >= 1 {
      MulAtLeast(m, t);
    } else if t <= -1 {
      MulAtLeast(m, -t);
    }
  }

  lemma MulAtLeast(m: int, t: int)
    requires m > 0 && t >= 1
    ensures m * t >= m
  {}

  lemma ModAddMultiple(k: int, r: int, m: int)
    requires m > 0
    ensures (m * k + r) % m == r % m
  {
    var q := r / m;
    assert r == m * q + r % m;
    assert m * k + r == m * (k + q) + r % m;
    DivModUnique(m * k + r, m, k + q, r % m);
  }

  lemma MulMod(a: int, b: int, m: int)
    requires m > 0
    ensures (a * b) % m == ((a % m) * (b % m)) % m
  {
    var qa, ra := a / m, a % m;
    var qb, rb := b / m, b % m;
    assert a * b == m * (qa * m * qb + qa * rb + ra * qb) + ra * rb by {
      assert a == m * qa + ra && b == m * qb + rb;
    }
    ModAddMultiple(qa * m * qb + qa * rb + ra * qb, ra * rb, m);
  }

  lemma ModOfMod(a: int, n: int)
    requires n > 0
    ensures (a % n) % n == a % n
  {
    DivModUnique(a % n, n, 0, a % n);
  }

  lemma {:induction false} PowMod(b: int, e: nat, m: int)
    requires m > 0
    ensures Pow(b % m, e) % m == Pow(b, e) % m
  {
    if e > 0 {
      var x := b % m;
      var px, pb := Pow(x, e - 1), Pow(b, e - 1);
      assert Pow(x, e) == x * px;
      assert Pow(b, e) == b * pb;
      MulMod(x, px, m);
      MulMod(b, pb, m);
      PowMod(b, e - 1, m);
      ModOfMod(b, m);
      ProductOfEqualResidues(x % m, px % m, b % m, pb % m, m);
    }
  }

  lemma ProductOfEqualResidues(a: int, b: int, c: int, d: int, m: int)
    requires m > 0 && a == c && b == d
    ensures (a * b) % m == (c * d) % m
  {}

  // ---- divisibility -------------------------------------------------------

  lemma DividesByMod(d: int, n: int)
    requires d > 0
    ensures Divides(d, n) <==> n % d == 0
  {
    if n % d == 0 {
      assert n == d * (n / d);
    }
    if Divides(d, n) {
      var k :| n == d * k;
      DivModUnique(n, d, k, 0);
    }
  }

  lemma DividesLinear(d: int, a: int, b: int, x: int, y: int)
    requires Divides(d, a) && Divides(d, b)
    ensures Divides(d, a * x + b * y)
  {
    var ka :| a == d * ka;
    var kb :| b == d * kb;
    assert a * x + b * y == d * (ka * x + kb * y);
  }

  lemma DividesProduct(d: int, a: int, x: int)
    requires Divides(d, a)
    ensures Divides(d, a * x)
  {
    var k :| a == d * k;
    assert a * x == d * (k * x);
  }

  lemma DividesTransitive(a: int, b: int, c: int)
    requires Divides(a, b) && Divides(b, c)
    ensures Divides(a, c)
  {
    var k :| b == a * k;
    var l :| c == b * l;
    assert c == a * (k * l);
  }

  lemma DividesSelf(d: int)
    ensures Divides(d, d) && Divides(d, 0)
  {
    assert d == d * 1 && 0 == d * 0;
  }

  /** A positive number's positive divisors are no larger than it. */
  lemma DivisorBound(d: int, n: int)
    requires d > 0 && n > 0 && Divides(d, n)
    ensures d <= n
  {
    var k :| n == d * k;
    if k <= 0 {
      MulSign(d, -k);
    } else {
      assert d * k >= d * 1;
    }
  }

  /** Two non-negative numbers that divide each other are equal. */
  lemma DividesAntisymmetric(a: nat, b: nat)
    requires Divides(a, b) && Divides(b, a)
    ensures a == b
  {
    if a == 0 {
      var k :| b == a * k;
    } else if b == 0 {
      var k :| a == b * k;
    } else {
      DivisorBound(a, b);
      DivisorBound(b, a);
    }
  }

  /** The gcd of two numbers is unique. */
  lemma GcdUnique(g: nat, h: nat, a: nat, b: nat)
    requires IsGcd(g, a, b) && IsGcd(h, a, b)
    ensures g == h
  {
    DividesAntisymmetric(g, h);
  }

  /** The only positive divisors of a prime `p` are 1 and `p`. */
  lemma PrimeDivisors(p: int, d: int)
    requires IsPrime(p) && d > 0 && Divides(d, p)
    ensures d == 1 || d == p
  {
    DivisorBound(d, p);
    DividesByMod(d, p);
  }

  // ---- absolute values ----------------------------------------------------

  function Abs(x: int): (r: nat)
    ensures r == x || r == -x
  {
    if x < 0 then -x else x
  }

  /** Divisibility ignores signs. */
  lemma DividesAbs(d: int, n: int)
    ensures Divides(d, n) <==> Divides(Abs(d), Abs(n))
  {
    if Divides(d, n) {
      var k :| n == d * k;
      if d < 0 && n < 0 {
        assert Abs(n) == Abs(d) * k;
      } else if d < 0 {
        assert Abs(n) == Abs(d) * (-k);
      } else if n < 0 {
        assert Abs(n) == Abs(d) * (-k);
      } else {
        assert Abs(n) == Abs(d) * k;
      }
    }
    if Divides(Abs(d), Abs(n)) {
      var k :| Abs(n) == Abs(d) * k;
      if (d < 0) == (n < 0) {
        assert n == d * k;
      } else {
        assert n == d * (-k);
      }
    }
  }

  // ---- prime factors ------------------------------------------------------

  /** The least `d >= k` that divides `n`. */
  function LeastDivisorFrom(n: int, k: int): (d: int)
    requires 2 <= k <= n
    ensures k <= d <= n && n % d == 0
    ensures forall j :: k <= j < d ==> n % j != 0
    decreases n - k
  {
    if n % k == 0 then k else LeastDivisorFrom(n, k + 1)
  }

  /** The least divisor of `n` from 2 up is a prime. */
  lemma LeastDivisorIsPrime(n: int)
    requires n >= 2
    ensures IsPrime(LeastDivisorFrom(n, 2))
  {
    var p := LeastDivisorFrom(n, 2);
    forall j | 2 <= j < p
      ensures p % j != 0
    {
      if p % j == 0 {
        DividesByMod(j, p);
        DividesByMod(p, n);
        DividesTransitive(j, p, n);
        DividesByMod(j, n);
      }
    }
  }

  /** A number from 2 up that is not prime has a prime factor no larger than
      its square root. */
  lemma SmallPrimeFactor(n: int) returns (p: int)
    requires n >= 2 && !IsPrime(n)
    ensures IsPrime(p) && p * p <= n && n % p == 0
  {
    p := LeastDivisorFrom(n, 2);
    LeastDivisorIsPrime(n);
    var j :| 2 <= j < n && n % j == 0;
    assert p < n;
    var k := CofactorBounds(n, p);
    if k < p {
      assert n % k != 0;
      DivModUnique(n, k, p, 0);
      assert false;
    }
    MulMonotone(p, p, k);
  }

  /** The cofactor of a proper divisor `p` of `n` lies in `[2, n)`. */
  lemma CofactorBounds(n: int, p: int) returns (k: int)
    requires 2 <= p < n && n % p == 0
    ensures n == p * k && 2 <= k < n
  {
    k := n / p;
    if k <= 1 {
      MulAtMost(p, k);
    }
    if k >= n {
      MulMonotone(k, 2, p);
    }
  }

  lemma MulAtMost(p: int, k: int)
    requires p > 0 && k <= 1
    ensures p * k <= p
  {}

  lemma MulMonotone(x: int, a: int, b: int)
    requires x >= 0 && a <= b
    ensures x * a <= x * b
  {}

  /** `n!` */
  function Factorial(n: nat): (r: nat)
    ensures r >= 1
  {
    if n == 0 then 1 else n * Factorial(n - 1)
  }

  lemma {:induction false} FactorialDivisible(n: nat, k: int)
    requires 1 <= k <= n
    ensures Factorial(n) % k == 0
  {
    var f := Factorial(n - 1);
    assert Factorial(n) == n * f;
    if k == n {
      MultipleMod(f, n, k);
    } else {
      FactorialDivisible(n - 1, k);
      MultipleMod(n, f, k);
    }
  }

  /** A multiple of a multiple of `k` is a multiple of `k`. */
  lemma MultipleMod(a: int, b: int, k: int)
    requires k > 0 && b % k == 0
    ensures (a * b) % k == 0
  {
    var q := b / k;
    assert b == k * q;
    assert a * b == k * (a * q);
    DivModUnique(a * b, k, a * q, 0);
  }

  /** There are primes beyond every bound (Euclid). */
  lemma PrimeAtLeast(m: int) returns (p: int)
    ensures IsPrime(p) && p >= m
  {
    if m <= 2 {
      p := 2;
    } else {
      var n := Factorial(m) + 1;
      p := LeastDivisorFrom(n, 2);
      LeastDivisorIsPrime(n);
      if p < m {
        FactorialDivisible(m, p);
        DivModUnique(n, p, Factorial(m) / p, 1);
      }
    }
  }
}
