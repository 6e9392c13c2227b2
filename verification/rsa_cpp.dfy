/** The C++ RSA of `crypto_algs/cpp/rsa.cpp`: Euclid's gcd on `int`,
    square-and-multiply `mod_exp` on `long long`, the extended Euclidean
    inverse with `t/newt/r/newr`, and string encryption one character at a
    time. Fixed-width integers are newtypes, so every arithmetic operation
    is checked not to overflow. */
module RsaCpp {
  import opened Arith
  import Rsa
  import RsaCorrectness
  import ByteCodec

  newtype Int32 = x: int | -0x8000_0000 <= x < 0x8000_0000
  newtype Int64 = x: int | -0x8000_0000_0000_0000 <= x < 0x8000_0000_0000_0000

  /** C++ `/` truncates toward zero. */
  function TruncDiv(a: int, b: int): int
    requires b != 0
  {
    if (a >= 0) == (b > 0) then Abs(a) / Abs(b) else -(Abs(a) / Abs(b))
  }

  /** C++ `%`: what is left after `/`; the remainder has the dividend's sign
      and is smaller than the divisor in absolute value. */
  function TruncRem(a: int, b: int): (r: int)
    requires b != 0
    ensures Abs(r) < Abs(b)
    ensures a >= 0 ==> r >= 0
    ensures a < 0 ==> r <= 0
  {
    a - b * TruncDiv(a, b)
  }

  /** `gcd(a, b)` on `int`: the loop `tmp = b; b = a % b; a = tmp`. No
      intermediate value leaves the `int` range as long as neither argument
      is INT_MIN (whose remainder by -1 is undefined). */
  method Gcd(a: Int32, b: Int32) returns (g: Int32)
    requires a != -0x8000_0000 && b != -0x8000_0000
    ensures IsGcd(Abs(g as int), Abs(a as int), Abs(b as int))
    ensures a >= 0 && b >= 0 ==> g >= 0
  {
    var x, y := a, b;
    DividesSelf(0);
    while y != 0
      invariant x != -0x8000_0000 && y != -0x8000_0000
      invariant Rsa.SameCommonDivisors(x as int, y as int, a as int, b as int)
      invariant a >= 0 && b >= 0 ==> x >= 0 && y >= 0
      decreases Abs(y as int)
    {
      var r := TruncRem(x as int, y as int);
      Rsa.CommonDivisorsStep(x as int, y as int, TruncDiv(x as int, y as int));
      var tmp := y;
      y := r as Int32;
      x := tmp;
    }
    Rsa.GcdOfCommonDivisors(x as int, a as int, b as int);
    g := x;
  }

  // ---- modular exponentiation ---------------------------------------------

  /** What `mod_exp(base, exp, mod)` returns: `base^exp mod mod`, except that
      an exponent of 0 yields 1 even for `mod == 1`. */
  function ModExpSpec(base: nat, exp: nat, mod: nat): (r: nat)
    requires mod >= 1
    ensures mod > 1 ==> r == Pow(base, exp) % mod
  {
    if exp == 0 then 1 else Pow(base, exp) % mod
  }

  /** `result * base^exp` modulo `mod`: the quantity the loop keeps fixed. */
  ghost function Invariant(result: int, base: int, exp: nat, mod: int): int
    requires mod > 0
  {
    (result * Pow(base, exp)) % mod
  }

  /** `mod_exp(base, exp, mod)` by square and multiply. With `mod < 2^31`
      every product of two reduced values stays below `2^62`, so none
      overflows `long long`. */
  method ModExp(base: Int64, exp: Int64, mod: Int64) returns (result: Int64)
    requires base >= 0 && exp >= 0 && 1 <= mod < 0x8000_0000
    ensures result as int == ModExpSpec(base as nat, exp as nat, mod as nat)
  {
    ghost var b0, e0, m := base as nat, exp as nat, mod as int;
    result := 1;
    var b := base % mod;
    var e := exp;
    PowMod(b0, e0, m);
    while e > 0
      invariant 0 <= b < mod && 0 <= e
      invariant result == 1 || 0 <= result < mod
      invariant e0 > 0 && e == 0 ==> result < mod
      invariant e0 == 0 ==> result == 1
      invariant Invariant(result as int, b as int, e as nat, m) == Pow(b0, e0) % m
      decreases e
    {
      ghost var r0, bb, ee := result as int, b as int, e as nat;
      if e % 2 == 1 {
        ProductBound(result as int, b as int);
        result := (result * b) % mod;
      }
      e := e / 2;
      ProductBound(b as int, b as int);
      b := (b * b) % mod;
      SquareStep(r0, bb, ee, m);
    }
    assert Pow(b as int, 0) == 1;
    if e0 > 0 {
      DivModUnique(result as int, m, 0, result as int);
    }
  }

  /** The product of two values below `2^31` fits a `long long`. */
  lemma ProductBound(x: int, y: int)
    requires 0 <= x < 0x8000_0000 && 0 <= y < 0x8000_0000
    ensures 0 <= x * y < 0x4000_0000_0000_0000
  {
    MulSign(x, y);
    MulMonotone(x, y, 0x8000_0000);
    MulMonotone(0x8000_0000, x, 0x8000_0000);
  }

  /** One round of square and multiply keeps `result * base^exp mod m`. */
  lemma SquareStep(r: int, b: int, e: nat, m: int)
    requires m > 0 && e > 0
    ensures e % 2 == 1 ==> Invariant((r * b) % m, (b * b) % m, e / 2, m) == Invariant(r, b, e, m)
    ensures e % 2 == 0 ==> Invariant(r, (b * b) % m, e / 2, m) == Invariant(r, b, e, m)
  {
    var h := e / 2;
    PowMul(b, 2, h);
    assert Pow(b, 2) == b * b;
    PowMod(b * b, h, m);
    var P := Pow(b * b, h);
    var Q := Pow((b * b) % m, h);
    assert Q % m == P % m;
    if e % 2 == 1 {
      assert Pow(b, e) == b * P by {
        assert e == 1 + 2 * h;
      }
      MulMod((r * b) % m, Q, m);
      MulMod(r * b, P, m);
      ModOfMod(r * b, m);
      assert r * Pow(b, e) == (r * b) * P;
    } else {
      assert e == 2 * h;
      MulMod(r, Q, m);
      MulMod(r, P, m);
    }
  }

  // ---- modular inverse ----------------------------------------------------

  /** `mod_inverse(e, phi)` on `int`: the extended Euclidean algorithm on
      `(r, newr)` starting from `(phi, e)`, keeping the coefficients `t`
      with `e*t ≡ r (mod phi)`. It returns -1 when the last nonzero
      remainder (the gcd) exceeds 1; otherwise `t`, moved into `[0, phi)`.
      The coefficients never exceed `phi` in absolute value, so no step
      overflows `int`. */
  method ModInverse(e: Int32, phi: Int32) returns (d: Int32)
    requires e >= 0 && phi >= 1
    ensures d == -1 <==> !IsGcd(1, e as nat, phi as nat)
    ensures d != -1 ==> Divides(phi as int, e as int * d as int - 1)
    ensures d != -1 && phi > 1 ==> 0 <= d < phi && (e as int * d as int) % phi as int == 1
  {
    var t, r := InverseLoop(e, phi);
    // r is now the gcd of phi and e
    Rsa.GcdOfCommonDivisors(r as int, phi as int, e as int);
    GcdSymmetric(r as nat, phi as nat, e as nat);
    if r > 1 {
      if IsGcd(1, e as nat, phi as nat) {
        GcdUnique(1, r as nat, e as nat, phi as nat);
      }
      return -1;
    }
    if t < 0 {
      InverseShift(phi as int, e as int, t as int);
      t := t + phi;
    }
    d := t;
    if phi > 1 {
      RsaCorrectness.ResidueOfCongruent(e as int * d as int, 1, phi as int);
    }
  }

  /** The `while (newr != 0)` loop of `mod_inverse`: on exit `r` has the same
      common divisors as `phi` and `e` (so it is their gcd), `e*t ≡ r (mod
      phi)`, and `t` is no larger than `phi` in absolute value (at most half
      of it when `phi > 1`). */
  method InverseLoop(e: Int32, phi: Int32) returns (t: Int32, r: Int32)
    requires e >= 0 && phi >= 1
    ensures r >= 1
    ensures Rsa.SameCommonDivisors(r as int, 0, phi as int, e as int)
    ensures Divides(phi as int, e as int * t as int - r as int)
    ensures Abs(t as int) <= phi as int
    ensures phi > 1 ==> 2 * Abs(t as int) <= phi as int
  {
    var newt: Int32, newr: Int32;
    t, newt := 0, 1;
    r, newr := phi, e;
    DividesSelf(0);
    DividesSelf(phi as int);
    assert Divides(phi as int, 1 * (e as int) - e as int) by {
      assert 1 * (e as int) - e as int == phi as int * 0;
    }
    assert Divides(phi as int, 0 * (e as int) - phi as int) by {
      assert 0 * (e as int) - phi as int == phi as int * -1;
    }
    while newr != 0
      invariant InverseInvariant(phi as int, e as int, t as int, newt as int, r as int, newr as int)
      decreases newr
    {
      ghost var t0, nt0, r0, nr0 := t as int, newt as int, r as int, newr as int;
      InverseStep(phi as int, e as int, t0, nt0, r0, nr0, r0 / nr0);
      var quotient := r / newr;
      var temp := newt;
      newt := t - quotient * newt;
      t := temp;
      temp := newr;
      newr := r - quotient * newr;
      r := temp;
    }
  }

  /** The invariant of the loop of `mod_inverse`: the remainders keep the
      common divisors of `phi` and `e` and fall; each coefficient satisfies
      `e*t ≡ r (mod phi)`; the coefficients alternate in sign and stay within
      `phi` (half of it once the first step is done, when `phi > 1`). */
  ghost predicate InverseInvariant(phi: int, e: int, t: int, nt: int, r: int, nr: int) {
    && phi >= 1
    && 0 <= nr && 0 <= r
    && ((t == 0 && nt == 1 && r == phi && nr == e) || nr < r)
    && Rsa.SameCommonDivisors(r, nr, phi, e)
    && Divides(phi, e * t - r)
    && Divides(phi, e * nt - nr)
    && t * nt <= 0
    && Abs(nt) * r + Abs(t) * nr == phi
    && (phi > 1 ==> 2 * Abs(t) <= phi)
    && Abs(t) <= phi
  }

  /** `0 <= r / nr <= r` and `r / nr` whole multiples of `nr` fit in `r`. */
  lemma QuotientBounds(r: int, nr: int)
    requires 0 <= r && 0 < nr
    ensures 0 <= r / nr <= r && 0 <= (r / nr) * nr <= r && 0 <= r - (r / nr) * nr < nr
  {
    var q := r / nr;
    assert r == nr * q + r % nr;
    if q < 0 {
      MulAtLeast(nr, -q);
    }
    MulAtLeast(nr, 1);
    if q > 0 {
      MulMonotone(q, 1, nr);
    }
  }

  /** One pass of the loop keeps the invariant, and none of its products
      leaves `[-phi, phi]`. */
  lemma InverseStep(phi: int, e: int, t: int, nt: int, r: int, nr: int, q: int)
    requires InverseInvariant(phi, e, t, nt, r, nr) && nr != 0 && q == r / nr
    ensures InverseInvariant(phi, e, nt, t - q * nt, nr, r - q * nr)
    ensures Abs(t - q * nt) <= phi && Abs(q * nt) <= phi
    ensures 0 <= q <= r && 0 <= q * nr <= r && 0 <= r - q * nr < nr
  {
    QuotientBounds(r, nr);
    InverseStepBounds(t, nt, r, nr, q, phi);
    InverseStepDivisors(phi, e, r, nr, q);
    InverseStepCongruence(phi, e, t, nt, r, nr, q);
  }

  /** One step keeps the common divisors of the remainders those of `phi`
      and `e`. */
  lemma InverseStepDivisors(phi: int, e: int, r: int, nr: int, q: int)
    requires Rsa.SameCommonDivisors(r, nr, phi, e)
    ensures Rsa.SameCommonDivisors(nr, r - q * nr, phi, e)
  {
    Rsa.CommonDivisorsStep(r, nr, q);
    var rem := r - q * nr;
    assert rem == r - nr * q;
    forall d
      ensures Divides(d, nr) && Divides(d, rem) <==> Divides(d, phi) && Divides(d, e)
    {
      assert Divides(d, nr) && Divides(d, rem) <==> Divides(d, r) && Divides(d, nr);
    }
  }

  lemma InverseStepBounds(t: int, nt: int, r: int, nr: int, q: int, phi: int)
    requires 0 < nr && 0 <= r && phi >= 1 && q == r / nr
    requires (t == 0 && nt == 1 && r == phi) || nr < r
    requires t * nt <= 0
    requires Abs(nt) * r + Abs(t) * nr == phi
    ensures 0 <= r - q * nr < nr
    ensures nt * (t - q * nt) <= 0
    ensures Abs(t - q * nt) * nr + Abs(nt) * (r - q * nr) == phi
    ensures Abs(t - q * nt) <= phi && Abs(q * nt) <= phi
    ensures phi > 1 ==> 2 * Abs(nt) <= phi
    ensures Abs(nt) <= phi
  {
    InverseStepIdentity(t, nt, r, nr, q, phi);
    var a, b := Abs(t - q * nt), Abs(nt);
    var rem := r - q * nr;
    MulSign(b, rem);
    FactorBound(a, nr, b * rem, phi, 1);
    MulSign(Abs(t), nr);
    FactorBound(b, r, Abs(t) * nr, phi, 1);
    if phi > 1 {
      FactorBound(b, r, Abs(t) * nr, phi, 2);
    }
  }

  /** The remainder, sign and identity part of one step of the inverse loop. */
  lemma InverseStepIdentity(t: int, nt: int, r: int, nr: int, q: int, phi: int)
    requires 0 < nr && 0 <= r && q == r / nr
    requires t * nt <= 0
    requires Abs(nt) * r + Abs(t) * nr == phi
    ensures 0 <= r - q * nr < nr && q >= 0
    ensures nt * (t - q * nt) <= 0
    ensures Abs(q * nt) <= Abs(t - q * nt)
    ensures Abs(t - q * nt) * nr + Abs(nt) * (r - q * nr) == phi
  {
    DivModUnique(r, nr, q, r % nr);
    AlternatingCoefficient(t, nt, q);
    Rearrange(Abs(nt), Abs(t), q, nr, r);
  }

  /** From `a*b + c == phi` with `b >= k >= 1` and `c >= 0`: `k*a <= phi`. */
  lemma FactorBound(a: nat, b: int, c: int, phi: int, k: int)
    requires 1 <= k <= b && c >= 0 && a * b + c == phi
    ensures k * a <= phi
  {
    MulMonotone(a, k, b);
  }

  /** With `t` and `nt` of opposite signs and `q >= 0`, `t - q*nt` has the
      sign of `t` and the absolute value `|t| + q*|nt|`. */
  lemma AlternatingCoefficient(t: int, nt: int, q: int)
    requires t * nt <= 0 && q >= 0
    ensures Abs(q * nt) == q * Abs(nt)
    ensures Abs(t - q * nt) == Abs(t) + q * Abs(nt)
    ensures nt * (t - q * nt) <= 0
  {
    var nt' := t - q * nt;
    MulSign(q, Abs(nt));
    if nt > 0 {
      SignOfProduct(t, nt);
      assert nt' <= 0;
      MulSign(nt, -nt');
    } else if nt < 0 {
      SignOfProduct(-t, -nt);
      assert q * nt == -(q * Abs(nt));
      assert nt' >= 0;
      MulSign(-nt, nt');
    }
  }

  lemma SignOfProduct(x: int, y: int)
    requires x * y <= 0 && y > 0
    ensures x <= 0
  {
    if x > 0 { MulSign(x, y); }
  }

  /** `(T + q*A)*nr + A*(r - q*nr) == T*nr + A*r`. */
  lemma Rearrange(a: int, t: int, q: int, nr: int, r: int)
    ensures (t + q * a) * nr + a * (r - q * nr) == t * nr + a * r
  {
    assert (t + q * a) * nr == t * nr + (q * a) * nr;
    assert a * (r - q * nr) == a * r - a * (q * nr);
    assert (q * a) * nr == a * (q * nr);
  }

  /** One step of the inverse loop keeps `e*t ≡ r (mod phi)` for both pairs. */
  lemma InverseStepCongruence(phi: int, e: int, t: int, nt: int, r: int, nr: int, q: int)
    requires Divides(phi, e * t - r) && Divides(phi, e * nt - nr)
    ensures Divides(phi, e * (t - q * nt) - (r - q * nr))
  {
    DividesLinear(phi, e * t - r, e * nt - nr, 1, -q);
    assert (e * t - r) * 1 + (e * nt - nr) * (-q) == e * (t - q * nt) - (r - q * nr);
  }

  /** Adding `phi` to an inverse modulo `phi` gives another one. */
  lemma InverseShift(phi: int, e: int, t: int)
    requires Divides(phi, e * t - 1)
    ensures Divides(phi, e * (t + phi) - 1)
  {
    var k :| e * t - 1 == phi * k;
    RsaCorrectness.MulAddDistrib(e, t, phi);
    assert e * (t + phi) - 1 == phi * (k + e);
  }

  lemma GcdSymmetric(g: nat, a: nat, b: nat)
    requires IsGcd(g, a, b)
    ensures IsGcd(g, b, a)
  {}

  // ---- strings ------------------------------------------------------------

  /** A 7-bit character: `static_cast<int>` of it is its code, whatever the
      signedness of `char`. */
  predicate IsAscii(s: seq<char>) {
    forall i :: 0 <= i < |s| ==> s[i] as int < 128
  }

  /** `encrypt_string(message, e, n)`: `mod_exp(ch, e, n)` for every
      character, in order. */
  method EncryptString(message: seq<char>, e: Int32, n: Int32) returns (encrypted: seq<Int64>)
    requires IsAscii(message) && e >= 0 && n >= 1
    ensures |encrypted| == |message|
    ensures forall i :: 0 <= i < |message| ==>
      encrypted[i] as int == ModExpSpec(message[i] as nat, e as nat, n as nat)
  {
    encrypted := [];
    for i := 0 to |message|
      invariant |encrypted| == i
      invariant forall j :: 0 <= j < i ==>
        encrypted[j] as int == ModExpSpec(message[j] as nat, e as nat, n as nat)
    {
      var m := message[i] as int as Int64;
      var c := ModExp(m, e as Int64, n as Int64);
      encrypted := encrypted + [c];
    }
  }

  /** `decrypt_string(encrypted, d, n)`: `mod_exp(c, d, n)` for every number,
      cast to `char` (its low eight bits). */
  method DecryptString(encrypted: seq<Int64>, d: Int32, n: Int32) returns (decrypted: seq<bv8>)
    requires forall i :: 0 <= i < |encrypted| ==> encrypted[i] >= 0
    requires d >= 0 && n >= 1
    ensures |decrypted| == |encrypted|
    ensures forall i :: 0 <= i < |encrypted| ==>
      decrypted[i] as int == ModExpSpec(encrypted[i] as nat, d as nat, n as nat) % 256
  {
    decrypted := [];
    for i := 0 to |encrypted|
      invariant |decrypted| == i
      invariant forall j :: 0 <= j < i ==>
        decrypted[j] as int == ModExpSpec(encrypted[j] as nat, d as nat, n as nat) % 256
    {
      var m := ModExp(encrypted[i], d as Int64, n as Int64);
      decrypted := decrypted + [ByteCodec.ByteOf((m % 256) as int)];
    }
  }

  /** `decrypt_string(encrypt_string(message))` gives back the bytes of an
      ASCII message under an RSA key pair from distinct primes `p`, `q` with
      `p*q` above every character code. */
  lemma DecryptStringEncryptString(p: int, q: int, e: nat, d: nat, message: seq<char>)
    requires IsPrime(p) && IsPrime(q) && p != q
    requires (e * d) % ((p - 1) * (q - 1)) == 1
    requires IsAscii(message) && 128 <= p * q
    ensures forall i :: 0 <= i < |message| ==>
      ModExpSpec(ModExpSpec(message[i] as nat, e, p * q), d, p * q) % 256 == message[i] as int
  {
    var n := p * q;
    assert n > 1;
    forall i | 0 <= i < |message|
      ensures ModExpSpec(ModExpSpec(message[i] as nat, e, n), d, n) % 256 == message[i] as int
    {
      RsaCorrectness.RsaIdentity(p, q, e, d, message[i] as nat);
      DivModUnique(message[i] as int, 256, 0, message[i] as int);
    }
  }
}
