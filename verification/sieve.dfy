/** The sieve of Eratosthenes of `crypto_algs/utils.py`: a boolean list
    updated in place, from which the indices still marked are collected. */
module Sieve {
  import opened Arith
  import opened Outcomes

  /** The primes below `n`, in increasing order. */
  function PrimesBelow(n: nat): seq<int> {
    if n == 0 then [] else PrimesBelow(n - 1) + (if IsPrime(n - 1) then [n - 1] else [])
  }

  /** `PrimesBelow(n)` holds every prime below `n` and nothing else. */
  lemma {:induction false} PrimesBelowMembers(n: nat)
    ensures forall x :: x in PrimesBelow(n) <==> IsPrime(x) && x < n
  {
    if n > 0 {
      PrimesBelowMembers(n - 1);
    }
  }

  /** `PrimesBelow(n)` is strictly increasing. */
  lemma {:induction false} PrimesBelowIncreasing(n: nat)
    ensures forall i, j :: 0 <= i < j < |PrimesBelow(n)| ==> PrimesBelow(n)[i] < PrimesBelow(n)[j]
  {
    if n > 0 {
      PrimesBelowIncreasing(n - 1);
      PrimesBelowMembers(n - 1);
      var s := PrimesBelow(n - 1);
      forall i | 0 <= i < |s|
        ensures s[i] < n - 1
      {
        assert s[i] in s;
      }
    }
  }

  /** `m` is still marked once every `d` in `[2, bound)` with `d*d <= m` has
      struck out its multiples from `d*d` on. */
  ghost predicate Unmarked(m: int, bound: int) {
    m >= 2 && forall d :: 2 <= d < bound && d * d <= m ==> m % d != 0
  }

  /** Sieving with a `num` that is itself struck out changes nothing: its
      multiples from `num*num` on are multiples of a smaller factor. */
  lemma CompositeSievesNothing(num: int, m: int)
    requires num >= 2 && !Unmarked(num, num)
    ensures Unmarked(m, num + 1) == Unmarked(m, num)
  {
    if Unmarked(m, num) && num * num <= m && m % num == 0 {
      var d :| 2 <= d < num && d * d <= num && num % d == 0;
      DividesByMod(d, num);
      DividesByMod(num, m);
      DividesTransitive(d, num, m);
      DividesByMod(d, m);
      MulMonotone(num, 1, num);
      assert false;
    }
  }

  /** Once `bound * bound` exceeds `m`, the marks are exactly primality. */
  lemma UnmarkedIsPrime(m: int, bound: int)
    requires bound >= 2 && m < bound * bound
    ensures Unmarked(m, bound) <==> IsPrime(m)
  {
    if Unmarked(m, bound) && !IsPrime(m) {
      var p := SmallPrimeFactor(m);
      if p >= bound {
        MulMonotone(p, bound, p);
        MulMonotone(bound, bound, p);
      }
      assert false;
    }
    if IsPrime(m) {
      forall d | 2 <= d < bound && d * d <= m
        ensures m % d != 0
      {
        MulMonotone(d, 2, d);
      }
    }
  }

  lemma NoMultipleBetween(multiple: int, num: int, m: int)
    requires num > 0 && multiple % num == 0 && multiple < m < multiple + num
    ensures m % num != 0
  {
    var q := multiple / num;
    DivModUnique(m, num, q, m - multiple);
  }

  /** Adding `num` to the sieving numbers strikes out its multiples from
      `num*num` on. */
  lemma UnmarkedNext(m: int, num: int)
    requires num >= 2
    ensures Unmarked(m, num + 1) == (Unmarked(m, num) && !(num * num <= m && m % num == 0))
  {}

  /** The inner loop: `primes[multiple] = False` for `multiple` in
      `range(num*num, len(primes), num)`. Only those entries change, and
      only from set to cleared. */
  method StrikeMultiples(primes: array<bool>, num: int)
    requires num >= 2
    modifies primes
    ensures forall m :: 0 <= m < primes.Length ==>
      primes[m] == (old(primes[m]) && !(num * num <= m && m % num == 0))
  {
    var limit := primes.Length - 1;
    var multiple := num * num;
    MulMonotone(num, 2, num);
    DivModUnique(multiple, num, num, 0);
    if multiple > limit {
      return;
    }
    while multiple <= limit
      invariant num * num <= multiple <= limit + num
      invariant multiple % num == 0
      invariant forall m :: 0 <= m <= limit ==>
        primes[m] == (old(primes[m]) && !(num * num <= m < multiple && m % num == 0))
      decreases limit + 1 - multiple
    {
      primes[multiple] := false;
      forall m | multiple < m < multiple + num
        ensures m % num != 0
      {
        NoMultipleBetween(multiple, num, m);
      }
      MultipleStep(multiple, num);
      multiple := multiple + num;
    }
  }

  lemma MultipleStep(multiple: int, num: int)
    requires num > 0 && multiple % num == 0
    ensures (multiple + num) % num == 0
  {
    DivModUnique(multiple + num, num, multiple / num + 1, 0);
  }

  /** `sieve_of_eratosthenes(limit)`: a list of `limit + 1` flags, all set;
      indices 0 and 1 cleared (IndexError when the list is shorter); for
      each `num` with `num*num <= limit` still set, every multiple from
      `num*num` to `limit` cleared; then the indices still set, in order.
      The result is exactly the primes up to `limit`, increasing. */
  method SieveOfEratosthenes(limit: int) returns (r: Result<seq<int>>)
    ensures r.Err? <==> limit < 1
    ensures r.Err? ==> r.error == IndexError
    ensures r.Ok? ==> r.value == PrimesBelow(limit + 1)
  {
    if limit < 1 {
      return Err(IndexError);
    }
    var primes := new bool[limit + 1](_ => true);
    primes[0], primes[1] := false, false;
    var num := 2;
    while num * num <= limit
      invariant 2 <= num
      invariant forall m :: 0 <= m <= limit ==> primes[m] == Unmarked(m, num)
      invariant forall m :: 0 <= m <= limit && IsPrime(m) ==> primes[m]
      decreases limit - num
    {
      MulMonotone(num, 1, num);
      if primes[num] {
        StrikeMultiples(primes, num);
        forall m | 0 <= m <= limit
          ensures primes[m] == Unmarked(m, num + 1)
        {
          UnmarkedNext(m, num);
        }
      } else {
        forall m | 0 <= m <= limit
          ensures Unmarked(m, num + 1) == Unmarked(m, num)
        {
          CompositeSievesNothing(num, m);
        }
      }
      num := num + 1;
    }
    forall m | 0 <= m <= limit
      ensures primes[m] == IsPrime(m)
    {
      UnmarkedIsPrime(m, num);
    }
    var collected := CollectMarked(primes);
    return Ok(collected);
  }

  /** `[i for i, is_prime in enumerate(primes) if is_prime]`: once the marks
      are exactly primality, the indices still marked are the primes below
      the length of the list, in increasing order. */
  method CollectMarked(primes: array<bool>) returns (collected: seq<int>)
    requires forall m :: 0 <= m < primes.Length ==> primes[m] == IsPrime(m)
    ensures collected == PrimesBelow(primes.Length)
  {
    collected := [];
    for i := 0 to primes.Length
      invariant collected == PrimesBelow(i)
    {
      if primes[i] {
        collected := collected + [i];
      }
    }
  }
}
