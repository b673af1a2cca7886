/** Number-theoretic vocabulary for the prime cache of `SieveImplementation`:
    primality, the ascending list of all primes up to a bound, what "the n-th
    prime" means, least divisors, and the infinitude of the primes (which is
    what makes the block loop of `NthPrime` terminate). */
module Primes {

  /** p is prime: at least 2, and no d with 2 <= d < p divides it. */
  ghost predicate IsPrime(p: int) {
    p >= 2 && forall d :: 2 <= d < p ==> p % d != 0
  }

  /** The primes that are at most m, in ascending order. */
  ghost function PrimesUpTo(m: int): (r: seq<int>)
    ensures forall k :: 0 <= k < |r| ==> IsPrime(r[k]) && r[k] <= m
    ensures forall a, b :: 0 <= a < b < |r| ==> r[a] < r[b]
    decreases m
  {
    if m < 2 then [] else PrimesUpTo(m - 1) + (if IsPrime(m) then [m] else [])
  }

  /** p is the n-th prime, counting from 0: p is prime and exactly n primes are
      smaller than p. */
  ghost predicate IsNthPrime(n: nat, p: int) {
    IsPrime(p) && |PrimesUpTo(p - 1)| == n
  }

  /** PrimesUpTo(m) misses no prime: it holds exactly the primes <= m. */
  lemma {:induction false} PrimesUpToComplete(m: int, p: int)
    ensures p in PrimesUpTo(m) <==> IsPrime(p) && p <= m
    decreases m
  {
    if IsPrime(p) && p < m {
      PrimesUpToComplete(m - 1, p);
    }
  }

  /** The head of a non-empty list is one of its elements. */
  lemma FirstIsMember(s: seq<int>)
    ensures |s| > 0 ==> s[0] in s
  {
  }

  /** In a strictly ascending list of exactly the primes <= m, where m is
      prime, m is the last entry and the entries before it are exactly the
      primes <= m - 1. */
  lemma DropLargestPrime(ps: seq<int>, m: int)
    requires forall a, b :: 0 <= a < b < |ps| ==> ps[a] < ps[b]
    requires forall p :: p in ps <==> IsPrime(p) && p <= m
    requires IsPrime(m)
    ensures |ps| > 0 && ps[|ps| - 1] == m
    ensures forall p :: p in ps[..|ps| - 1] <==> IsPrime(p) && p <= m - 1
  {
    assert m in ps;
    var last := |ps| - 1;
    assert ps[last] in ps;
    var qs := ps[..last];
    forall p
      ensures p in qs <==> IsPrime(p) && p <= m - 1
    {
      if p in qs {
        var a :| 0 <= a < last && qs[a] == p;
        assert ps[a] == p;
      }
    }
  }

  /** Conversely, a strictly ascending list that holds exactly the primes <= m
      is PrimesUpTo(m): the two descriptions of the cache agree. */
  lemma {:induction false} AscendingPrimeListIsPrimesUpTo(ps: seq<int>, m: int)
    requires forall a, b :: 0 <= a < b < |ps| ==> ps[a] < ps[b]
    requires forall p :: p in ps <==> IsPrime(p) && p <= m
    ensures ps == PrimesUpTo(m)
    decreases m
  {
    if m < 2 {
      if |ps| > 0 {
        FirstIsMember(ps);
        assert false;
      }
    } else if IsPrime(m) {
      DropLargestPrime(ps, m);
      var qs := ps[..|ps| - 1];
      AscendingPrimeListIsPrimesUpTo(qs, m - 1);
      assert ps == qs + [m];
    } else {
      AscendingPrimeListIsPrimesUpTo(ps, m - 1);
    }
  }

  /** Raising the bound only appends: PrimesUpTo(a) is a prefix of PrimesUpTo(b). */
  lemma {:induction false} PrimesUpToPrefix(a: int, b: int)
    requires a <= b
    ensures PrimesUpTo(a) <= PrimesUpTo(b)
    decreases b - a
  {
    if a < b {
      PrimesUpToPrefix(a, b - 1);
      var s, t, u := PrimesUpTo(a), PrimesUpTo(b - 1), PrimesUpTo(b);
      assert t <= u;
      assert s == t[..|s|] == u[..|s|];
    }
  }

  /** The k-th entry of PrimesUpTo(m) is the k-th prime. */
  lemma {:induction false} PrimesUpToIndex(m: int, k: nat)
    requires k < |PrimesUpTo(m)|
    ensures IsNthPrime(k, PrimesUpTo(m)[k])
    decreases m
  {
    var prev := PrimesUpTo(m - 1);
    if k < |prev| {
      PrimesUpToIndex(m - 1, k);
      assert PrimesUpTo(m)[..k] == prev[..k];
    } else {
      assert PrimesUpTo(m)[..k] == prev;
    }
  }

  /** A prime p has strictly fewer primes below it than any q > p has. */
  lemma PrimeCountGrows(p: int, q: int)
    requires IsPrime(p) && p < q
    ensures |PrimesUpTo(p - 1)| < |PrimesUpTo(q - 1)|
  {
    PrimesUpToPrefix(p, q - 1);
  }

  /** The n-th prime is increasing in n and unique: indices and primes are in
      the same order. */
  lemma NthPrimeOrder(n: nat, p: int, m: nat, q: int)
    requires IsNthPrime(n, p) && IsNthPrime(m, q)
    ensures n < m <==> p < q
    ensures n == m <==> p == q
  {
    if p < q {
      PrimeCountGrows(p, q);
    } else if q < p {
      PrimeCountGrows(q, p);
    }
  }

  /** Multiplying by a non-negative number preserves <=. */
  lemma MulMonotone(a: int, b: int, c: int)
    ensures a >= 0 && b <= c ==> a * b <= a * c
  {
  }

  /** Euclidean division is unique: a == d * q + r with 0 <= r < d fixes
      a / d and a % d. */
  lemma DivModUnique(a: int, d: int, q: int, r: int)
    requires d > 0 && 0 <= r < d && a == d * q + r
    ensures a / d == q && a % d == r
  {
    var q', r' := a / d, a % d;
    assert d * (q - q') == r' - r;
    MulMonotone(d, 1, q - q');
    MulMonotone(d, 1, q' - q);
  }

  /** (e * k) is a multiple of e. */
  lemma MulMod(e: int, k: int)
    requires e > 0
    ensures (e * k) % e == 0
  {
    DivModUnique(e * k, e, k, 0);
  }

  /** Divisibility is transitive. */
  lemma DividesTransitive(e: int, d: int, n: int)
    requires e > 0 && d > 0
    requires d % e == 0 && n % d == 0
    ensures n % e == 0
  {
    var a, b := d / e, n / d;
    assert d == e * a;
    assert n == d * b;
    assert n == e * (a * b);
    MulMod(e, a * b);
  }

  /** The least divisor of n that is at least d, given that none below d divides n. */
  ghost function LeastDivisorFrom(n: int, d: int): (r: int)
    requires 2 <= d <= n
    requires forall e :: 2 <= e < d ==> n % e != 0
    ensures d <= r <= n && n % r == 0
    ensures forall e :: 2 <= e < r ==> n % e != 0
    decreases n - d
  {
    if n % d == 0 then d
    else
      SelfDivides(n);
      LeastDivisorFrom(n, d + 1)
  }

  /** Every positive n divides itself. */
  lemma SelfDivides(n: int)
    ensures n > 0 ==> n % n == 0
  {
  }

  /** The least divisor >= 2 of any n >= 2 is prime. */
  lemma LeastDivisorIsPrime(n: int)
    requires n >= 2
    ensures IsPrime(LeastDivisorFrom(n, 2))
  {
    var d := LeastDivisorFrom(n, 2);
    forall e | 2 <= e < d
      ensures d % e != 0
    {
      if d % e == 0 {
        DividesTransitive(e, d, n);
      }
    }
  }

  /** A number >= 2 that is not prime has a prime factor p with p * p <= n. */
  lemma CompositeHasSmallPrimeFactor(n: int) returns (d: int)
    requires n >= 2 && !IsPrime(n)
    ensures IsPrime(d) && d * d <= n && n % d == 0
  {
    d := LeastDivisorFrom(n, 2);
    LeastDivisorIsPrime(n);
    assert d < n;
    var q := n / d;
    assert n == d * q;
    MulMonotone(d, q, 1);
    assert q >= 2;
    assert n == q * d;
    MulMod(q, d);
    assert q >= d;
    MulMonotone(d, d, q);
  }

  /** m! */
  ghost function Factorial(m: nat): (r: nat)
    ensures r >= 1
  {
    if m == 0 then 1 else m * Factorial(m - 1)
  }

  /** Every d in 1..m divides m!. */
  lemma {:induction false} FactorialDivisible(m: nat, d: int)
    requires 1 <= d <= m
    ensures Factorial(m) % d == 0
  {
    var f := Factorial(m - 1);
    assert Factorial(m) == m * f;
    if d == m {
      MulMod(m, f);
    } else {
      FactorialDivisible(m - 1, d);
      assert Factorial(m) == f * m;
      MulMod(f, m);
      DividesTransitive(d, f, Factorial(m));
    }
  }

  /** Euclid: above every bound there is a prime. */
  lemma PrimeAbove(m: nat)
    ensures exists p :: IsPrime(p) && p > m
  {
    var n := Factorial(m) + 1;
    var d := LeastDivisorFrom(n, 2);
    LeastDivisorIsPrime(n);
    if d <= m {
      FactorialDivisible(m, d);
      assert Factorial(m) == d * (Factorial(m) / d);
      DivModUnique(n, d, Factorial(m) / d, 1);
      assert false;
    }
  }

  /** For every n some PrimesUpTo(m) has more than n entries. */
  lemma {:induction false} PrimesUnbounded(n: nat)
    ensures exists m :: |PrimesUpTo(m)| > n
  {
    if n == 0 {
      assert PrimesUpTo(2) == [2];
    } else {
      PrimesUnbounded(n - 1);
      var m :| |PrimesUpTo(m)| > n - 1;
      PrimeAbove(if m < 0 then 0 else m);
      var p :| IsPrime(p) && p > m && p >= 0;
      PrimesUpToPrefix(m, p - 1);
      assert |PrimesUpTo(p)| == |PrimesUpTo(p - 1)| + 1;
    }
  }

  /** Every index has its prime. */
  lemma NthPrimeExists(n: nat)
    ensures exists p :: IsNthPrime(n, p)
  {
    PrimesUnbounded(n);
    var m :| |PrimesUpTo(m)| > n;
    PrimesUpToIndex(m, n);
  }
}
