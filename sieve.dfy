/** The memoising prime generator `SieveImplementation` of csharp/Sieve/Sieve.cs:
    a cache of the primes found so far, extended block by block by trial
    division against the cache itself. */
module Sieve {
  import opened Primes

  /** Width of one extension block: each block tests the candidates
      maxGenerated + 1 .. maxGenerated + BlockSize - 1 and then raises
      maxGenerated by BlockSize. */
  const BlockSize: int := 10000

  /** What the trial-division scan of `NthPrime` concludes about candidate i
      when it starts at ps[j]: it stops with "divisible" at the first cached
      prime that divides i, and with "not divisible" at the first cached prime
      whose square exceeds i (that prime is tested for division first), or
      when the cache is used up. */
  ghost function FindsDivisor(ps: seq<int>, i: int, j: nat): bool
    requires j <= |ps|
    requires forall k :: 0 <= k < |ps| ==> ps[k] > 0
    decreases |ps| - j
  {
    if j == |ps| then false
    else if i % ps[j] == 0 then true
    else if ps[j] * ps[j] > i then false
    else FindsDivisor(ps, i, j + 1)
  }

  /** Squaring is strictly increasing on positive numbers. */
  lemma SquareMonotone(a: int, b: int)
    ensures 0 < a < b ==> a * a < b * b
  {
  }

  /** A composite i has a prime factor whose square is at most i in the cache
      of the primes below i. */
  lemma SmallFactorInCache(ps: seq<int>, i: int) returns (k: nat)
    requires i >= 2 && ps == PrimesUpTo(i - 1) && !IsPrime(i)
    ensures k < |ps| && i % ps[k] == 0 && ps[k] * ps[k] <= i
  {
    var p := CompositeHasSmallPrimeFactor(i);
    MulMonotone(p, 2, p);
    assert p <= i - 1;
    PrimesUpToComplete(i - 1, p);
    k :| 0 <= k < |ps| && ps[k] == p;
  }

  /** Trial division against the cache of all primes below i decides primality
      of i: having checked ps[..j] without finding a divisor, the rest of the
      scan finds one exactly when i is not prime. The early stop at a prime
      whose square exceeds i is sound because a composite i has a prime factor
      p with p * p <= i, and that factor is below i and so in the cache. */
  lemma {:induction false} TrialDivisionSound(ps: seq<int>, i: int, j: nat)
    requires i >= 2 && ps == PrimesUpTo(i - 1)
    requires j <= |ps|
    requires forall k :: 0 <= k < j ==> i % ps[k] != 0
    ensures FindsDivisor(ps, i, j) <==> !IsPrime(i)
    decreases |ps| - j
  {
    if j == |ps| || i % ps[j] != 0 {
      if !IsPrime(i) {
        var k := SmallFactorInCache(ps, i);
        assert k >= j;
        if j < |ps| {
          assert k > j;
          SquareMonotone(ps[j], ps[k]);
          TrialDivisionSound(ps, i, j + 1);
        }
      } else if j < |ps| && ps[j] * ps[j] <= i {
        TrialDivisionSound(ps, i, j + 1);
      }
    }
  }

  /** The value skipped between two blocks is never prime: maxGenerated stays
      2 modulo BlockSize, so maxGenerated + BlockSize is even and above 2. */
  lemma SkippedCandidateNotPrime(m: int)
    requires m >= 2 && m % BlockSize == 2
    ensures !IsPrime(m + BlockSize)
    ensures PrimesUpTo(m + BlockSize) == PrimesUpTo(m + BlockSize - 1)
    ensures (m + BlockSize) % BlockSize == 2
  {
    DivModUnique(m, BlockSize, m / BlockSize, 2);
    DivModUnique(m + BlockSize, 2, (m / BlockSize) * 5000 + 5001, 0);
    DivModUnique(m + BlockSize, BlockSize, m / BlockSize + 1, 2);
  }

  /** Two values that are both 2 modulo BlockSize are a whole number of blocks apart. */
  lemma SameResidue(a: int, b: int)
    requires a % BlockSize == 2 && b % BlockSize == 2
    ensures (b - a) % BlockSize == 0
  {
  }

  class SieveImplementation {
    /** Every integer up to maxGenerated has been classified. */
    var maxGenerated: int
    /** The primes found so far, ascending. */
    var primes: seq<int>

    /** The cache invariant: primes lists exactly the primes up to
        maxGenerated, in ascending order, and maxGenerated is 2 modulo
        BlockSize. */
    ghost predicate Valid()
      reads this
    {
      maxGenerated >= 2 && maxGenerated % BlockSize == 2 &&
      primes == PrimesUpTo(maxGenerated)
    }

    constructor ()
      ensures Valid()
      ensures maxGenerated == 2 && primes == [2]
    {
      maxGenerated := 2;
      primes := [2];
      assert PrimesUpTo(2) == [2];
    }

    /** The trial-division scan of one candidate i over the cache: it
        reports "divisible" at the first cached prime dividing i and gives up
        at the first cached prime whose square exceeds i. Run against the
        cache of all primes below i, it reports "divisible" exactly for the
        non-primes. */
    method HasCachedPrimeDivisor(i: int) returns (divisible: bool)
      requires forall k :: 0 <= k < |primes| ==> primes[k] > 0
      ensures divisible == FindsDivisor(primes, i, 0)
      ensures i >= 2 && primes == PrimesUpTo(i - 1) ==> (divisible <==> !IsPrime(i))
    {
      divisible := false;
      for j := 0 to |primes|
        invariant !divisible
        invariant FindsDivisor(primes, i, j) == FindsDivisor(primes, i, 0)
      {
        if i % primes[j] == 0 {
          divisible := true;
          break;
        }
        if primes[j] * primes[j] > i {
          break;
        }
      }
      if i >= 2 && primes == PrimesUpTo(i - 1) {
        TrialDivisionSound(primes, i, 0);
      }
    }

    /** One block of the cache extension: test every candidate
        maxGenerated + 1 .. maxGenerated + BlockSize - 1 by trial division
        against the cache, append the primes among them in order, and raise
        maxGenerated by BlockSize. The value maxGenerated + BlockSize itself
        is never tested; it is never prime, so no prime is skipped. */
    method GenerateBlock()
      requires Valid()
      modifies this
      ensures Valid()
      ensures maxGenerated == old(maxGenerated) + BlockSize
      ensures old(primes) <= primes
    {
      for i := maxGenerated + 1 to maxGenerated + BlockSize
        invariant maxGenerated == old(maxGenerated)
        invariant primes == PrimesUpTo(i - 1)
      {
        var layeredContinue := HasCachedPrimeDivisor(i);
        if layeredContinue {
          continue;
        }
        primes := primes + [i];
      }
      SkippedCandidateNotPrime(maxGenerated);
      PrimesUpToPrefix(maxGenerated, maxGenerated + BlockSize);
      maxGenerated := maxGenerated + BlockSize;
    }

    /** The block loop of a cache miss: generate blocks until the cache holds
        more than n primes, and not one block more. */
    method GenerateUntil(n: nat)
      requires Valid()
      requires |primes| <= n
      modifies this
      ensures Valid()
      ensures n < |primes|
      ensures old(maxGenerated) < maxGenerated
      ensures old(primes) <= primes
      ensures (maxGenerated - old(maxGenerated)) % BlockSize == 0
      ensures maxGenerated > old(maxGenerated) ==> |PrimesUpTo(maxGenerated - BlockSize)| <= n
    {
      ghost var mg0 := maxGenerated;
      PrimesUnbounded(n);
      ghost var bound :| |PrimesUpTo(bound)| > n;
      if bound <= maxGenerated {
        PrimesUpToPrefix(bound, maxGenerated);
      }
      while |primes| <= n
        invariant Valid()
        invariant mg0 <= maxGenerated
        invariant maxGenerated > mg0 ==> |PrimesUpTo(maxGenerated - BlockSize)| <= n
        invariant |primes| <= n ==> maxGenerated < bound
        decreases bound - maxGenerated
      {
        ghost var count := |primes|;
        GenerateBlock();
        assert |PrimesUpTo(maxGenerated - BlockSize)| == count;
        if bound <= maxGenerated {
          PrimesUpToPrefix(bound, maxGenerated);
        }
      }
      PrimesUpToPrefix(mg0, maxGenerated);
      SameResidue(mg0, maxGenerated);
    }

    /** The n-th prime, counting from 0, served from the cache when it is
        long enough and otherwise after extending the cache block by block. */
    method NthPrime(n: int) returns (r: int)
      requires Valid()
      requires n >= 0
      modifies this
      ensures Valid()
      ensures IsNthPrime(n, r)
      ensures n < |primes| && r == primes[n]
      ensures old(maxGenerated) <= maxGenerated
      ensures old(primes) <= primes
      ensures n < |old(primes)| ==> primes == old(primes) && maxGenerated == old(maxGenerated)
      ensures (maxGenerated - old(maxGenerated)) % BlockSize == 0
      ensures maxGenerated > old(maxGenerated) ==> |PrimesUpTo(maxGenerated - BlockSize)| <= n
    {
      if |primes| > n {
        r := primes[n];
      } else {
        GenerateUntil(n);
        r := primes[n];
      }
      PrimesUpToIndex(maxGenerated, n);
    }
  }
}
