# Sieve: a verified model of the memoising n-th prime generator

This project models `SieveImplementation` from the Sieve repository
(csharp/Sieve/Sieve.cs). It is the object behind the service's
"n-th prime" endpoint. It keeps a cache of primes that only grows: the list
`primes`, which starts as `[2]`, and the high-water mark `maxGenerated`,
which starts at 2. `NthPrime(n)` works as follows:

- On a cache hit, it answers `primes[n]`.
- On a cache miss, it extends the cache in blocks of 10000 numbers. The
  first 9999 of each block are tested by trial division against the primes
  cached so far. The scan stops at the first cached prime that divides
  the candidate, or at the first cached prime whose square exceeds it.
  The last number of the block, `maxGenerated + 10000`, is skipped; it is
  never prime.

The model is imperative, as the source is:

- The class `Sieve.SieveImplementation` has the two fields. Its object
  invariant `Valid()` says three things:
  - `primes` is exactly `PrimesUpTo(maxGenerated)`, the ascending list of
    all primes up to the mark;
  - `maxGenerated >= 2`;
  - `maxGenerated % 10000 == 2`.
- The three nested loops of `NthPrime` are three methods:
  - `HasCachedPrimeDivisor` is the scan over the cache;
  - `GenerateBlock` is one pass of the candidate loop followed by
    `maxGenerated += 10000`;
  - `GenerateUntil` is the `while` loop of a cache miss.
- Each loop is proved against a ghost specification function:
  - `FindsDivisor` for the scan;
  - `PrimesUpTo` for the cache.

The proved contract of `NthPrime(n)`:

- For every `n >= 0` the result is the n-th prime, counting from 0.
  `IsNthPrime(n, p)` means that p is prime and exactly n primes are
  smaller than p.
- The cache stays sorted and complete.
- The cache is only appended to.
- A cache hit changes nothing.
- A cache miss stops after the first block that reaches index n.

The outer loop terminates because there are infinitely many primes. The
model proves this with Euclid's argument: the least divisor of m! + 1 is a
prime above m.

The source's test `UnitTest1.TestNthPrime` is modelled by
`SieveTests.TestNthPrime`. The module `SmallPrimes` computes the expected
answers up to 113 in the verifier. It uses a trial-division test and a
prime count, and both are proved to agree with `IsPrime` and `PrimesUpTo`.

Files:

- `primes.dfy` (module `Primes`) holds the number theory.
- `sieve.dfy` (module `Sieve`) holds the generator.
- `small_primes.dfy` (module `SmallPrimes`) holds the concrete values.
- `sieve_tests.dfy` (module `SieveTests`) holds the unit test.

## Model

| member | source | states |
|---|---|---|
| Sieve.SieveImplementation.constructor | csharp/Sieve/Sieve.cs:10-11 | A new generator has `maxGenerated == 2` and `primes == [2]`, and satisfies the cache invariant. |
| Sieve.SieveImplementation.NthPrime | csharp/Sieve/Sieve.cs:15-52 | For every `n >= 0`, the result is the n-th prime (0-indexed) and equals `primes[n]`. The cache invariant is kept, `primes` only grows, and `maxGenerated` only grows, by whole blocks. A hit (`n < |primes|` on entry) leaves both fields unchanged. After a miss, the cache before the last block still had at most n primes. |
| Sieve.SieveImplementation.GenerateUntil | csharp/Sieve/Sieve.cs:24-50 | Starting from a miss, it generates blocks until `n < |primes|`. It keeps the cache invariant, only appends, and grows `maxGenerated` by a positive whole number of blocks. It stops at the first block that reaches n. |
| Sieve.SieveImplementation.GenerateBlock | csharp/Sieve/Sieve.cs:27-49 | One block appends exactly the primes in `maxGenerated + 1 .. maxGenerated + 10000`, so the cache invariant holds again. It raises `maxGenerated` by 10000, and the old `primes` is a prefix of the new one. |
| Sieve.SieveImplementation.HasCachedPrimeDivisor | csharp/Sieve/Sieve.cs:29-41 | The scan's verdict is `FindsDivisor(primes, i, 0)`; the ghost function `FindsDivisor` is the scan's specification: it stops with "divisible" at the first cached prime dividing i and with "not divisible" at the first cached prime whose square exceeds i (tested for division first) or at the end of the cache. When the cache holds exactly the primes below i (i >= 2), it reports "divisible" exactly when i is not prime. |
| Sieve.TrialDivisionSound | csharp/Sieve/Sieve.cs:29-47 | Against the primes below i, the scan that stops at a cached prime whose square exceeds i finds a divisor exactly when i is not prime. So a candidate is appended exactly when it is prime. |
| Sieve.SmallFactorInCache | csharp/Sieve/Sieve.cs:37-40 | A composite i has a cached prime factor p with `p * p <= i`, so the early stop never skips a divisor that matters. |
| Sieve.SkippedCandidateNotPrime | csharp/Sieve/Sieve.cs:27-49 | When `maxGenerated` is 2 modulo 10000, the value `maxGenerated + 10000`, which the candidate loop never tests, is not prime. The primes up to it are those up to one below it, and the new mark is again 2 modulo 10000. |
| Sieve.SameResidue | csharp/Sieve/Sieve.cs:49 | Arithmetic helper for `GenerateUntil`: two marks that are both 2 modulo 10000 differ by a whole number of blocks. |
| Primes.PrimesUpTo | csharp/Sieve/Sieve.cs:11 | The cache's specification: every entry is a prime at most m, and the entries strictly ascend. |
| Primes.PrimesUpToComplete | csharp/Sieve/Sieve.cs:11 | `PrimesUpTo(m)` contains p if and only if p is a prime at most m. |
| Primes.AscendingPrimeListIsPrimesUpTo | csharp/Sieve/Sieve.cs:10-11 | Any strictly ascending list that holds exactly the primes up to m equals `PrimesUpTo(m)`. So the invariant "sorted, and exactly the primes up to `maxGenerated`" is the one `Valid()` states. |
| Primes.DropLargestPrime | csharp/Sieve/Sieve.cs:47 | In such a list whose bound m is prime, m is the last entry, and the entries before it are exactly the primes up to m - 1. |
| Primes.PrimesUpToPrefix | csharp/Sieve/Sieve.cs:47 | Raising the bound only appends: `PrimesUpTo(a)` is a prefix of `PrimesUpTo(b)` for `a <= b`. |
| Primes.PrimesUpToIndex | csharp/Sieve/Sieve.cs:19 | The k-th entry of `PrimesUpTo(m)` is the k-th prime, so `primes[n]` is the n-th prime. |
| Primes.PrimeCountGrows | csharp/Sieve/Sieve.cs:19 | A larger number has strictly more primes below it than a prime p has. |
| Primes.NthPrimeOrder | csharp/Sieve/Sieve.cs:15-52 | The n-th prime is unique and strictly increasing in n, in both directions. |
| Primes.NthPrimeExists | csharp/Sieve/Sieve.cs:24 | Every index has its prime, so the n-th prime that the loop looks for exists. |
| Primes.PrimesUnbounded | csharp/Sieve/Sieve.cs:24 | For every n, some `PrimesUpTo(m)` has more than n entries. This bounds the block loop. |
| Primes.PrimeAbove | csharp/Sieve/Sieve.cs:24 | Euclid's argument: above every bound there is a prime. |
| Primes.CompositeHasSmallPrimeFactor | csharp/Sieve/Sieve.cs:29 | Every composite n has a prime factor p with `p * p <= n`. This justifies the square-root bound of the scan. |
| Primes.LeastDivisorIsPrime | csharp/Sieve/Sieve.cs:29 | The least divisor >= 2 of any n >= 2 is prime. |
| Primes.LeastDivisorFrom | csharp/Sieve/Sieve.cs:29 | The least divisor of n at or above d: it divides n, and nothing from 2 to just below it does. |
| SmallPrimes.NoDivisorFromSound | csharp/Sieve.Tests/UnitTest1.cs:13-31 | Trial division by 2, 3, … up to the square root accepts a number exactly when it is prime. |
| SmallPrimes.PrimeTestCorrect | csharp/Sieve.Tests/UnitTest1.cs:13-31 | The executable-style primality test used for the expected answers agrees with `IsPrime`. |
| SmallPrimes.CountByTestCorrect | csharp/Sieve.Tests/UnitTest1.cs:13-31 | The prime count used for the expected answers equals the length of `PrimesUpTo(m)`. |
| SmallPrimes.NthPrimeByCount | csharp/Sieve.Tests/UnitTest1.cs:13-31 | A number the test accepts, with n primes below it by the count, is the n-th prime. |
| SmallPrimes.NthPrimesUpTo20 | csharp/Sieve.Tests/UnitTest1.cs:13-20 | 2, 3, 5, 7, 11, 13, 17, 19 are the 0-th to 7-th primes. |
| SmallPrimes.NthPrimesUpTo40 | csharp/Sieve.Tests/UnitTest1.cs:21-24 | 23, 29, 31, 37 are the 8-th to 11-th primes. |
| SmallPrimes.NthPrimesUpTo55 | csharp/Sieve.Tests/UnitTest1.cs:25 | 41, 43, 47, 53 are the 12-th to 15-th primes. |
| SmallPrimes.NthPrimesUpTo70 | csharp/Sieve.Tests/UnitTest1.cs:25-26 | 59, 61, 67 are the 16-th to 18-th primes. The test skips these indices, but the count up to 71 needs them. |
| SmallPrimes.NthPrimesUpTo85 | csharp/Sieve.Tests/UnitTest1.cs:26-28 | 71, 73, 79, 83 are the 19-th to 22-nd primes. |
| SmallPrimes.NthPrimesUpTo100 | csharp/Sieve.Tests/UnitTest1.cs:29-30 | 89 and 97 are the 23-rd and 24-th primes. |
| SmallPrimes.NthPrimesUpTo113 | csharp/Sieve.Tests/UnitTest1.cs:31 | 101, 103, 107, 109, 113 are the 25-th to 29-th primes. |
| SieveTests.NthPrimeIs | csharp/Sieve.Tests/UnitTest1.cs:13-31 | Asking a valid generator for index n returns the value known to be the n-th prime. |
| SieveTests.RepeatedCall | csharp/Sieve/Sieve.cs:17-20 | Two calls with the same index on a valid generator return the same value, and it is the n-th prime. |
| SieveTests.TestNthPrime | csharp/Sieve.Tests/UnitTest1.cs:10-31 | A fresh generator asked for indices 0 to 12, 19, 20, 21, 23, 24 and 29, in that order, answers 2, 3, 5, 7, 11, 13, 17, 19, 23, 29, 31, 37, 41, 71, 73, 79, 89, 97, 113. |

## Left out

- `Math.Sqrt`: the test `primes[j] > Math.Sqrt(i)` at csharp/Sieve/Sieve.cs:29 and :37 is a floating-point comparison. It is modelled as the integer test `primes[j] * primes[j] > i`. The two agree for every i below 2^52. Above that, the rounded square root can equal a prime p with `p * p > i`: for the prime p = 67108879 and i = p * p - 1, `p > Math.Sqrt(i)` is false while `p * p > i` is true. That i is even, so both scans stop at 2 with the same verdict. In general a scan that runs past such a p still reaches the same verdict, because a composite i has a prime factor whose square is at most i, and that factor comes earlier in the cache. Floating point itself is not modelled.
- Integer widths: `long` arithmetic and the `(int)n` cast at csharp/Sieve/Sieve.cs:19 and :51 are modelled with unbounded integers. Overflow for huge n is not modelled.
- Negative n: on a negative n, the source's `primes[(int)n]` throws. `NthPrime` instead requires `n >= 0`, which is the rule the request validator enforces at csharp/Sieve.Model/Api/Validators/PrimeCommandValidator.cs:10-11.
- `maxPrime` (csharp/Sieve/Sieve.cs:23) is computed and never used, and the `LongRange` iterator (csharp/Sieve/Sieve.cs:56-62) is never called. Neither is modelled.
- `ISieve`: the interface is not modelled. The class stands alone.
- `layeredContinue`: the flag is a fresh local per candidate (the result of `HasCachedPrimeDivisor`) instead of a variable that is reset after each use. The behaviour is the same.
- Loop structure: the three loops are split into three methods. Each method's contract is what the caller's proof uses.
- TestNthPrime: the unit test's larger expected values are not proved concretely. These are 541, 3581, 7793, 17393, 15485867, 179424691 and 2038074751, at csharp/Sieve.Tests/UnitTest1.cs:32-38. They are too costly to evaluate in the verifier with the chunked evaluation used up to 113, and the ones from 15485867 on are out of its reach altogether. The general contract of `NthPrime` (the n-th prime for every n) covers them.
- Thread safety of the per-instance cache is not modelled. The source does not synchronise it.
- The HTTP host, MediatR handler, error mapping, controllers and configuration classes are framework plumbing with no behaviour of their own. They are not part of this model.
- Sieve.cs has no segmented sieve and no bound estimate for the n-th prime: `NthPrime` extends the cache by block-wise trial division, and that is what is modelled.
