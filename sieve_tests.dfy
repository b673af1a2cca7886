/** The unit test of `SieveImplementation.NthPrime`: one fresh generator asked
    for a sequence of indices in increasing order, each answer compared with
    the known n-th prime. */
module SieveTests {
  import opened Primes
  import opened SmallPrimes
  import opened Sieve

  /** One call of the test: since `NthPrime` returns the n-th prime and the
      n-th prime is unique, the answer is the expected value. */
  method NthPrimeIs(sieve: SieveImplementation, n: nat, expected: int) returns (r: int)
    requires sieve.Valid()
    requires IsNthPrime(n, expected)
    modifies sieve
    ensures sieve.Valid()
    ensures r == expected
  {
    r := sieve.NthPrime(n);
    NthPrimeOrder(n, r, n, expected);
  }

  /** Asking twice for the same index gives the same answer: the first call
      leaves more than n primes in the cache, so the second is a cache hit
      that changes nothing. */
  method RepeatedCall(sieve: SieveImplementation, n: nat) returns (first: int, second: int)
    requires sieve.Valid()
    modifies sieve
    ensures sieve.Valid()
    ensures first == second && IsNthPrime(n, first)
  {
    first := sieve.NthPrime(n);
    second := sieve.NthPrime(n);
  }

  /** The answers of one generator for the indices 0 .. 12, 19, 20, 21, 23, 24
      and 29, in the order the unit test asks for them. */
  method TestNthPrime() returns (results: seq<int>)
    ensures results == [2, 3, 5, 7, 11, 13, 17, 19, 23, 29, 31, 37, 41, 71, 73, 79, 89, 97, 113]
  {
    NthPrimesUpTo20();
    NthPrimesUpTo40();
    NthPrimesUpTo55();
    NthPrimesUpTo70();
    NthPrimesUpTo85();
    NthPrimesUpTo100();
    NthPrimesUpTo113();
    var sieve := new SieveImplementation();
    var r0 := NthPrimeIs(sieve, 0, 2);
    var r1 := NthPrimeIs(sieve, 1, 3);
    var r2 := NthPrimeIs(sieve, 2, 5);
    var r3 := NthPrimeIs(sieve, 3, 7);
    var r4 := NthPrimeIs(sieve, 4, 11);
    var r5 := NthPrimeIs(sieve, 5, 13);
    var r6 := NthPrimeIs(sieve, 6, 17);
    var r7 := NthPrimeIs(sieve, 7, 19);
    var r8 := NthPrimeIs(sieve, 8, 23);
    var r9 := NthPrimeIs(sieve, 9, 29);
    var r10 := NthPrimeIs(sieve, 10, 31);
    var r11 := NthPrimeIs(sieve, 11, 37);
    var r12 := NthPrimeIs(sieve, 12, 41);
    var r19 := NthPrimeIs(sieve, 19, 71);
    var r20 := NthPrimeIs(sieve, 20, 73);
    var r21 := NthPrimeIs(sieve, 21, 79);
    var r23 := NthPrimeIs(sieve, 23, 89);
    var r24 := NthPrimeIs(sieve, 24, 97);
    var r29 := NthPrimeIs(sieve, 29, 113);
    results := [r0, r1, r2, r3, r4, r5, r6, r7, r8, r9, r10, r11, r12, r19, r20, r21, r23, r24, r29];
  }
}
