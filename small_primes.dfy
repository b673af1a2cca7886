/** Concrete values of the n-th prime for small n, the ones the unit test of
    `NthPrime` checks up to 113. The verifier evaluates a trial-division test
    and a prime count on literal arguments; both are proved to agree with
    IsPrime and PrimesUpTo. */
module SmallPrimes {
  import opened Primes

  /** No d' with d <= d' and d' * d' <= p divides p. */
  ghost function NoDivisorFrom(p: int, d: int): bool
    requires d >= 2
    decreases p - d * d
  {
    if d * d > p then true
    else p % d != 0 && NoDivisorFrom(p, d + 1)
  }

  /** Primality decided by trial division up to the square root. */
  ghost predicate PrimeTest(p: int) {
    p >= 2 && NoDivisorFrom(p, 2)
  }

  /** Given that nothing in 2 .. d - 1 divides p, the rest of the scan
      accepts p exactly when p is prime. */
  lemma {:induction false} NoDivisorFromSound(p: int, d: int)
    requires 2 <= d && p >= 2
    requires forall e :: 2 <= e < d ==> p % e != 0
    ensures NoDivisorFrom(p, d) <==> IsPrime(p)
    decreases p - d
  {
    MulMonotone(d, 1, d);
    if d * d > p {
      if !IsPrime(p) {
        var q := CompositeHasSmallPrimeFactor(p);
        if q >= d {
          MulMonotone(q, d, q);
          MulMonotone(d, d, q);
        }
        assert false;
      }
    } else if p % d != 0 {
      NoDivisorFromSound(p, d + 1);
    } else {
      assert d < p;
    }
  }

  /** The test agrees with the definition of a prime. */
  lemma PrimeTestCorrect(p: int)
    ensures PrimeTest(p) <==> IsPrime(p)
  {
    if p >= 2 {
      NoDivisorFromSound(p, 2);
    }
  }

  /** The number of primes <= m, counted with PrimeTest. */
  ghost function CountByTest(m: int): nat
    decreases m
  {
    if m < 2 then 0 else CountByTest(m - 1) + (if PrimeTest(m) then 1 else 0)
  }

  /** The count agrees with the list of primes. */
  lemma {:induction false} CountByTestCorrect(m: int)
    ensures CountByTest(m) == |PrimesUpTo(m)|
    decreases m
  {
    if m >= 2 {
      CountByTestCorrect(m - 1);
      PrimeTestCorrect(m);
    }
  }

  /** A prime p by the test, with n primes below it by the count, is the n-th prime. */
  lemma NthPrimeByCount(n: nat, p: int)
    requires PrimeTest(p) && CountByTest(p - 1) == n
    ensures IsNthPrime(n, p)
  {
    PrimeTestCorrect(p);
    CountByTestCorrect(p - 1);
  }

  /** The primes in 1 .. 20 and their indices; the assertions step the
      evaluation of the scan and of the count through each prime. */
  lemma NthPrimesUpTo20()
    ensures CountByTest(20) == 8
    ensures IsNthPrime(0, 2)
    ensures IsNthPrime(1, 3)
    ensures IsNthPrime(2, 5)
    ensures IsNthPrime(3, 7)
    ensures IsNthPrime(4, 11)
    ensures IsNthPrime(5, 13)
    ensures IsNthPrime(6, 17)
    ensures IsNthPrime(7, 19)
  {
    assert NoDivisorFrom(2, 2); assert CountByTest(1) == 0; NthPrimeByCount(0, 2);
    assert NoDivisorFrom(3, 2); assert CountByTest(2) == 1; NthPrimeByCount(1, 3);
    assert NoDivisorFrom(5, 2); assert CountByTest(4) == 2; NthPrimeByCount(2, 5);
    assert NoDivisorFrom(7, 2); assert CountByTest(6) == 3; NthPrimeByCount(3, 7);
    assert NoDivisorFrom(11, 2); assert CountByTest(10) == 4; NthPrimeByCount(4, 11);
    assert NoDivisorFrom(13, 2); assert CountByTest(12) == 5; NthPrimeByCount(5, 13);
    assert NoDivisorFrom(17, 3); assert NoDivisorFrom(17, 2); assert CountByTest(16) == 6; NthPrimeByCount(6, 17);
    assert NoDivisorFrom(19, 3); assert NoDivisorFrom(19, 2); assert CountByTest(18) == 7; NthPrimeByCount(7, 19);
  }

  /** The primes in 21 .. 40 and their indices; the assertions step the
      evaluation of the scan and of the count through each prime. */
  lemma NthPrimesUpTo40()
    ensures CountByTest(40) == 12
    ensures IsNthPrime(8, 23)
    ensures IsNthPrime(9, 29)
    ensures IsNthPrime(10, 31)
    ensures IsNthPrime(11, 37)
  {
    NthPrimesUpTo20();
    assert NoDivisorFrom(23, 3); assert NoDivisorFrom(23, 2); assert CountByTest(22) == 8; NthPrimeByCount(8, 23);
    assert NoDivisorFrom(29, 4); assert NoDivisorFrom(29, 2); assert CountByTest(28) == 9; NthPrimeByCount(9, 29);
    assert NoDivisorFrom(31, 4); assert NoDivisorFrom(31, 2); assert CountByTest(30) == 10; NthPrimeByCount(10, 31);
    assert NoDivisorFrom(37, 5); assert NoDivisorFrom(37, 2); assert CountByTest(36) == 11; NthPrimeByCount(11, 37);
  }

  /** The primes in 41 .. 55 and their indices; the assertions step the
      evaluation of the scan and of the count through each prime. */
  lemma NthPrimesUpTo55()
    ensures CountByTest(55) == 16
    ensures IsNthPrime(12, 41)
    ensures IsNthPrime(13, 43)
    ensures IsNthPrime(14, 47)
    ensures IsNthPrime(15, 53)
  {
    NthPrimesUpTo40();
    assert NoDivisorFrom(41, 5); assert NoDivisorFrom(41, 2); assert CountByTest(40) == 12; NthPrimeByCount(12, 41);
    assert NoDivisorFrom(43, 5); assert NoDivisorFrom(43, 2); assert CountByTest(42) == 13; NthPrimeByCount(13, 43);
    assert NoDivisorFrom(47, 5); assert NoDivisorFrom(47, 2); assert CountByTest(46) == 14; NthPrimeByCount(14, 47);
    assert NoDivisorFrom(53, 6); assert NoDivisorFrom(53, 3); assert NoDivisorFrom(53, 2); assert CountByTest(52) == 15; NthPrimeByCount(15, 53);
  }

  /** The primes in 56 .. 70 and their indices; the assertions step the
      evaluation of the scan and of the count through each prime. */
  lemma NthPrimesUpTo70()
    ensures CountByTest(70) == 19
    ensures IsNthPrime(16, 59)
    ensures IsNthPrime(17, 61)
    ensures IsNthPrime(18, 67)
  {
    NthPrimesUpTo55();
    assert NoDivisorFrom(59, 6); assert NoDivisorFrom(59, 3); assert NoDivisorFrom(59, 2); assert CountByTest(58) == 16; NthPrimeByCount(16, 59);
    assert NoDivisorFrom(61, 6); assert NoDivisorFrom(61, 3); assert NoDivisorFrom(61, 2); assert CountByTest(60) == 17; NthPrimeByCount(17, 61);
    assert NoDivisorFrom(67, 7); assert NoDivisorFrom(67, 4); assert NoDivisorFrom(67, 2); assert CountByTest(66) == 18; NthPrimeByCount(18, 67);
  }

  /** The primes in 71 .. 85 and their indices; the assertions step the
      evaluation of the scan and of the count through each prime. */
  lemma NthPrimesUpTo85()
    ensures CountByTest(85) == 23
    ensures IsNthPrime(19, 71)
    ensures IsNthPrime(20, 73)
    ensures IsNthPrime(21, 79)
    ensures IsNthPrime(22, 83)
  {
    NthPrimesUpTo70();
    assert NoDivisorFrom(71, 7); assert NoDivisorFrom(71, 4); assert NoDivisorFrom(71, 2); assert CountByTest(70) == 19; NthPrimeByCount(19, 71);
    assert NoDivisorFrom(73, 7); assert NoDivisorFrom(73, 4); assert NoDivisorFrom(73, 2); assert CountByTest(72) == 20; NthPrimeByCount(20, 73);
    assert NoDivisorFrom(79, 7); assert NoDivisorFrom(79, 4); assert NoDivisorFrom(79, 2); assert CountByTest(78) == 21; NthPrimeByCount(21, 79);
    assert NoDivisorFrom(83, 8); assert NoDivisorFrom(83, 5); assert NoDivisorFrom(83, 2); assert CountByTest(82) == 22; NthPrimeByCount(22, 83);
  }

  /** The primes in 86 .. 100 and their indices; the assertions step the
      evaluation of the scan and of the count through each prime. */
  lemma NthPrimesUpTo100()
    ensures CountByTest(100) == 25
    ensures IsNthPrime(23, 89)
    ensures IsNthPrime(24, 97)
  {
    NthPrimesUpTo85();
    assert NoDivisorFrom(89, 8); assert NoDivisorFrom(89, 5); assert NoDivisorFrom(89, 2); assert CountByTest(88) == 23; NthPrimeByCount(23, 89);
    assert NoDivisorFrom(97, 8); assert NoDivisorFrom(97, 5); assert NoDivisorFrom(97, 2); assert CountByTest(96) == 24; NthPrimeByCount(24, 97);
  }

  /** The primes in 101 .. 113 and their indices; the assertions step the
      evaluation of the scan and of the count through each prime. */
  lemma NthPrimesUpTo113()
    ensures CountByTest(113) == 30
    ensures IsNthPrime(25, 101)
    ensures IsNthPrime(26, 103)
    ensures IsNthPrime(27, 107)
    ensures IsNthPrime(28, 109)
    ensures IsNthPrime(29, 113)
  {
    NthPrimesUpTo100();
    assert NoDivisorFrom(101, 9); assert NoDivisorFrom(101, 6); assert NoDivisorFrom(101, 3); assert NoDivisorFrom(101, 2); assert CountByTest(100) == 25; NthPrimeByCount(25, 101);
    assert NoDivisorFrom(103, 9); assert NoDivisorFrom(103, 6); assert NoDivisorFrom(103, 3); assert NoDivisorFrom(103, 2); assert CountByTest(102) == 26; NthPrimeByCount(26, 103);
    assert NoDivisorFrom(107, 9); assert NoDivisorFrom(107, 6); assert NoDivisorFrom(107, 3); assert NoDivisorFrom(107, 2); assert CountByTest(106) == 27; NthPrimeByCount(27, 107);
    assert NoDivisorFrom(109, 9); assert NoDivisorFrom(109, 6); assert NoDivisorFrom(109, 3); assert NoDivisorFrom(109, 2); assert CountByTest(108) == 28; NthPrimeByCount(28, 109);
    assert NoDivisorFrom(113, 9); assert NoDivisorFrom(113, 6); assert NoDivisorFrom(113, 3); assert NoDivisorFrom(113, 2); assert CountByTest(112) == 29; NthPrimeByCount(29, 113);
  }
}
