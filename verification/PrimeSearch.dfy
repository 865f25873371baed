/** The search for a prime table size. */
module PrimeSearch {
  import opened Base
  import opened NumberTheory
  import opened PrimeCertificates

  /** What trial division by 2 .. n/2 - 1 finds. */
  ghost predicate TrialFindsDivisor(n: nat) {
    exists i :: 2 <= i < n / 2 && n % i == 0
  }

  /** Trial division below n/2 decides primality for every n of at least 5 (it takes 0, 1 and 4 for primes). */
  lemma TrialDivisionDecides(n: nat)
    ensures !TrialFindsDivisor(n) <==> IsPrime(n) || n in {0, 1, 4}
  {
    if TrialFindsDivisor(n) {
      var i :| 2 <= i < n / 2 && n % i == 0;
      assert !IsPrime(n);
    } else if n >= 5 {
      forall d | 2 <= d < n ensures n % d != 0 {
        if n % d == 0 {
          ProperDivisor(n, d);
        }
      }
    }
  }

  /** A proper divisor of n >= 5, or its cofactor 2, is below n / 2. */
  lemma ProperDivisor(n: nat, d: nat)
    requires 5 <= n && 2 <= d < n && n % d == 0
    ensures TrialFindsDivisor(n)
  {
    var e := Cofactor(n, d);
    if 3 <= e {
      MulMonotone(3, e, d);
      assert 2 <= d < n / 2;
    }
  }

  /** The least prime above num that fits an unsigned int; 0, where the counter wraps, if there is none. */
  ghost predicate IsNextPrime(num: u32, r: u32) {
    if r == 0 then forall p :: num < p < TWO_TO_THE_32 ==> !IsPrime(p)
    else num < r && IsPrime(r) && forall p :: num < p < r ==> !IsPrime(p)
  }

  /** The search has come to k without meeting a prime, starting from a composite number. */
  ghost predicate NoPrimeUpTo(num: u32, k: u32) {
    && 6 <= num <= k && forall p :: num <= p <= k ==> !IsPrime(p)
  }

  /** The search goes on to the next number, which is 0 after the largest one of 32 bits. */
  lemma SearchStep(num: u32, k: u32)
    requires NoPrimeUpTo(num, k)
    ensures var next := Add32(k, 1);
      if TrialFindsDivisor(next) then NoPrimeUpTo(num, next) else IsNextPrime(num, next)
  {
    if k + 1 < TWO_TO_THE_32 {
      assert Add32(k, 1) == k + 1;
      TrialDivisionDecides(k + 1);
    } else {
      assert Add32(k, 1) == 0;
    }
  }

  /** A number that fails the first trial division is composite and at least 6. */
  lemma SearchStarts(num: u32)
    requires TrialFindsDivisor(num)
    ensures NoPrimeUpTo(num, num)
  {
    TrialDivisionDecides(num);
  }

  /** The result for num; None stands for the uninitialised variable. */
  ghost predicate Returned(num: u32, r: Option<u32>) {
    if IsPrime(num) || num in {0, 1, 4} then r == None else r.Some? && IsNextPrime(num, r.value)
  }

  const LARGEST_PRIME: u32 := 4294967291

  /** The search finds a prime exactly for the arguments below the largest prime of 32 bits. */
  lemma NextPrimeExists(num: u32, r: u32)
    requires IsNextPrime(num, r)
    ensures r != 0 <==> num < LARGEST_PRIME
    ensures num < LARGEST_PRIME ==> num < r <= LARGEST_PRIME && IsPrime(r)
  {
    LargestPrimeBelow2To32();
  }

  /** The loop that sets the flag prime when it meets a divisor. */
  method TrialDivision(n: u32) returns (prime: u32)
    ensures prime == if TrialFindsDivisor(n) then 1 else 0
  {
    prime := 0;
    var i := 2;
    while i < n / 2
      invariant 2 <= i
      invariant forall k :: 2 <= k < i && k < n / 2 ==> n % k != 0
    {
      if n % i == 0 {
        prime := 1;
        break;
      }
      i := i + 1;
    }
  }

  /** None stands for the uninitialised variable returned when num passes the first trial division. */
  method NextPrime(num: u32) returns (r: Option<u32>)
    ensures Returned(num, r)
    ensures r.Some? ==> if num < LARGEST_PRIME then num < r.value && IsPrime(r.value) else r.value == 0
  {
    r := None;
    var prime := TrialDivision(num);
    TrialDivisionDecides(num);
    if prime == 1 {
      var nextPrime: u32 := num;
      SearchStarts(num);
      while prime != 0
        invariant prime == 0 || prime == 1
        invariant if prime == 0 then IsNextPrime(num, nextPrime) else NoPrimeUpTo(num, nextPrime)
        decreases prime, TWO_TO_THE_32 - nextPrime
      {
        SearchStep(num, nextPrime);
        nextPrime := Add32(nextPrime, 1);
        prime := TrialDivision(nextPrime);
      }
      NextPrimeExists(num, nextPrime);
      r := Some(nextPrime);
    }
  }
}
