/** Which table sizes the prime search gives, and what they are good for. */
module TableSize {
  import opened Base
  import opened NumberTheory
  import opened PrimeCertificates
  import opened PrimeSearch
  import opened UniversalHash

  const LARGEST_USABLE: u32 := 8388593

  /**
   * The size returned makes a universal hash family without overflow for exactly these arguments. The primes among
   * 251 .. 8388592 are not among them: their result is uninitialised.
   */
  lemma {:induction false} UsableExactly(num: u32, r: Option<u32>, len: nat)
    requires Returned(num, r) && 2 <= len
    ensures r.Some? && IsPrime(r.value) && FitsInt(r.value, len) && IsUniversal(r.value, len)
      <==> 251 <= num < LARGEST_USABLE && !IsPrime(num)
  {
    if r.Some? {
      NextPrimeExists(num, r.value);
      LargestPrimeUpTo2To23();
      if IsPrime(r.value) {
        HashFitsInt(r.value, len);
        UniversalIffAboveByte(r.value, len);
        FirstAboveByte(num, r.value);
      }
    }
  }

  lemma FirstAboveByte(num: u32, r: u32)
    requires IsNextPrime(num, r) && IsPrime(r)
    ensures 0xFF < r <==> 251 <= num
  {
    RootDecides(251, 15);
    assert 252 % 2 == 0 && 253 % 11 == 0 && 254 % 2 == 0 && 255 % 3 == 0;
  }

  function RoundDown(n: nat, d: nat): nat
    requires 0 < d
  {
    n / d
  }

  /** Entries asked for: the inverse den/num of the percentage, and the share onum/oden of it on top, rounded down. */
  function Entries(num: nat, den: nat, onum: nat, oden: nat): nat
    requires 0 < num && 0 < oden
  {
    MulMonotone2(1, 1, num, oden);
    MulMonotone2(0, 0, den, oden + onum);
    RoundDown(den * (oden + onum), num * oden)
  }

  /** Entries is the largest number e with e * percentage <= 1 + oversampling. */
  lemma EntriesAre(num: nat, den: nat, onum: nat, oden: nat, e: nat)
    requires 0 < num && 0 < oden
    ensures e <= Entries(num, den, onum, oden) <==> e * (num * oden) <= den * (oden + onum)
  {
    MulMonotone2(1, 1, num, oden);
    MulMonotone2(0, 0, den, oden + onum);
    AtMostRoundDown(e, den * (oden + onum), num * oden);
  }

  lemma AtMostRoundDown(e: nat, n: nat, d: nat)
    requires 0 < d
    ensures e <= RoundDown(n, d) <==> e * d <= n
  {
    var q := RoundDown(n, d);
    assert q * d <= n < q * d + d;
    if e <= q {
      MulMonotone(e, q, d);
    } else {
      MulMonotone(q + 1, e, d);
    }
  }

  /** What main asserts of the size: it exceeds the inverse of the percentage. */
  ghost predicate AboveInverse(size: nat, num: nat, den: nat) {
    den < size * num
  }

  /** The assertion holds of the size returned for exactly these entries, at any percentage and oversampling. */
  lemma {:induction false} SizeExceedsInverse(num: nat, den: nat, onum: nat, oden: nat, r: Option<u32>)
    requires 0 < num && 0 < den && 0 < oden && Entries(num, den, onum, oden) < TWO_TO_THE_32
    requires Returned(Entries(num, den, onum, oden), r)
    ensures var e := Entries(num, den, onum, oden);
      r.Some? && AboveInverse(r.value, num, den) <==> e < LARGEST_PRIME && !IsPrime(e) && e !in {0, 1, 4}
  {
    LargestPrimeBelow2To32();
    if r.Some? {
      NextPrimeExists(Entries(num, den, onum, oden), r.value);
      if r.value != 0 {
        FoundExceedsInverse(num, den, onum, oden, r.value);
      }
    }
  }

  lemma FoundExceedsInverse(num: nat, den: nat, onum: nat, oden: nat, r: nat)
    requires 0 < num && 0 < oden && Entries(num, den, onum, oden) < r
    ensures AboveInverse(r, num, den)
  {
    MulMonotone2(1, 1, num, oden);
    MulMonotone2(0, 0, den, oden + onum);
    RoundedDown(den * (oden + onum), num * oden, r);
    LargeEnough(num, den, onum, oden, r);
  }

  /** One in a hundred and a hundredth on top ask for 101 entries, a prime, and leave the size uninitialised. */
  lemma UninitialisedSize(r: Option<u32>)
    requires Returned(Entries(1, 100, 1, 100), r)
    ensures Entries(1, 100, 1, 100) == 101 && r == None
  {
    RootDecides(101, 10);
  }

  lemma RoundedDown(n: nat, d: nat, r: nat)
    requires 0 < d && RoundDown(n, d) < r
    ensures n < r * d
  {
    assert n == n / d * d + n % d;
    MulMonotone(n / d + 1, r, d);
  }

  lemma LargeEnough(num: nat, den: nat, onum: nat, oden: nat, r: nat)
    requires 0 < oden && den * (oden + onum) < r * (num * oden)
    ensures den < r * num
  {
    assert r * (num * oden) == (r * num) * oden;
    assert den * (oden + onum) == den * oden + den * onum;
    if r * num <= den {
      MulMonotone(r * num, den, oden);
    }
  }

  /** The defaults of one in a thousand and a fifth on top: 1200 entries asked for, 1201 buckets taken. */
  lemma DefaultTableSize(r: Option<u32>)
    requires Returned(Entries(1, 1000, 1, 5), r)
    ensures r == Some(1201) && AboveInverse(1201, 1, 1000)
    ensures FitsInt(1201, KEY_LEN) && IsUniversal(1201, KEY_LEN)
  {
    assert Entries(1, 1000, 1, 5) == 1200;
    assert 1200 % 2 == 0;
    RootDecides(1201, 34);
    HashFitsInt(1201, KEY_LEN);
    UniversalIffAboveByte(1201, KEY_LEN);
  }
}
