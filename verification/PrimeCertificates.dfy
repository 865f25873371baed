/** Primality of large numbers: trial division up to the root, and certificates from powers modulo the number. */
module PrimeCertificates {
  import opened NumberTheory
  import opened Counting

  /** A proper divisor has a cofactor that is one too. */
  lemma Cofactor(n: nat, d: nat) returns (e: nat)
    requires 2 <= d < n && n % d == 0
    ensures n == d * e && 2 <= e < n && n % e == 0
  {
    e := n / d;
    assert n == e * d;
    if e <= 1 { MulMonotone(e, 1, d); }
    ModUnique(n, d, e, 0);
    MulMonotone(2, d, e);
  }

  /** A number with no divisor up to its root is prime. */
  lemma RootDecides(n: nat, root: nat)
    requires 2 <= n && n < (root + 1) * (root + 1)
    requires forall d :: 2 <= d <= root ==> n % d != 0
    ensures IsPrime(n)
  {
    forall d | 2 <= d < n ensures n % d != 0 {
      if n % d == 0 {
        var e := Cofactor(n, d);
        if root < d && root < e {
          MulMonotone2(root + 1, root + 1, d, e);
        }
      }
    }
  }

  // ---------- powers modulo a number ----------

  lemma TimesAssociates(x: int, y: int, z: int)
    ensures x * (y * z) == (x * y) * z
  {
  }

  lemma {:induction false} PowAdd(b: nat, i: nat, j: nat)
    ensures Pow(b, i + j) == Pow(b, i) * Pow(b, j)
  {
    if i > 0 {
      PowAdd(b, i - 1, j);
      TimesAssociates(b, Pow(b, i - 1), Pow(b, j));
    }
  }

  lemma ModProduct(x: int, y: int, m: int)
    requires 0 < m
    ensures ((x % m) * (y % m)) % m == (x * y) % m
  {
    ModMul(x, y % m, m);
    ModMul(y, x, m);
    assert x * (y % m) == (y % m) * x && x * y == y * x;
  }

  /** Multiplying by a power that is 1 changes nothing. */
  lemma OneIsNeutral(b: nat, w: nat, k: nat, p: nat)
    requires 1 < p && Pow(b, k) % p == 1
    ensures Pow(b, w + k) % p == Pow(b, w) % p
  {
    PowAdd(b, w, k);
    ModProduct(Pow(b, w), Pow(b, k), p);
    ModUnique(Pow(b, w) % p, 0, p, Pow(b, w) % p);
  }

  lemma OneTimeMore(u: nat, k: nat)
    requires 0 < u
    ensures 0 <= (u - 1) * k && u * k == (u - 1) * k + k
  {
  }

  /** A power that is 1 stays 1 when repeated. */
  lemma {:induction false} OneRepeats(b: nat, k: nat, u: nat, p: nat)
    requires 1 < p && Pow(b, k) % p == 1
    ensures Pow(b, u * k) % p == 1
  {
    if u == 0 {
      ModUnique(1, 0, p, 1);
    } else {
      OneTimeMore(u, k);
      OneRepeats(b, k, u - 1, p);
      OneIsNeutral(b, (u - 1) * k, k, p);
    }
  }

  ghost predicate Hits(k: nat, u: nat, v: nat, order: nat, w: nat) {
    u * k == w + v * order
  }

  ghost predicate HasMultiple(k: nat, order: nat, w: nat) {
    exists u: nat, v: nat :: Hits(k, u, v, order, w)
  }

  /** Every exponent below order has a multiple that is w modulo order. */
  ghost predicate Covers(order: nat, w: nat) {
    forall k: nat :: 0 < k < order ==> HasMultiple(k, order, w)
  }

  lemma PrimeCovers(q: nat)
    requires IsPrime(q)
    ensures Covers(q, 1)
  {
    forall k: nat | 0 < k < q ensures HasMultiple(k, q, 1) {
      ModUnique(k, 0, q, k);
      var u, v := PositiveInverse(k, q);
      assert Hits(k, u, v, q, 1);
    }
  }

  lemma PositiveInverse(k: nat, q: nat) returns (u: nat, v: nat)
    requires IsPrime(q) && k % q != 0
    ensures u * k == 1 + v * q
  {
    var i := InverseOf(k, q);
    u := i % q;
    ModMul(i, k, q);
    assert i * k == k * i;
    v := u * k / q;
    assert (u * k) / q * q + (u * k) % q == u * k;
    assert 0 <= u * k;
  }

  lemma PrimeSquareCovers(q: nat)
    requires IsPrime(q)
    ensures Covers(q * q, q)
  {
    forall k: nat | 0 < k < q * q ensures HasMultiple(k, q * q, q) {
      SquareCovers(k, q);
    }
  }

  lemma SquareCovers(k: nat, q: nat)
    requires IsPrime(q) && 0 < k < q * q
    ensures HasMultiple(k, q * q, q)
  {
    if k % q != 0 {
      var u, v := PositiveInverse(k, q);
      TimesSides(u * k, v, q);
      assert (q * u) * k == q * (u * k);
      assert Hits(k, q * u, v, q * q, q);
    } else {
      var j := Reduced(k, q);
      var u, v := PositiveInverse(j, q);
      TimesSides(u * j, v, q);
      assert u * k == q * (u * j);
      assert Hits(k, u, v, q * q, q);
    }
  }

  lemma TimesSides(x: int, v: int, q: int)
    requires x == 1 + v * q
    ensures q * x == q + v * (q * q)
  {
  }

  lemma Reduced(k: nat, q: nat) returns (j: nat)
    requires 0 < q && k % q == 0 && 0 < k < q * q
    ensures k == j * q && j % q != 0
  {
    j := k / q;
    assert k == j * q;
    if j >= q { MulMonotone(q, j, q); }
    ModUnique(j, 0, q, j);
  }

  /** The order of b modulo p, seen from its powers: order is the first exponent where they are 1. */
  ghost predicate HasOrder(b: nat, order: nat, p: nat) {
    1 < p && Pow(b, order) % p == 1 && forall k :: 0 < k < order ==> Pow(b, k) % p != 1
  }

  lemma MultipleTells(b: nat, order: nat, w: nat, p: nat, k: nat, u: nat, v: nat)
    requires 1 < p && Pow(b, order) % p == 1 && Pow(b, w) % p != 1 && Hits(k, u, v, order, w)
    ensures Pow(b, k) % p != 1
  {
    if Pow(b, k) % p == 1 {
      OneRepeats(b, k, u, p);
      OneRepeats(b, order, v, p);
      OneIsNeutral(b, w, v * order, p);
    }
  }

  lemma OrderFrom(b: nat, order: nat, w: nat, p: nat)
    requires 1 < p && Pow(b, order) % p == 1 && Pow(b, w) % p != 1 && Covers(order, w)
    ensures HasOrder(b, order, p)
  {
    forall k: nat | 0 < k < order ensures Pow(b, k) % p != 1 {
      assert HasMultiple(k, order, w);
      var u: nat, v: nat :| Hits(k, u, v, order, w);
      MultipleTells(b, order, w, p, k, u, v);
    }
  }

  lemma PowersDiffer(b: nat, order: nat, p: nat, i: nat, j: nat)
    requires HasOrder(b, order, p) && i < j < order
    ensures Pow(b, i) % p != Pow(b, j) % p
  {
    var rest := order - i;
    PowAdd(b, i, rest);
    PowAdd(b, j, rest);
    ModProduct(Pow(b, i), Pow(b, rest), p);
    ModProduct(Pow(b, j), Pow(b, rest), p);
    assert j + rest == (j - i) + order;
    OneIsNeutral(b, j - i, order, p);
  }

  lemma PowersAreNotZero(b: nat, order: nat, p: nat, i: nat)
    requires HasOrder(b, order, p) && i < order
    ensures Pow(b, i) % p != 0
  {
    PowAdd(b, i, order - i);
    ModProduct(Pow(b, i), Pow(b, order - i), p);
  }

  /** The powers of b are that many residues other than 0. */
  lemma OrderIsBelow(b: nat, order: nat, p: nat)
    requires HasOrder(b, order, p)
    ensures order < p
  {
    var f := (i: nat) => Pow(b, i) % p;
    forall i: nat, j: nat | i < j < order ensures f(i) != f(j) {
      PowersDiffer(b, order, p, i, j);
    }
    ImageSize(f, order);
    forall r | r in Image(f, order) ensures r in Below(p) - {0} {
      var i: nat :| i < order && f(i) == r;
      PowersAreNotZero(b, order, p, i);
    }
    Included(Image(f, order), Below(p) - {0});
  }

  /** The power b^e is r modulo n. */
  ghost predicate Power(b: nat, e: nat, n: nat, r: nat)
    requires 0 < n
  {
    forall d :: d == e ==> Pow(b, d) % n == r
  }

  lemma ResidueOfDivisor(x: int, n: nat, p: nat)
    requires 0 < p && 0 < n && n % p == 0
    ensures (x % n) % p == x % p
  {
    var k := x / n * (n / p);
    assert n == n / p * p;
    assert x == x % n + k * p by { assert x / n * (n / p * p) == k * p; }
    ModShift(x % n, k, p);
  }

  /** Modulo a divisor p of n, b has the order that its powers have modulo n. */
  lemma OrderModulo(n: nat, b: nat, order: nat, w: nat, c: nat, z: nat, p: nat)
    requires 2 <= n && Power(b, order, n, 1) && Power(b, w, n, c) && 1 <= c && ((c - 1) * z) % n == 1
    requires Covers(order, w) && 1 < p && n % p == 0
    ensures order < p
  {
    ResidueOfDivisor(Pow(b, order), n, p);
    ResidueOfDivisor(Pow(b, w), n, p);
    ModUnique(1, 0, p, 1);
    if Pow(b, w) % p == 1 {
      SameResidue(c, 1, p);
      ModMul(c - 1, z, p);
      ResidueOfDivisor((c - 1) * z, n, p);
      ModUnique(0, 0, p, 0);
    }
    OrderFrom(b, order, w, p);
    OrderIsBelow(b, order, p);
  }

  /**
   * Pocklington's test: b has an order modulo every divisor of n, and more than the root of n divides that order,
   * so that every divisor is above the root.
   */
  lemma Certified(n: nat, b: nat, order: nat, w: nat, c: nat, z: nat)
    requires 2 <= n < (order + 1) * (order + 1)
    requires Power(b, order, n, 1) && Power(b, w, n, c) && 1 <= c && ((c - 1) * z) % n == 1 && Covers(order, w)
    ensures IsPrime(n)
  {
    forall d | 2 <= d < n ensures n % d != 0 {
      if n % d == 0 {
        var e := Cofactor(n, d);
        OrderModulo(n, b, order, w, c, z, d);
        OrderModulo(n, b, order, w, c, z, e);
        MulMonotone2(order + 1, order + 1, d, e);
      }
    }
  }

  lemma FirstPower(b: nat, n: nat)
    requires b < n
    ensures Power(b, 1, n, b)
  {
    assert Pow(b, 1) == b * Pow(b, 0) == b;
    ModUnique(b, 0, n, b);
  }

  /** One binary digit of the exponent: square, and multiply by b for the digit 1. */
  lemma Climb(b: nat, n: nat, e: nat, r: nat, c: nat, s: nat)
    requires 0 < n && Power(b, e, n, r) && c in {1, b} && (r * r * c) % n == s
    ensures Power(b, if c == 1 then 2 * e else 2 * e + 1, n, s)
  {
    PowAdd(b, e, e);
    PowAdd(b, 1, 2 * e);
    assert Pow(b, 1) == b * Pow(b, 0) == b;
    ModProduct(Pow(b, e), Pow(b, e), n);
    ModMul(Pow(b, e) * Pow(b, e), c, n);
    ModMul(r * r, c, n);
    assert b * Pow(b, 2 * e) == Pow(b, 2 * e) * b;
  }

  // ---------- the primes at the ends of the usable ranges ----------

  lemma NoDivisorUpTo199(d: nat)
    requires 2 <= d < 200
    ensures 524287 % d != 0
  {
  }

  lemma NoDivisorUpTo299(d: nat)
    requires 200 <= d < 300
    ensures 524287 % d != 0
  {
  }

  lemma NoDivisorUpTo399(d: nat)
    requires 300 <= d < 400
    ensures 524287 % d != 0
  {
  }

  lemma NoDivisorUpTo499(d: nat)
    requires 400 <= d < 500
    ensures 524287 % d != 0
  {
  }

  lemma NoDivisorUpTo599(d: nat)
    requires 500 <= d < 600
    ensures 524287 % d != 0
  {
  }

  lemma NoDivisorUpTo724(d: nat)
    requires 600 <= d < 725
    ensures 524287 % d != 0
  {
  }

  lemma MersennePrime()
    ensures IsPrime(524287)
  {
    forall d | 2 <= d <= 724 ensures 524287 % d != 0 {
      if
      case 2 <= d < 200 => NoDivisorUpTo199(d);
      case 200 <= d < 300 => NoDivisorUpTo299(d);
      case 300 <= d < 400 => NoDivisorUpTo399(d);
      case 400 <= d < 500 => NoDivisorUpTo499(d);
      case 500 <= d < 600 => NoDivisorUpTo599(d);
      case 600 <= d < 725 => NoDivisorUpTo724(d);
    }
    RootDecides(524287, 724);
  }

  lemma PowersBelow2To23(b: nat, n: nat)
    requires b == 65536 && n == 8388593
    ensures Power(b, 524287, n, 1)
  {
    FirstPower(b, n);
    Climb(b, n, 1, 65536, b, 900);
    Climb(b, n, 3, 900, b, 1143496);
    Climb(b, n, 7, 1143496, b, 2160733);
    Climb(b, n, 15, 2160733, b, 5115687);
    Climb(b, n, 31, 5115687, b, 6327638);
    Climb(b, n, 63, 6327638, b, 1569075);
    Climb(b, n, 127, 1569075, b, 617254);
    Climb(b, n, 255, 617254, b, 6997875);
    Climb(b, n, 511, 6997875, b, 807977);
    Climb(b, n, 1023, 807977, b, 290387);
    Climb(b, n, 2047, 290387, b, 6908921);
    Climb(b, n, 4095, 6908921, b, 4426406);
    Climb(b, n, 8191, 4426406, b, 6691705);
    Climb(b, n, 16383, 6691705, b, 6113279);
    Climb(b, n, 32767, 6113279, b, 2236924);
    Climb(b, n, 65535, 2236924, b, 7829490);
    Climb(b, n, 131071, 7829490, b, 7831538);
    Climb(b, n, 262143, 7831538, b, 1);
  }

  /** The largest prime up to 2^23; one less than it is 16 times a prime. */
  lemma LargestPrimeUpTo2To23()
    ensures IsPrime(8388593)
    ensures forall p :: 8388593 < p <= 0x80_0000 ==> !IsPrime(p)
  {
    MersennePrime();
    PrimeCovers(524287);
    PowersBelow2To23(65536, 8388593);
    FirstPower(65536, 8388593);
    Certified(8388593, 65536, 524287, 1, 65536, 3340589);
    forall p | 8388593 < p <= 0x80_0000 ensures !IsPrime(p) {
      SmallFactor(p);
    }
  }

  lemma SmallFactor(p: nat)
    requires 8388593 < p <= 0x80_0000
    ensures !IsPrime(p)
  {
    assert exists d :: 2 <= d < p && p % d == 0 by {
      var d := if p % 2 == 0 then 2 else if p % 3 == 0 then 3 else if p % 5 == 0 then 5
        else if p == 8388599 then 17 else if p == 8388601 then 13 else 47;
      assert p % d == 0;
    }
  }

  lemma PowersOfSquare(b: nat, n: nat)
    requires b == 18389778 && n == 22605091
    ensures Power(b, 181, n, 13954217) && Power(b, 32761, n, 1)
  {
    FirstPower(b, n);
    Climb(b, n, 1, 18389778, 1, 18881964);
    Climb(b, n, 2, 18881964, b, 22134795);
    Climb(b, n, 5, 22134795, b, 19857376);
    Climb(b, n, 11, 19857376, 1, 18167953);
    Climb(b, n, 22, 18167953, b, 15500452);
    Climb(b, n, 45, 15500452, 1, 15607508);
    Climb(b, n, 90, 15607508, b, 13954217);
    Climb(b, n, 1, 18389778, b, 18694817);
    Climb(b, n, 3, 18694817, b, 3991823);
    Climb(b, n, 7, 3991823, b, 10446987);
    Climb(b, n, 15, 10446987, b, 12830595);
    Climb(b, n, 31, 12830595, b, 8572888);
    Climb(b, n, 63, 8572888, b, 8077143);
    Climb(b, n, 127, 8077143, b, 5894688);
    Climb(b, n, 255, 5894688, b, 16329565);
    Climb(b, n, 511, 16329565, b, 5776459);
    Climb(b, n, 1023, 5776459, b, 10349018);
    Climb(b, n, 2047, 10349018, b, 9799090);
    Climb(b, n, 4095, 9799090, 1, 10622299);
    Climb(b, n, 8190, 10622299, 1, 14739265);
    Climb(b, n, 16380, 14739265, b, 1);
  }

  lemma CertifyingPrime()
    ensures IsPrime(22605091)
  {
    RootDecides(181, 13);
    PrimeSquareCovers(181);
    PowersOfSquare(18389778, 22605091);
    Certified(22605091, 18389778, 32761, 181, 13954217, 19569746);
  }

  lemma FirstPowersBelow2To32(b: nat, n: nat)
    requires b == 1073745729 && n == 4294967291
    ensures Power(b, 5518, n, 1810740027)
  {
    FirstPower(b, n);
    Climb(b, n, 1, 1073745729, 1, 3504919713);
    Climb(b, n, 2, 3504919713, b, 2762101756);
    Climb(b, n, 5, 2762101756, 1, 1474251975);
    Climb(b, n, 10, 1474251975, b, 4065820878);
    Climb(b, n, 21, 4065820878, b, 1820247785);
    Climb(b, n, 43, 1820247785, 1, 3855700258);
    Climb(b, n, 86, 3855700258, 1, 1858816020);
    Climb(b, n, 172, 1858816020, 1, 2210652769);
    Climb(b, n, 344, 2210652769, b, 3255072328);
    Climb(b, n, 689, 3255072328, b, 2036108090);
    Climb(b, n, 1379, 2036108090, b, 2579436866);
    Climb(b, n, 2759, 2579436866, 1, 1810740027);
  }

  lemma PowersBelow2To32(b: nat, n: nat)
    requires b == 1073745729 && n == 4294967291
    ensures Power(b, 22605091, n, 1)
  {
    FirstPowersBelow2To32(b, n);
    Climb(b, n, 5518, 1810740027, b, 3638735613);
    Climb(b, n, 11037, 3638735613, b, 2142344274);
    Climb(b, n, 22075, 2142344274, 1, 164317185);
    Climb(b, n, 44150, 164317185, b, 3827152162);
    Climb(b, n, 88301, 3827152162, 1, 305512203);
    Climb(b, n, 176602, 305512203, 1, 999910711);
    Climb(b, n, 353204, 999910711, b, 3852027162);
    Climb(b, n, 706409, 3852027162, 1, 894754220);
    Climb(b, n, 1412818, 894754220, 1, 2824842023);
    Climb(b, n, 2825636, 2824842023, 1, 3541280234);
    Climb(b, n, 5651272, 3541280234, b, 4191888076);
    Climb(b, n, 11302545, 4191888076, b, 1);
  }

  /** The largest prime below 2^32; one less than it is 190 times a prime. */
  lemma LargestPrimeBelow2To32()
    ensures IsPrime(4294967291)
    ensures forall p :: 4294967291 < p < 0x1_0000_0000 ==> !IsPrime(p)
  {
    CertifyingPrime();
    PrimeCovers(22605091);
    PowersBelow2To32(1073745729, 4294967291);
    FirstPower(1073745729, 4294967291);
    Certified(4294967291, 1073745729, 22605091, 1, 1073745729, 1771216906);
    assert 4294967292 % 2 == 0 && 4294967293 % 9241 == 0 && 4294967294 % 2 == 0 && 4294967295 % 3 == 0;
  }
}
