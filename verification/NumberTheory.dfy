/** Primes and modular arithmetic under the sketch's hash family. */
module NumberTheory {

  ghost predicate IsPrime(n: int) {
    2 <= n && forall d :: 2 <= d < n ==> n % d != 0
  }

  ghost function Pow(m: nat, n: nat): nat {
    if n == 0 then 1 else m * Pow(m, n - 1)
  }

  lemma PowPositive(m: nat, n: nat)
    requires 0 < m
    ensures 0 < Pow(m, n)
  {
    if n > 0 {
      PowPositive(m, n - 1);
      MulGe(m, Pow(m, n - 1));
    }
  }

  /** Quotient and remainder are unique. */
  lemma ModUnique(x: int, q: int, m: int, r: int)
    requires 0 <= r < m && x == q * m + r
    ensures x % m == r
  {
    var k := x / m - q;
    assert k * m == r - x % m by {
      assert x == (x / m) * m + x % m;
      assert k * m == (x / m) * m - q * m;
    }
    if k >= 1 { MulGe(k, m); }
    if k <= -1 { MulGe(-k, m); }
  }

  lemma MulGe(k: int, m: int)
    requires 1 <= k && 0 <= m
    ensures k * m >= m
  {
    assert k * m == (k - 1) * m + m;
  }

  lemma MulMonotone(x: int, y: int, d: int)
    requires x <= y && 0 <= d
    ensures x * d <= y * d
  {
    assert y * d == x * d + (y - x) * d;
  }

  lemma MulMonotone2(a: nat, b: nat, c: nat, d: nat)
    requires a <= c && b <= d
    ensures a * b <= c * d
  {
    MulMonotone(a, c, b);
    MulMonotone(b, d, c);
  }

  /** Adding a multiple of m does not change a residue. */
  lemma ModShift(x: int, k: int, m: int)
    requires 0 < m
    ensures (x + k * m) % m == x % m
  {
    ModUnique(x + k * m, x / m + k, m, x % m);
  }

  lemma ModAdd(x: int, y: int, m: int)
    requires 0 < m
    ensures (x % m + y) % m == (x + y) % m
  {
    ModShift(x % m + y, x / m, m);
  }

  lemma ModMul(x: int, y: int, m: int)
    requires 0 < m
    ensures ((x % m) * y) % m == (x * y) % m
  {
    var q := x / m;
    assert x * y == (x % m) * y + (q * y) * m by { assert x == q * m + x % m; }
    ModShift((x % m) * y, q * y, m);
  }

  lemma SmallMultiple(e: int, m: int)
    requires -m < e < m
    ensures e % m == 0 <==> e == 0
  {
    if e > 0 { ModUnique(e, 0, m, e); }
    if e < 0 { ModUnique(e, -1, m, e + m); }
  }

  /** Two numbers have the same residue exactly when m divides their difference. */
  lemma SameResidue(x: int, y: int, m: int)
    requires 0 < m
    ensures x % m == y % m <==> (x - y) % m == 0
  {
    var e := x % m - y % m;
    SmallMultiple(e, m);
    ModShift(e, x / m - y / m, m);
    assert x - y == e + (x / m - y / m) * m by {
      assert (x / m - y / m) * m == x / m * m - y / m * m;
    }
  }

  lemma InverseStep(a: int, m: int, q: int, r: int, v: int)
    requires m == q * a + r
    ensures a * (-q * v) == r * v + (-v) * m
  {
    assert (-v) * m == (-v) * (q * a) + (-v) * r;
    assert (-v) * (q * a) == a * (-q * v);
  }

  /** A prime leaves a smaller remainder, which is not 0, by everything between 1 and itself. */
  lemma Remainder(a: int, m: int) returns (q: int, r: int)
    requires IsPrime(m) && 2 <= a < m
    ensures m == q * a + r && 1 <= r < a
  {
    q, r := m / a, m % a;
  }

  /** Every residue other than 0 has an inverse modulo a prime. */
  lemma {:induction false} Inverse(a: int, m: int) returns (u: int)
    requires IsPrime(m) && 1 <= a < m
    ensures (a * u) % m == 1
    decreases a
  {
    if a == 1 {
      u := 1;
    } else {
      var q, r := Remainder(a, m);
      var v := Inverse(r, m);
      u := -q * v;
      InverseStep(a, m, q, r, v);
      ModShift(r * v, -v, m);
    }
  }

  /** Every integer that m does not divide has an inverse modulo a prime. */
  lemma InverseOf(a: int, m: int) returns (u: int)
    requires IsPrime(m) && a % m != 0
    ensures (a * u) % m == 1
  {
    u := Inverse(a % m, m);
    ModMul(a, u, m);
  }

  /** With u an inverse of d modulo m, s + d * b == r has b == u * (r - s) as its solution, and no other. */
  lemma LinearCongruence(d: int, u: int, s: int, r: int, b: int, m: int)
    requires 0 < m && (d * u) % m == 1 % m
    ensures (s + d * b - r) % m == 0 <==> (b - u * (r - s)) % m == 0
  {
    var p := (d * u) / m - 1 / m;
    assert d * u == 1 + p * m by {
      assert ((d * u) / m - 1 / m) * m == (d * u) / m * m - 1 / m * m;
    }
    TimesInverse(d, u, s, r, b, p, m);
    // u * e == f and d * f == e modulo m
    Implies(s + d * b - r, b - u * (r - s), u, p * b, m);
    Implies(b - u * (r - s), s + d * b - r, d, -p * (r - s), m);
  }

  lemma Implies(e: int, f: int, u: int, k: int, m: int)
    requires 0 < m && u * e == f + k * m
    ensures e % m == 0 ==> f % m == 0
  {
    ModShift(f, k, m);
    ModMul(e, u, m);
  }

  lemma TimesInverse(d: int, u: int, s: int, r: int, b: int, p: int, m: int)
    requires d * u == 1 + p * m
    ensures u * (s + d * b - r) == (b - u * (r - s)) + (p * b) * m
    ensures d * (b - u * (r - s)) == (s + d * b - r) + (-p * (r - s)) * m
  {
    var k := r - s;
    calc {
      u * (d * b - k);
      (d * u) * b - u * k;
      { assert (1 + p * m) * b == b + (p * b) * m; }
      b + (p * b) * m - u * k;
    }
    calc {
      d * (b - u * k);
      d * b - (d * u) * k;
      { assert (1 + p * m) * k == k + (p * k) * m; }
      d * b - k - (p * k) * m;
      { assert (-p * k) * m == -((p * k) * m); }
      d * b - k + (-p * k) * m;
    }
  }
}
