/**
 * The integer arithmetic of the threshold update. Multiplication, division and the square root are written by
 * recursion, and each has a lemma that says what it is, so that only the proofs that need products meet them.
 */
module Scaling {
  import opened NumberTheory

  function Product(x: nat, y: nat): nat {
    if x == 0 then 0 else y + Product(x - 1, y)
  }

  lemma {:induction false} ProductIs(x: nat, y: nat)
    ensures Product(x, y) == x * y
  {
    if x > 0 {
      ProductIs(x - 1, y);
      assert x * y == y + (x - 1) * y;
    }
  }

  function Quotient(n: nat, d: nat): nat
    requires 0 < d
  {
    if n < d then 0 else 1 + Quotient(n - d, d)
  }

  lemma {:induction false} QuotientIs(n: nat, d: nat)
    requires 0 < d
    ensures var q := Quotient(n, d); q * d <= n < (q + 1) * d
  {
    if n >= d {
      QuotientIs(n - d, d);
      var q := Quotient(n - d, d);
      assert (q + 1) * d == q * d + d && (q + 2) * d == (q + 1) * d + d;
    }
  }

  /** Integer square root. */
  function Root(n: nat): nat {
    if n == 0 then 0
    else
      var r := Root(n - 1);
      if Product(r + 1, r + 1) <= n then r + 1 else r
  }

  lemma NextSquare(x: nat)
    ensures (x + 1) * (x + 1) == x * x + 2 * x + 1
  {
  }

  lemma {:induction false} RootIs(n: nat)
    ensures var r := Root(n); r * r <= n < (r + 1) * (r + 1)
  {
    if n > 0 {
      RootIs(n - 1);
      var r := Root(n - 1);
      ProductIs(r + 1, r + 1);
      NextSquare(r + 1);
    }
  }

  function Cube(x: nat): nat {
    Product(x, Product(x, x))
  }

  lemma CubeIs(x: nat)
    ensures Cube(x) == x * (x * x) && (0 < x ==> 0 < Cube(x))
  {
    ProductIs(x, x);
    ProductIs(x, x * x);
    if 0 < x {
      MulMonotone2(1, 1, x, x);
      MulMonotone2(1, 1, x, x * x);
    }
  }

  /** floor(t * (usage/target)^3), usage being avg/mem and target 9/10. */
  function ScaledUp(t: nat, avg: nat, mem: nat): nat
    requires 0 < mem
  {
    CubeIs(9 * mem);
    Quotient(Product(t, Cube(10 * avg)), Cube(9 * mem))
  }

  /** floor(t^2 * usage * target) */
  function DownSquare(t: nat, avg: nat, mem: nat): nat
    requires 0 < mem
  {
    Quotient(Product(9 * Product(t, t), avg), 10 * mem)
  }

  /** floor(t * (usage*target)^(1/2)): the code multiplies by the target where its comment divides. */
  function ScaledDown(t: nat, avg: nat, mem: nat): nat
    requires 0 < mem
  {
    Root(DownSquare(t, avg, mem))
  }

  /** Over the target, scaling up never lowers. */
  lemma UpNeverLowers(t: nat, avg: nat, mem: nat)
    requires 0 < mem && 10 * avg > 9 * mem
    ensures t <= ScaledUp(t, avg, mem)
  {
    var x, y := 9 * mem, 10 * avg;
    CubeIs(x);
    CubeIs(y);
    MulMonotone2(x, x, y, y);
    MulMonotone2(x, x * x, y, y * y);
    ProductIs(t, Cube(y));
    NotBelow(t, Cube(x), Cube(y));
  }

  lemma AtMostQuotient(v: nat, n: nat, d: nat)
    requires 0 < d
    ensures v <= Quotient(n, d) <==> v * d <= n
  {
    QuotientIs(n, d);
    var q := Quotient(n, d);
    if v <= q {
      MulMonotone(v, q, d);
    } else {
      MulMonotone(q + 1, v, d);
    }
  }

  /** Scaling up reaches v exactly if v is at most t times the cube of usage over target. */
  lemma UpReaches(t: nat, avg: nat, mem: nat, v: nat)
    requires 0 < mem
    ensures v <= ScaledUp(t, avg, mem)
      <==> v * ((9 * mem) * ((9 * mem) * (9 * mem))) <= t * ((10 * avg) * ((10 * avg) * (10 * avg)))
  {
    CubeIs(9 * mem);
    CubeIs(10 * avg);
    ProductIs(t, Cube(10 * avg));
    AtMostQuotient(v, t * Cube(10 * avg), Cube(9 * mem));
  }

  lemma NotBelow(t: nat, x: nat, y: nat)
    requires 0 < x <= y
    ensures t <= Quotient(t * y, x)
  {
    QuotientIs(t * y, x);
    MulMonotone(x, y, t);
    if Quotient(t * y, x) < t {
      MulMonotone(Quotient(t * y, x) + 1, t, x);
    }
  }

  /** A value d reached by scaling down satisfies d^2 <= t^2 * usage * target. */
  lemma DownIsRoot(t: nat, avg: nat, mem: nat)
    requires 0 < mem
    ensures var d := ScaledDown(t, avg, mem);
      d * d <= DownSquare(t, avg, mem) && DownSquare(t, avg, mem) * (10 * mem) <= 9 * (t * t) * avg
  {
    RootIs(DownSquare(t, avg, mem));
    ProductIs(t, t);
    ProductIs(9 * (t * t), avg);
    QuotientIs(9 * (t * t) * avg, 10 * mem);
  }

  /** If usage * target is at most (p/q)^2, scaling down gives at most t * p/q. */
  lemma DownAtMost(t: nat, avg: nat, mem: nat, p: nat, q: nat)
    requires 0 < mem && 9 * avg * (q * q) <= (p * p) * (10 * mem)
    ensures q * ScaledDown(t, avg, mem) <= p * t
  {
    var s := DownSquare(t, avg, mem);
    DownIsRoot(t, avg, mem);
    SquaresBelow(s, t * t, avg, mem, p * p, q * q);
    RootsBelow(ScaledDown(t, avg, mem), s, t, p, q);
  }

  lemma QuotientBelow(n: nat, d: nat, b: nat)
    requires 0 < d
    ensures Quotient(n, d) < b <==> n < b * d
  {
    QuotientIs(n, d);
    var q := Quotient(n, d);
    if q < b {
      MulMonotone(q + 1, b, d);
    } else {
      MulMonotone(b, q, d);
    }
  }

  lemma RootAtMost(n: nat, r: nat)
    ensures Root(n) <= r <==> n < (r + 1) * (r + 1)
  {
    RootIs(n);
    var d := Root(n);
    if d <= r {
      MulMonotone2(d + 1, d + 1, r + 1, r + 1);
    } else {
      MulMonotone2(r + 1, r + 1, d, d);
    }
  }

  /** Scaling down reaches r exactly if t^2 * usage * target is below (r + 1)^2. */
  lemma DownReaches(t: nat, avg: nat, mem: nat, r: nat)
    requires 0 < mem
    ensures ScaledDown(t, avg, mem) <= r <==> 9 * (t * t) * avg < ((r + 1) * (r + 1)) * (10 * mem)
  {
    RootAtMost(DownSquare(t, avg, mem), r);
    ProductIs(t, t);
    ProductIs(9 * (t * t), avg);
    QuotientBelow(9 * (t * t) * avg, 10 * mem, (r + 1) * (r + 1));
  }

  lemma RootsBelow(d: nat, s: nat, t: nat, p: nat, q: nat)
    requires d * d <= s && s * (q * q) <= (t * t) * (p * p)
    ensures q * d <= p * t
  {
    MulMonotone(d * d, s, q * q);
    SquareOfProduct(q, d);
    SquareOfProduct(p, t);
    SquareMonotone(q * d, p * t);
  }

  lemma SquareOfProduct(x: nat, y: nat)
    ensures (x * y) * (x * y) == (y * y) * (x * x)
  {
    assert (x * y) * (x * y) == x * (y * (x * y)) == x * (x * (y * y));
  }

  /** s <= 9*t2*avg/(10*mem) and 9*avg*q2 <= p2*10*mem give s*q2 <= t2*p2. */
  lemma SquaresBelow(s: nat, t2: nat, avg: nat, mem: nat, p2: nat, q2: nat)
    requires 0 < mem && s * (10 * mem) <= 9 * t2 * avg && 9 * avg * q2 <= p2 * (10 * mem)
    ensures s * q2 <= t2 * p2
  {
    var m, a := 10 * mem, 9 * avg;
    assert s * m <= t2 * a by { assert 9 * t2 * avg == t2 * (9 * avg); }
    MulMonotone(s * m, t2 * a, q2);
    MulMonotone(a * q2, p2 * m, t2);
    assert (s * m) * q2 == (s * q2) * m;
    assert (t2 * a) * q2 == (a * q2) * t2;
    assert (p2 * m) * t2 == (t2 * p2) * m;
    CancelRight(s * q2, t2 * p2, m);
  }

  lemma CancelRight(x: int, y: int, m: int)
    requires 0 < m && x * m <= y * m
    ensures x <= y
  {
    assert (y + 1) * m == y * m + m;
    if x > y {
      MulMonotone(y + 1, x, m);
    }
  }

  lemma SquareMonotone(x: nat, y: nat)
    requires x * x <= y * y
    ensures x <= y
  {
    NextSquare(y);
    if x > y {
      MulMonotone2(y + 1, y + 1, x, x);
    }
  }

  /** Within the target, scaling down leaves at most nine tenths. */
  lemma DownLowers(t: nat, avg: nat, mem: nat)
    requires 0 < mem && 10 * avg <= 9 * mem
    ensures 10 * ScaledDown(t, avg, mem) <= 9 * t
  {
    DownAtMost(t, avg, mem, 9, 10);
  }
}
