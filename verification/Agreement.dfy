/**
 * When the stages of a filter agree, in terms of their coefficients, and under how many choices of them: that is, how
 * often the code keeps the promise of the filter.
 */
module Agreement {
  import opened Base
  import opened NumberTheory
  import opened Counting
  import opened UniversalHash
  import opened WorkerRuns
  import opened Admission
  import opened FalsePositives

  // ---------- multiples of a vector ----------

  /** b is u times a, modulo m. */
  ghost predicate IsMultiple(a: seq<nat>, b: seq<nat>, u: nat, m: nat)
    requires 0 < m
  {
    |a| == |b| && forall i :: 0 <= i < |a| ==> b[i] == (u * a[i]) % m
  }

  /** b is a multiple of a by a unit. */
  ghost predicate Proportional(a: seq<nat>, b: seq<nat>, m: nat)
    requires 0 < m
  {
    exists u: nat :: 1 <= u < m && IsMultiple(a, b, u, m)
  }

  lemma {:induction false} DotOfMultiple(key: seq<byte>, a: seq<nat>, b: seq<nat>, u: nat, m: nat)
    requires 0 < m && |key| == |a| && IsMultiple(a, b, u, m)
    ensures Dot(key, b) % m == (u * Dot(key, a)) % m
  {
    if key != [] {
      var n := |key| - 1;
      var d, e := Dot(key[..n], a[..n]), Dot(key[..n], b[..n]);
      DotOfMultiple(key[..n], a[..n], b[..n], u, m);
      OneMoreTerm(e, d, u, key[n], a[n], b[n], m);
    }
  }

  lemma SumResidues(x: int, x': int, y: int, y': int, m: int)
    requires 0 < m && x % m == x' % m && y % m == y' % m
    ensures (x + y) % m == (x' + y') % m
  {
    ModAdd(x, y, m);
    ModAdd(x', y, m);
    ModAdd(y, x', m);
    ModAdd(y', x', m);
  }

  lemma OneMoreTerm(e: int, d: int, u: int, k: int, a: int, b: int, m: int)
    requires 0 < m && e % m == (u * d) % m && b == (u * a) % m
    ensures (e + k * b) % m == (u * (d + k * a)) % m
  {
    ModMul(u * a, k, m);
    assert k * b == b * k;
    SumResidues(e, u * d, k * b, (u * a) * k, m);
    Spread(u, d, k, a);
  }

  lemma Spread(u: int, d: int, k: int, a: int)
    ensures u * (d + k * a) == u * d + (u * a) * k
  {
    assert u * (k * a) == (u * a) * k;
  }

  /** A prime that divides a product and not the first factor divides the second. */
  lemma DividesOther(x: int, y: int, m: int)
    requires IsPrime(m) && (x * y) % m == 0 && x % m != 0
    ensures y % m == 0
  {
    var u := InverseOf(x, m);
    ModMul(x * y, u, m);
    ModUnique(0, 0, m, 0);
    ModMul(x * u, y, m);
    assert (x * y) * u == (x * u) * y;
    assert (1 * y) % m == y % m;
  }

  lemma MultipleSameBuckets(m: nat, a: seq<nat>, b: seq<nat>, u: nat, f: FlowId, g: FlowId)
    requires IsPrime(m) && 1 <= u < m && IsMultiple(a, b, u, m) && |a| == KEY_LEN
    ensures Together(StageOf(m, a), f, g) <==> Together(StageOf(m, b), f, g)
  {
    DotOfMultiple(f.Key(), a, b, u, m);
    DotOfMultiple(g.Key(), a, b, u, m);
    UnitKeepsSame(u, Dot(f.Key(), a), Dot(g.Key(), a), m);
  }

  lemma UnitKeepsSame(u: int, x: int, y: int, m: int)
    requires IsPrime(m) && 1 <= u < m
    ensures (u * x) % m == (u * y) % m <==> x % m == y % m
  {
    SameResidue(x, y, m);
    SameResidue(u * x, u * y, m);
    TimesDifference(u, x, y);
    UnitKeepsZero(u, x - y, m);
  }

  lemma TimesDifference(u: int, x: int, y: int)
    ensures u * x - u * y == u * (x - y)
  {
  }

  lemma UnitKeepsZero(u: int, x: int, m: int)
    requires IsPrime(m) && 1 <= u < m
    ensures (u * x) % m == 0 <==> x % m == 0
  {
    ModUnique(u, 0, m, u);
    ModUnique(0, 0, m, 0);
    if (u * x) % m == 0 {
      DividesOther(u, x, m);
    } else {
      ModMul(x, u, m);
      assert x * u == u * x;
    }
  }

  // ---------- keys of two bytes ----------

  /** The key with p at i and q at j. */
  function TwoBytes(i: nat, j: nat, p: byte, q: byte): (k: seq<byte>)
    ensures |k| == KEY_LEN
  {
    seq(KEY_LEN, l => if l == i then p else if l == j then q else 0)
  }

  lemma {:induction false} DotOfTwo(key: seq<byte>, a: seq<nat>, i: nat, j: nat)
    requires |key| == |a| && i != j
    requires forall l :: 0 <= l < |key| && l != i && l != j ==> key[l] == 0
    ensures Dot(key, a) == (if i < |key| then key[i] * a[i] else 0) + if j < |key| then key[j] * a[j] else 0
  {
    if key != [] {
      DotOfTwo(key[..|key| - 1], a[..|a| - 1], i, j);
    }
  }

  lemma DotOfTwoBytes(a: seq<nat>, i: nat, j: nat, p: byte, q: byte)
    requires |a| == KEY_LEN && i < KEY_LEN && j < KEY_LEN && i != j
    ensures Dot(TwoBytes(i, j, p, q), a) == p * a[i] + q * a[j]
  {
    DotOfTwo(TwoBytes(i, j, p, q), a, i, j);
  }

  /** The stages of coefficients a and b put the same flows together. */
  ghost predicate SameBuckets(m: nat, a: seq<nat>, b: seq<nat>)
    requires 0 < m
  {
    forall f, g :: Together(StageOf(m, a), f, g) <==> Together(StageOf(m, b), f, g)
  }

  /** Keys of two bytes that collide under a collide under b. */
  lemma CollideAlike(m: nat, a: seq<nat>, b: seq<nat>, i: nat, j: nat, p: byte, q: byte, p': byte, q': byte)
    requires 0 < m && |a| == |b| == KEY_LEN && SameBuckets(m, a, b) && i < KEY_LEN && j < KEY_LEN && i != j
    ensures ((p - p') * a[i] + (q - q') * a[j]) % m == 0 <==> ((p - p') * b[i] + (q - q') * b[j]) % m == 0
  {
    var f := FlowOfKey(TwoBytes(i, j, p, q));
    var g := FlowOfKey(TwoBytes(i, j, p', q'));
    assert Together(StageOf(m, a), f, g) <==> Together(StageOf(m, b), f, g);
    TwoBytesMeet(m, a, i, j, p, q, p', q', f, g);
    TwoBytesMeet(m, b, i, j, p, q, p', q', f, g);
  }

  lemma TwoBytesMeet(m: nat, a: seq<nat>, i: nat, j: nat, p: byte, q: byte, p': byte, q': byte, f: FlowId, g: FlowId)
    requires 0 < m && |a| == KEY_LEN && i < KEY_LEN && j < KEY_LEN && i != j
    requires f.Key() == TwoBytes(i, j, p, q) && g.Key() == TwoBytes(i, j, p', q')
    ensures Together(StageOf(m, a), f, g) <==> ((p - p') * a[i] + (q - q') * a[j]) % m == 0
  {
    DotOfTwoBytes(a, i, j, p, q);
    DotOfTwoBytes(a, i, j, p', q');
    SameResidue(p * a[i] + q * a[j], p' * a[i] + q' * a[j], m);
    Difference(p, q, p', q', a[i], a[j]);
  }

  function TwoByteHash(n: nat, c: nat, d: nat, m: nat): (h: nat)
    requires 0 < m
    ensures h < m
  {
    ((n / 0x100) * c + (n % 0x100) * d) % m
  }

  /** With fewer than 2^16 buckets two different keys of two bytes collide. */
  lemma TwoBytesCollide(c: nat, d: nat, m: nat) returns (p: byte, q: byte, p': byte, q': byte)
    requires 0 < m < 0x1_0000
    ensures (p, q) != (p', q') && ((p - p') * c + (q - q') * d) % m == 0
  {
    var k, l := Pigeonhole((n: nat) => TwoByteHash(n, c, d, m), 0x1_0000, m);
    p, q, p', q' := k / 0x100, k % 0x100, l / 0x100, l % 0x100;
    TwoBytesSame(p, q, p', q', c, d, m);
  }

  lemma TwoBytesSame(p: int, q: int, p': int, q': int, c: int, d: int, m: int)
    requires 0 < m && (p * c + q * d) % m == (p' * c + q' * d) % m
    ensures ((p - p') * c + (q - q') * d) % m == 0
  {
    SameResidue(p * c + q * d, p' * c + q' * d, m);
    Difference(p, q, p', q', c, d);
  }

  lemma Difference(p: int, q: int, p': int, q': int, c: int, d: int)
    ensures (p - p') * c + (q - q') * d == p * c + q * d - (p' * c + q' * d)
  {
  }

  // ---------- agreement means proportional coefficients ----------

  lemma ByteDifference(x: int, m: int)
    requires -0xFF <= x <= 0xFF && 0xFF < m && x != 0
    ensures x % m != 0
  {
    SmallMultiple(x, m);
  }

  /** A coefficient that is 0 in one of two agreeing vectors is 0 in the other. */
  lemma ZerosAgree(m: nat, a: seq<nat>, b: seq<nat>, i: nat)
    requires 0 < m && a in Vectors(KEY_LEN, m) && b in Vectors(KEY_LEN, m) && |a| == |b| == KEY_LEN && i < KEY_LEN
    requires SameBuckets(m, a, b)
    ensures a[i] == 0 <==> b[i] == 0
  {
    var one: byte, none: byte := 1, 0;
    VectorsAre(a, KEY_LEN, m);
    VectorsAre(b, KEY_LEN, m);
    var j := if i == 0 then 1 else 0;
    CollideAlike(m, a, b, i, j, one, none, none, none);
    SmallMultiple(a[i], m);
    SmallMultiple(b[i], m);
  }

  /** Two relations x * a + y * c == 0 and x * b + y * d == 0 with y a unit: d is to c as b is to a. */
  lemma SameRatio(x: int, y: int, a: int, c: int, b: int, d: int, u: int, m: int)
    requires IsPrime(m) && y % m != 0 && (b - u * a) % m == 0
    requires (x * a + y * c) % m == 0 && (x * b + y * d) % m == 0
    ensures (d - u * c) % m == 0
  {
    ModUnique(0, 0, m, 0);
    var r, s := x * a + y * c, x * b + y * d;
    ModMul(r, -u, m);
    ModMul(b - u * a, -x, m);
    SumResidues(s, 0, r * (-u), 0, m);
    SumResidues(s + r * (-u), 0, (b - u * a) * (-x), 0, m);
    RatioSum(x, y, a, c, b, d, u);
    DividesOther(y, d - u * c, m);
  }

  lemma RatioSum(x: int, y: int, a: int, c: int, b: int, d: int, u: int)
    ensures (x * b + y * d) + (x * a + y * c) * (-u) + (b - u * a) * (-x) == y * (d - u * c)
  {
  }

  /** Where a[i] is not 0, the ratio of b[i] to a[i] is that of b[j] to a[j]. */
  lemma RatioEverywhere(m: nat, a: seq<nat>, b: seq<nat>, u: int, i: nat, j: nat)
    requires IsPrime(m) && 0xFF < m < 0x1_0000 && SameBuckets(m, a, b) && |a| == |b| == KEY_LEN
    requires i < KEY_LEN && j < KEY_LEN && i != j && a[i] % m != 0 && (b[i] - u * a[i]) % m == 0
    ensures (b[j] - u * a[j]) % m == 0
  {
    var p, q, p', q' := TwoBytesCollide(a[i], a[j], m);
    CollideAlike(m, a, b, i, j, p, q, p', q');
    var x, y := (p as int) - (p' as int), (q as int) - (q' as int);
    SecondByteDiffers(x, y, a[i], a[j], m);
    SameRatio(x, y, a[i], a[j], b[i], b[j], u, m);
  }

  lemma SecondByteDiffers(x: int, y: int, a: int, c: int, m: int)
    requires IsPrime(m) && -0xFF <= x <= 0xFF < m && -0xFF <= y <= 0xFF && (x != 0 || y != 0)
    requires (x * a + y * c) % m == 0 && a % m != 0
    ensures y % m != 0
  {
    if y == 0 {
      ByteDifference(x, m);
      if (x * a) % m == 0 {
        DividesOther(x, a, m);
      }
    } else {
      ByteDifference(y, m);
    }
  }

  lemma RatioIsMultiple(m: nat, a: seq<nat>, b: seq<nat>, i: nat) returns (u: nat)
    requires IsPrime(m) && 0xFF < m < 0x1_0000 && SameBuckets(m, a, b)
    requires a in Vectors(KEY_LEN, m) && b in Vectors(KEY_LEN, m) && |a| == |b| == KEY_LEN
    requires i < KEY_LEN && a[i] != 0
    ensures 1 <= u < m && IsMultiple(a, b, u, m)
  {
    VectorsAre(a, KEY_LEN, m);
    VectorsAre(b, KEY_LEN, m);
    ZerosAgree(m, a, b, i);
    u := Ratio(a[i], b[i], m);
    forall j | 0 <= j < KEY_LEN ensures b[j] == (u * a[j]) % m {
      if j != i {
        RatioEverywhere(m, a, b, u, i, j);
      }
      SameResidue(b[j], u * a[j], m);
      ModUnique(b[j], 0, m, b[j]);
    }
  }

  /** The unit that takes a to b, neither of which is 0. */
  lemma Ratio(a: nat, b: nat, m: nat) returns (u: nat)
    requires IsPrime(m) && 0 < a < m && 0 < b < m
    ensures 1 <= u < m && (b - u * a) % m == 0 && a % m != 0
  {
    ModUnique(a, 0, m, a);
    ModUnique(b, 0, m, b);
    var v := InverseOf(a, m);
    u := (b * v) % m;
    CancelInverse(a, b, v, m);
    SameResidue(b, u * a, m);
    ModUnique(0, 0, m, 0);
  }

  lemma CancelInverse(a: int, b: int, v: int, m: int)
    requires 0 < m && (a * v) % m == 1
    ensures (((b * v) % m) * a) % m == b % m
  {
    ModMul(b * v, a, m);
    ModMul(a * v, b, m);
    assert (b * v) * a == (a * v) * b;
  }

  /** Below 2^16 buckets two stages put the same flows together exactly if their coefficients are proportional. */
  lemma {:induction false} SameBucketsIff(m: nat, a: seq<nat>, b: seq<nat>)
    requires IsPrime(m) && 0xFF < m < 0x1_0000
    requires a in Vectors(KEY_LEN, m) && b in Vectors(KEY_LEN, m)
    ensures SameBuckets(m, a, b) <==> Proportional(a, b, m)
  {
    VectorsAre(a, KEY_LEN, m);
    VectorsAre(b, KEY_LEN, m);
    if Proportional(a, b, m) {
      var u: nat :| 1 <= u < m && IsMultiple(a, b, u, m);
      forall f, g ensures Together(StageOf(m, a), f, g) <==> Together(StageOf(m, b), f, g) {
        MultipleSameBuckets(m, a, b, u, f, g);
      }
    } else if SameBuckets(m, a, b) {
      if i :| 0 <= i < KEY_LEN && a[i] != 0 {
        var u := RatioIsMultiple(m, a, b, i);
      } else {
        forall i | 0 <= i < KEY_LEN ensures b[i] == (1 * a[i]) % m {
          ZerosAgree(m, a, b, i);
          ModUnique(0, 0, m, 0);
        }
        assert IsMultiple(a, b, 1, m);
      }
      assert false;
    }
  }

  /** All vectors are proportional to the first. */
  ghost predicate AllProportional(m: nat, v: seq<seq<nat>>)
    requires 0 < m
  {
    forall i :: 0 <= i < |v| ==> Proportional(v[0], v[i], m)
  }

  lemma AgreeMeansSame(m: nat, v: seq<seq<nat>>, i: nat)
    requires 0 < m && i < |v| && StagesAgree(StagesOf(m, v))
    ensures SameBuckets(m, v[0], v[i])
  {
    var hs := StagesOf(m, v);
    forall f, g ensures Together(StageOf(m, v[0]), f, g) <==> Together(StageOf(m, v[i]), f, g) {
      assert AgreeFor(hs, f, g);
      assert hs[0] == StageOf(m, v[0]) && hs[i] == StageOf(m, v[i]);
    }
  }

  lemma SameMeansAgree(m: nat, v: seq<seq<nat>>)
    requires 0 < m && forall i :: 0 <= i < |v| ==> SameBuckets(m, v[0], v[i])
    ensures StagesAgree(StagesOf(m, v))
  {
    var hs := StagesOf(m, v);
    forall f, g ensures AgreeFor(hs, f, g) {
      forall i, j | 0 <= i < |hs| && 0 <= j < |hs| && Together(hs[i], f, g) ensures Together(hs[j], f, g) {
        assert SameBuckets(m, v[0], v[i]) && SameBuckets(m, v[0], v[j]);
        assert Together(StageOf(m, v[0]), f, g);
      }
    }
  }

  /** What the stages need to agree: a condition that a caller can check on the coefficients drawn. */
  lemma {:induction false} StagesAgreeIff(m: nat, v: seq<seq<nat>>)
    requires IsPrime(m) && 0xFF < m < 0x1_0000 && v != []
    requires forall i :: 0 <= i < |v| ==> v[i] in Vectors(KEY_LEN, m)
    ensures StagesAgree(StagesOf(m, v)) <==> AllProportional(m, v)
  {
    forall i | 0 <= i < |v| ensures SameBuckets(m, v[0], v[i]) <==> Proportional(v[0], v[i], m) {
      SameBucketsIff(m, v[0], v[i]);
    }
    if StagesAgree(StagesOf(m, v)) {
      forall i | 0 <= i < |v| ensures SameBuckets(m, v[0], v[i]) {
        AgreeMeansSame(m, v, i);
      }
    } else if AllProportional(m, v) {
      SameMeansAgree(m, v);
    }
  }

  // ---------- how many choices agree ----------

  function Scaled(a: seq<nat>, u: nat, m: nat): (b: seq<nat>)
    requires 0 < m
    ensures IsMultiple(a, b, u, m)
  {
    seq(|a|, i requires 0 <= i < |a| => (u * a[i]) % m)
  }

  ghost function Multiples(a: seq<nat>, m: nat): set<seq<nat>>
    requires 0 < m
  {
    Image((k: nat) => Scaled(a, k + 1, m), m - 1)
  }

  lemma MultiplesAre(a: seq<nat>, m: nat, b: seq<nat>)
    requires 0 < m
    ensures b in Multiples(a, m) <==> Proportional(a, b, m)
  {
    var f := (k: nat) => Scaled(a, k + 1, m);
    assert Multiples(a, m) == Image(f, m - 1);
    if Proportional(a, b, m) {
      var u: nat :| 1 <= u < m && IsMultiple(a, b, u, m);
      assert b == f(u - 1);
    }
    if b in Image(f, m - 1) {
      var k: nat :| k < m - 1 && f(k) == b;
      assert IsMultiple(a, b, k + 1, m);
    }
  }

  lemma MultiplesSize(a: seq<nat>, m: nat, i: nat)
    requires IsPrime(m) && i < |a| && 0 < a[i] < m
    ensures |Multiples(a, m)| == m - 1
  {
    var f := (k: nat) => Scaled(a, k + 1, m);
    forall k: nat, l: nat | k < l < m - 1 ensures f(k) != f(l) {
      UnitsScaleApart(a[i], k + 1, l + 1, m);
      assert f(k)[i] == ((k + 1) * a[i]) % m && f(l)[i] == ((l + 1) * a[i]) % m;
    }
    ImageSize(f, m - 1);
    assert Multiples(a, m) == Image(f, m - 1);
  }

  lemma UnitsScaleApart(a: nat, u: nat, v: nat, m: nat)
    requires IsPrime(m) && 0 < a < m && u < v < m
    ensures (u * a) % m != (v * a) % m
  {
    UnitKeepsSame(a, u, v, m);
    ModUnique(u, 0, m, u);
    ModUnique(v, 0, m, v);
    assert u * a == a * u && v * a == a * v;
  }

  /** The choices of n stages' vectors that are all proportional to the first, which is not 0. */
  ghost function ProportionalChoices(m: nat, n: nat): set<seq<seq<nat>>>
    requires 0 < m
  {
    set v | v in Choices(Vectors(KEY_LEN, m), n) && v != [] && v[0] != Origin() && AllProportional(m, v)
  }

  function Origin(): (a: seq<nat>)
    ensures |a| == KEY_LEN
  {
    seq(KEY_LEN, _ => 0)
  }

  lemma ProportionalHas(m: nat, n: nat, v: seq<seq<nat>>, c: seq<nat>)
    requires 0 < m && 0 < n && v != []
    ensures v + [c] in ProportionalChoices(m, n + 1)
      <==> v in ProportionalChoices(m, n) && c in Multiples(v[0], m)
  {
    var family, w := Vectors(KEY_LEN, m), v + [c];
    ChoicesAre(family, n + 1, w);
    ChoicesAre(family, n, v);
    MultiplesAre(v[0], m, c);
    assert w[|v|] == c && forall i :: 0 <= i < |v| ==> w[i] == v[i];
    if v in ProportionalChoices(m, n) && Proportional(v[0], c, m) {
      var u: nat :| 1 <= u < m && IsMultiple(v[0], c, u, m);
      VectorsAre(v[0], KEY_LEN, m);
      VectorsAre(c, KEY_LEN, m);
    }
  }

  lemma ProportionalExtends(m: nat, n: nat)
    requires 0 < m && 0 < n
    ensures ProportionalChoices(m, n + 1)
      == Extended(ProportionalChoices(m, n), v => if v == [] then {} else Multiples(v[0], m))
  {
    var f := (v: seq<seq<nat>>) => if v == [] then {} else Multiples(v[0], m);
    var now, next := ProportionalChoices(m, n), ProportionalChoices(m, n + 1);
    forall w ensures w in next <==> w in Extended(now, f) {
      if |w| > 1 {
        var v, c := w[..|w| - 1], w[|w| - 1];
        assert w == v + [c];
        ProportionalHas(m, n, v, c);
        ExtendedHas(now, f, v, c);
      } else {
        ChoicesAre(Vectors(KEY_LEN, m), n + 1, w);
        assert forall v, c :: v in now && c in f(v) ==> |v + [c]| > 1;
      }
    }
  }

  lemma NotOrigin(m: nat, a: seq<nat>) returns (i: nat)
    requires 0 < m && a in Vectors(KEY_LEN, m) && a != Origin()
    ensures |a| == KEY_LEN && i < |a| && 0 < a[i] < m
  {
    VectorsAre(a, KEY_LEN, m);
    i :| i < KEY_LEN && a[i] != 0;
  }

  lemma SelfProportional(m: nat, a: seq<nat>)
    requires 1 < m && a in Vectors(KEY_LEN, m)
    ensures Proportional(a, a, m)
  {
    VectorsAre(a, KEY_LEN, m);
    forall i | 0 <= i < |a| ensures a[i] == (1 * a[i]) % m {
      ModUnique(a[i], 0, m, a[i]);
    }
    assert IsMultiple(a, a, 1, m);
  }

  lemma OneIsProportional(m: nat, w: seq<seq<nat>>)
    requires 1 < m
    ensures w in ProportionalChoices(m, 1) <==> |w| == 1 && w[0] in Vectors(KEY_LEN, m) - {Origin()}
  {
    ChoicesAre(Vectors(KEY_LEN, m), 1, w);
    if |w| == 1 && w[0] in Vectors(KEY_LEN, m) {
      SelfProportional(m, w[0]);
    }
  }

  lemma OneOf(a: set<seq<nat>>, w: seq<seq<nat>>)
    ensures w in ExtendedOne([], a) <==> |w| == 1 && w[0] in a
  {
    if |w| == 1 {
      assert w == [] + [w[0]];
    }
    if w in ExtendedOne([], a) {
      var c :| c in a && w == [] + [c];
    }
  }

  lemma OneProportional(m: nat)
    requires 1 < m
    ensures |ProportionalChoices(m, 1)| == Pow(m, KEY_LEN) - 1
  {
    var family := Vectors(KEY_LEN, m);
    var rest := family - {Origin()};
    forall w ensures w in ProportionalChoices(m, 1) <==> w in ExtendedOne([], rest) {
      OneIsProportional(m, w);
      OneOf(rest, w);
    }
    assert ProportionalChoices(m, 1) == ExtendedOne([], rest);
    OneSize([], rest);
    VectorsAre(Origin(), KEY_LEN, m);
    VectorsSize(KEY_LEN, m);
    assert |family| == |rest| + 1;
  }

  lemma {:induction false} ProportionalSize(m: nat, n: nat)
    requires IsPrime(m) && 0 < n
    ensures |ProportionalChoices(m, n)| == (Pow(m, KEY_LEN) - 1) * Pow(m - 1, n - 1)
  {
    if n == 1 {
      OneProportional(m);
    } else {
      var f := (v: seq<seq<nat>>) => if v == [] then {} else Multiples(v[0], m);
      var now := ProportionalChoices(m, n - 1);
      ProportionalSize(m, n - 1);
      ProportionalExtends(m, n - 1);
      forall v | v in now ensures |f(v)| == m - 1 {
        ChoicesAre(Vectors(KEY_LEN, m), n - 1, v);
        var i := NotOrigin(m, v[0]);
        MultiplesSize(v[0], m, i);
      }
      ExtendedSize(now, f, m - 1);
      assert ProportionalChoices(m, n) == Extended(now, f);
      Regrouped(Pow(m, KEY_LEN) - 1, Pow(m - 1, n - 2), m - 1);
    }
  }

  lemma Regrouped(x: int, y: int, z: int)
    ensures (x * y) * z == x * (z * y)
  {
  }

  /** The choices of the stages' vectors under which the code keeps the promise of the filter. */
  ghost function SafeChoices(m: nat, stages: nat, threshold: u64): set<seq<seq<nat>>>
    requires 0 < m
  {
    set v | v in Choices(Vectors(KEY_LEN, m), stages) && AdmitsHeavy(StagesOf(m, v), threshold)
  }

  /** All vectors 0: one bucket for all flows in every stage. */
  lemma OriginsAgree(m: nat, stages: nat, v: seq<seq<nat>>)
    requires 1 < m && 0 < stages && v in Choices(Vectors(KEY_LEN, m), stages) && v != [] && v[0] == Origin()
    ensures AllProportional(m, v) <==> v == seq(stages, _ => Origin())
  {
    ChoicesAre(Vectors(KEY_LEN, m), stages, v);
    forall i | 0 <= i < |v| ensures Proportional(v[0], v[i], m) <==> v[i] == Origin() {
      OriginAlone(m, v[i]);
    }
  }

  lemma OriginAlone(m: nat, a: seq<nat>)
    requires 1 < m && a in Vectors(KEY_LEN, m)
    ensures Proportional(Origin(), a, m) <==> a == Origin()
  {
    if a == Origin() {
      SelfProportional(m, a);
    }
    if Proportional(Origin(), a, m) {
      var u: nat :| 1 <= u < m && IsMultiple(Origin(), a, u, m);
      forall i | 0 <= i < KEY_LEN ensures a[i] == 0 {
        ModUnique(u * 0, 0, m, 0);
      }
      assert a == Origin();
    }
  }

  /**
   * How often the code keeps the promise, with two or more stages and a threshold from 4 up: under (m^13 - 1) times
   * (m - 1)^(d - 1) choices of the d vectors, and the one where all are 0, of (m^13)^d.
   */
  lemma {:induction false} SafeChoicesAreFew(m: nat, stages: nat, threshold: u64)
    requires IsPrime(m) && 0xFF < m < 0x1_0000 && 0 < stages && 4 <= threshold <= MAX_SAFE_THRESHOLD
    ensures |SafeChoices(m, stages, threshold)| == (Pow(m, KEY_LEN) - 1) * Pow(m - 1, stages - 1) + 1
  {
    var origins := seq(stages, _ => Origin());
    var family := Vectors(KEY_LEN, m);
    VectorsAre(Origin(), KEY_LEN, m);
    ChoicesAre(family, stages, origins);
    forall v | v in Choices(family, stages)
      ensures AdmitsHeavy(StagesOf(m, v), threshold) <==> v in ProportionalChoices(m, stages) || v == origins
    {
      ChoicesAre(family, stages, v);
      AdmitsHeavyIff(StagesOf(m, v), threshold);
      StagesAgreeIff(m, v);
      if v[0] == Origin() {
        OriginsAgree(m, stages, v);
      }
    }
    assert origins !in ProportionalChoices(m, stages);
    assert SafeChoices(m, stages, threshold) == ProportionalChoices(m, stages) + {origins};
    ProportionalSize(m, stages);
  }
}
