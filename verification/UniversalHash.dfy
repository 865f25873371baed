/** The modular dot-product hash of a stage, its coefficients and its universality. */
module UniversalHash {
  import opened Base
  import opened NumberTheory
  import opened Counting

  /** Sum of key[i] * a[i]. */
  function Dot(key: seq<byte>, a: seq<nat>): nat
    requires |key| == |a|
  {
    if key == [] then 0
    else
      var n := |key| - 1;
      Dot(key[..n], a[..n]) + key[n] * a[n]
  }

  /** The hash after the first i bytes of the key. */
  function Running(key: seq<byte>, a: seq<nat>, m: nat, i: nat): nat
    requires i <= |key| == |a| && 0 < m
  {
    Dot(key[..i], a[..i]) % m
  }

  /** What one key byte adds to the running hash, before it is reduced. */
  function Accumulate(hash: int, kpart: byte, c: int): int {
    hash + kpart * c
  }

  /** The value rand() == r maps to in [minValue, maxValue], for a generator returning 0..randMax. */
  function Draw(minValue: int, maxValue: int, r: nat, randMax: nat): int {
    minValue + (maxValue - minValue + 1) * r / (randMax + 1)
  }

  class UniversalHashFunction {
    const m: nat
    const a: seq<nat>
    const keySize: nat

    ghost predicate Valid() {
      0 < m && keySize == |a|
    }

    /** Drawn coefficients lie in [0, dim); perm is their buffer. */
    constructor (dim: nat, perm: array<int>, keySize: nat)
      requires 0 < dim && perm.Length == keySize
      requires forall i :: 0 <= i < keySize ==> 0 <= perm[i]
      ensures Valid() && m == dim && a == perm[..] && this.keySize == keySize
    {
      m := dim;
      a := perm[..];
      this.keySize := keySize;
    }

    /** The loop reduces modulo m at every step; the result is the residue of the whole sum. */
    method Hash(key: seq<byte>) returns (hash: nat)
      requires Valid() && |key| == keySize
      ensures hash == Dot(key, a) % m
      ensures hash < m
    {
      hash := 0;
      for i := 0 to keySize
        invariant hash == Running(key, a, m, i)
      {
        var kpart := key[i];
        ghost var sum := Dot(key[..i], a[..i]);
        assert key[..i + 1][..i] == key[..i] && a[..i + 1][..i] == a[..i];
        ModAdd(sum, kpart * a[i], m);
        hash := Accumulate(hash, kpart, a[i]) % m;
      }
      assert key[..keySize] == key && a[..keySize] == a;
    }

    /** Fills a buffer from a stream of rand() results. */
    static method RandomValues(minValue: int, maxValue: int, rand: seq<nat>, randMax: nat) returns (a: array<int>)
      requires minValue <= maxValue
      requires forall k :: 0 <= k < |rand| ==> rand[k] <= randMax
      ensures fresh(a) && a.Length == |rand|
      ensures forall k :: 0 <= k < |rand| ==> a[k] == Draw(minValue, maxValue, rand[k], randMax)
      ensures forall k :: 0 <= k < |rand| ==> minValue <= a[k] <= maxValue
    {
      a := new int[|rand|];
      var range := maxValue - minValue + 1;
      for index := 0 to |rand|
        invariant forall k :: 0 <= k < index ==> a[k] == Draw(minValue, maxValue, rand[k], randMax)
        invariant forall k :: 0 <= k < index ==> minValue <= a[k] <= maxValue
      {
        DrawInRange(minValue, maxValue, rand[index], randMax);
        a[index] := minValue + range * rand[index] / (randMax + 1);
      }
    }

    /** A stage's function: coefficients drawn in [0, tableSize - 1]. */
    static method FunctionGenerator(tableSize: nat, keyLength: nat, rand: seq<nat>, randMax: nat)
        returns (h: UniversalHashFunction)
      requires 0 < tableSize && |rand| == keyLength
      requires forall k :: 0 <= k < |rand| ==> rand[k] <= randMax
      ensures fresh(h) && h.Valid() && h.m == tableSize && h.keySize == keyLength
      ensures h.a in Vectors(keyLength, tableSize)
    {
      var perm := RandomValues(0, tableSize - 1, rand, randMax);
      h := new UniversalHashFunction(tableSize, perm, keyLength);
      VectorsAre(h.a, keyLength, tableSize);
    }
  }

  /** Which random numbers draw at least v: those at or above the share of the range that is below v. */
  lemma DrawAtLeast(minValue: int, maxValue: int, r: nat, randMax: nat, v: int)
    requires minValue <= maxValue && r <= randMax
    ensures v <= Draw(minValue, maxValue, r, randMax)
      <==> (v - minValue) * (randMax + 1) <= (maxValue - minValue + 1) * r
  {
    var n, d := (maxValue - minValue + 1) * r, randMax + 1;
    var q := n / d;
    assert q * d <= n < q * d + d;
    if v - minValue <= q {
      MulMonotone(v - minValue, q, d);
    } else {
      MulMonotone(q + 1, v - minValue, d);
    }
  }

  lemma DrawInRange(minValue: int, maxValue: int, r: nat, randMax: nat)
    requires minValue <= maxValue && r <= randMax
    ensures minValue <= Draw(minValue, maxValue, r, randMax) <= maxValue
  {
    var range, d := maxValue - minValue + 1, randMax + 1;
    var q := range * r / d;
    assert 0 <= range * r;
    assert range * r < range * d by {
      assert range * d == range * r + range * (d - r);
      MulMonotone(1, d - r, range);
    }
    assert q * d <= range * r;
    if q >= range {
      MulMonotone(range, q, d);
    }
  }

  // ---------- counting the coefficient vectors ----------

  /** The extensions of the vectors in s by one coefficient in [0, m). */
  ghost function Extend(s: set<seq<nat>>, m: nat): set<seq<nat>> {
    set v, c: nat | v in s && c < m :: v + [c]
  }

  lemma ExtendHas(s: set<seq<nat>>, m: nat, v: seq<nat>, c: nat)
    ensures v + [c] in Extend(s, m) <==> v in s && c < m
  {
    if v + [c] in Extend(s, m) {
      var u, b: nat :| u in s && b < m && v + [c] == u + [b];
      assert v == (v + [c])[..|v|] == (u + [b])[..|u|] == u;
      assert c == (v + [c])[|v|] == b;
    }
  }

  /** All coefficient vectors [0, m)^len. */
  ghost function Vectors(len: nat, m: nat): set<seq<nat>> {
    if len == 0 then {[]} else Extend(Vectors(len - 1, m), m)
  }

  lemma {:induction false} VectorsAre(v: seq<nat>, len: nat, m: nat)
    ensures v in Vectors(len, m) <==> |v| == len && forall i :: 0 <= i < len ==> v[i] < m
    decreases len
  {
    if len > 0 {
      if |v| == len {
        VectorsAre(v[..len - 1], len - 1, m);
        assert v == v[..len - 1] + [v[len - 1]];
      }
      if v in Vectors(len, m) {
        var u, c: nat :| u in Vectors(len - 1, m) && c < m && v == u + [c];
        VectorsAre(u, len - 1, m);
      }
    }
  }

  /** The int accumulator never exceeds 2^31 - 1, whatever the key of this length and the drawn coefficients. */
  ghost predicate FitsInt(m: nat, len: nat)
    requires 0 < m
  {
    forall key: seq<byte>, a: seq<nat>, i: nat ::
      |key| == |a| == len && a in Vectors(len, m) && i < len ==>
        Accumulate(Running(key, a, m, i), key[i], a[i]) < 0x8000_0000
  }

  /** Largest table size for which it does not. A key of one byte starts from the hash 0. */
  function LargestSize(len: nat): nat {
    if len == 1 then 8421505 else 0x80_0000
  }

  lemma SmallEnough(m: nat, len: nat, key: seq<byte>, a: seq<nat>, i: nat)
    requires 0 < m <= LargestSize(len) && |key| == |a| == len && a in Vectors(len, m) && i < len
    ensures Accumulate(Running(key, a, m, i), key[i], a[i]) < 0x8000_0000
  {
    VectorsAre(a, len, m);
    MulMonotone2(key[i], a[i], 0xFF, m - 1);
    if i == 0 {
      assert Dot(key[..0], a[..0]) == 0;
      ModUnique(0, 0, m, 0);
    }
  }

  /** The key [1, 255, 0, ..] with the coefficients [m - 1, m - 1, 0, ..] reaches the largest value. */
  lemma LargestReached(m: nat, len: nat) returns (key: seq<byte>, a: seq<nat>, i: nat)
    requires LargestSize(len) < m && 0 < len
    ensures |key| == |a| == len && a in Vectors(len, m) && i < len
    ensures 0x8000_0000 <= Accumulate(Running(key, a, m, i), key[i], a[i])
  {
    var one: byte, full: byte := 1, 0xFF;
    a := seq(len, j => if j <= 1 then m - 1 else 0);
    VectorsAre(a, len, m);
    assert Dot([], []) == 0;
    if len == 1 {
      key, i := [full], 0;
      assert key[..0] == [] && a[..0] == [];
      ModUnique(0, 0, m, 0);
    } else {
      key, i := seq(len, j => if j == 0 then one else full), 1;
      assert key[..1] == [one] && a[..1] == [m - 1];
      assert [one][..0] == [] && [m - 1][..0] == [];
      assert Dot([one], [m - 1]) == m - 1;
      ModUnique(m - 1, 0, m, m - 1);
    }
  }

  lemma {:induction false} HashFitsInt(m: nat, len: nat)
    requires 0 < m && 0 < len
    ensures FitsInt(m, len) <==> m <= LargestSize(len)
  {
    if m <= LargestSize(len) {
      forall key: seq<byte>, a: seq<nat>, i: nat | |key| == |a| == len && a in Vectors(len, m) && i < len
        ensures Accumulate(Running(key, a, m, i), key[i], a[i]) < 0x8000_0000
      {
        SmallEnough(m, len, key, a, i);
      }
    } else {
      var key, a, i := LargestReached(m, len);
    }
  }

  /** Every vector extended by the coefficient g chooses for it. */
  ghost function Append(s: set<seq<nat>>, g: seq<nat> -> nat): set<seq<nat>> {
    set v | v in s :: v + [g(v)]
  }

  /** Appending a coefficient chosen by g keeps the number of vectors. */
  lemma AppendKeepsSize(s: set<seq<nat>>, g: seq<nat> -> nat)
    ensures |Append(s, g)| == |s|
  {
    assert Append(s, g) == Extended(s, v => {g(v)});
    ExtendedSize(s, v => {g(v)}, 1);
  }

  lemma ExtendSize(s: set<seq<nat>>, m: nat)
    ensures |Extend(s, m)| == |s| * m
  {
    assert Extend(s, m) == Extended(s, _ => Below(m));
    ExtendedSize(s, _ => Below(m), m);
  }

  lemma {:induction false} VectorsSize(len: nat, m: nat)
    ensures |Vectors(len, m)| == Pow(m, len)
  {
    if len > 0 {
      VectorsSize(len - 1, m);
      ExtendSize(Vectors(len - 1, m), m);
    }
  }

  /** Difference of the two dot products. */
  ghost function Gap(x: seq<byte>, y: seq<byte>, a: seq<nat>): int
    requires |x| == |y| == |a|
  {
    Dot(x, a) - Dot(y, a)
  }

  /** The coefficient vectors under which the hashes of x and y differ by r. */
  ghost function Solutions(x: seq<byte>, y: seq<byte>, m: nat, r: int): set<seq<nat>>
    requires |x| == |y| && 0 < m
  {
    set a | a in Vectors(|x|, m) && |a| == |x| && (Gap(x, y, a) - r) % m == 0
  }

  lemma GapAppend(x: seq<byte>, y: seq<byte>, v: seq<nat>, c: nat)
    requires |x| == |y| == |v| + 1
    ensures var n := |v|; Gap(x, y, v + [c]) == Gap(x[..n], y[..n], v) + (x[n] - y[n]) * c
  {
    assert (v + [c])[..|v|] == v;
  }

  /** The one coefficient in [0, m) that solves s + d * c == r modulo m. */
  lemma UniqueCoefficient(d: int, s: int, r: int, m: nat) returns (c: nat)
    requires IsPrime(m) && d % m != 0
    ensures c < m && forall b :: 0 <= b < m ==> ((s + d * b - r) % m == 0 <==> b == c)
  {
    var u := InverseOf(d, m);
    var k := u * (r - s);
    c := k % m;
    ModUnique(1, 0, m, 1);
    forall b | 0 <= b < m ensures (s + d * b - r) % m == 0 <==> b == c {
      LinearCongruence(d, u, s, r, b, m);
      SameResidue(b, k, m);
      ModUnique(b, 0, m, b);
    }
  }

  /** A byte difference that is not 0 is not a multiple of m > 255. */
  lemma ByteGap(x: byte, y: byte, m: nat)
    requires x != y && 0xFF < m
    ensures (x - y) % m != 0
  {
    SameResidue(x, y, m);
    ModUnique(x, 0, m, x);
    ModUnique(y, 0, m, y);
  }

  lemma PrefixesDiffer(x: seq<byte>, y: seq<byte>)
    requires |x| == |y| > 0 && x != y && x[|x| - 1] == y[|x| - 1]
    ensures x[..|x| - 1] != y[..|x| - 1]
  {
    var n := |x| - 1;
    assert x == x[..n] + [x[n]] && y == y[..n] + [y[n]];
  }

  /** For two distinct keys every difference of hashes is met by exactly m^(len-1) of the m^len vectors. */
  lemma {:induction false} DifferencesAreUniform(x: seq<byte>, y: seq<byte>, m: nat, r: int)
    requires IsPrime(m) && 0xFF < m && |x| == |y| && x != y
    ensures |x| > 0 && |Solutions(x, y, m, r)| == Pow(m, |x| - 1)
  {
    assert |x| > 0;
    var n := |x| - 1;
    if x[n] != y[n] {
      ByteGap(x[n], y[n], m);
      LastByteDiffers(x, y, m, r);
      VectorsSize(n, m);
    } else {
      PrefixesDiffer(x, y);
      DifferencesAreUniform(x[..n], y[..n], m, r);
      LastByteAgrees(x, y, m, r);
      ExtendSize(Solutions(x[..n], y[..n], m, r), m);
    }
  }

  /** Appending c to v gives a vector with hash difference r. */
  ghost predicate Solves(x: seq<byte>, y: seq<byte>, m: nat, r: int, v: seq<nat>, c: nat)
    requires |x| == |y| == |v| + 1 && 0 < m
  {
    var n := |v|;
    c < m && (Gap(x[..n], y[..n], v) + (x[n] - y[n]) * c - r) % m == 0
  }

  /** The coefficient that completes v to a solution, if there is one. */
  ghost function Completion(x: seq<byte>, y: seq<byte>, m: nat, r: int, v: seq<nat>): nat
    requires |x| == |y| > 0 && 0 < m
  {
    if |v| == |x| - 1 && exists c: nat :: Solves(x, y, m, r, v, c)
    then var c: nat :| Solves(x, y, m, r, v, c); c else 0
  }

  lemma CompletionIsUnique(x: seq<byte>, y: seq<byte>, m: nat, r: int, v: seq<nat>)
    requires IsPrime(m) && |x| == |y| == |v| + 1
    requires (x[|v|] - y[|v|]) % m != 0
    ensures forall c: nat :: Solves(x, y, m, r, v, c) <==> c == Completion(x, y, m, r, v)
  {
    var n := |v|;
    var c := UniqueCoefficient((x[n] as int) - y[n], Gap(x[..n], y[..n], v), r, m);
    assert Solves(x, y, m, r, v, c);
  }

  lemma SolutionsSplit(x: seq<byte>, y: seq<byte>, m: nat, r: int, v: seq<nat>, c: nat)
    requires |x| == |y| == |v| + 1 && 0 < m
    ensures v + [c] in Solutions(x, y, m, r) <==> v in Vectors(|v|, m) && Solves(x, y, m, r, v, c)
  {
    GapAppend(x, y, v, c);
    ExtendHas(Vectors(|v|, m), m, v, c);
  }

  lemma LastByteDiffers(x: seq<byte>, y: seq<byte>, m: nat, r: int)
    requires IsPrime(m) && |x| == |y| > 0
    requires (x[|x| - 1] - y[|x| - 1]) % m != 0
    ensures |Solutions(x, y, m, r)| == |Vectors(|x| - 1, m)|
  {
    var n := |x| - 1;
    var g: seq<nat> -> nat := v => Completion(x, y, m, r, v);
    AppendKeepsSize(Vectors(n, m), g);
    forall w ensures w in Solutions(x, y, m, r) <==> w in Append(Vectors(n, m), g) {
      if |w| == n + 1 {
        var v, c := w[..n], w[n];
        assert w == v + [c];
        SolutionsSplit(x, y, m, r, v, c);
        CompletionIsUnique(x, y, m, r, v);
      }
      if w in Append(Vectors(n, m), g) {
        var v :| v in Vectors(n, m) && w == v + [g(v)];
        VectorsAre(v, n, m);
        assert w[..n] == v;
      }
    }
    assert Solutions(x, y, m, r) == Append(Vectors(n, m), g);
  }

  lemma LastByteAgrees(x: seq<byte>, y: seq<byte>, m: nat, r: int)
    requires 0 < m && |x| == |y| > 0 && x[|x| - 1] == y[|x| - 1]
    ensures Solutions(x, y, m, r) == Extend(Solutions(x[..|x| - 1], y[..|x| - 1], m, r), m)
  {
    var n := |x| - 1;
    var prefixes := Solutions(x[..n], y[..n], m, r);
    forall w | |w| == n + 1 ensures w in Solutions(x, y, m, r) <==> w in Extend(prefixes, m) {
      var v, c := w[..n], w[n];
      assert w == v + [c];
      SolutionsSplit(x, y, m, r, v, c);
      ExtendHas(prefixes, m, v, c);
    }
  }

  /** The vectors under which x and y fall into one bucket. */
  ghost function Colliding(x: seq<byte>, y: seq<byte>, m: nat): set<seq<nat>>
    requires |x| == |y| && 0 < m
  {
    set a | a in Vectors(|x|, m) && |a| == |x| && Dot(x, a) % m == Dot(y, a) % m
  }

  lemma CollidingAreSolutions(x: seq<byte>, y: seq<byte>, m: nat)
    requires |x| == |y| && 0 < m
    ensures Colliding(x, y, m) == Solutions(x, y, m, 0)
  {
    forall a | |a| == |x| ensures Dot(x, a) % m == Dot(y, a) % m <==> (Gap(x, y, a) - 0) % m == 0 {
      SameResidue(Dot(x, a), Dot(y, a), m);
    }
  }

  /** Universality, for keys of any length: exactly one vector in m makes two distinct keys collide... */
  lemma Universality(x: seq<byte>, y: seq<byte>, m: nat)
    requires IsPrime(m) && 0xFF < m && |x| == |y| && x != y
    ensures |x| > 0
    ensures |Vectors(|x|, m)| == Pow(m, |x|) && |Colliding(x, y, m)| == Pow(m, |x| - 1)
  {
    CollidingAreSolutions(x, y, m);
    DifferencesAreUniform(x, y, m, 0);
    VectorsSize(|x|, m);
  }

  lemma {:induction false} DotOfZeros(x: seq<byte>, a: seq<nat>, m: byte)
    requires |x| == |a| > 0 && x[0] == m && forall i :: 0 < i < |x| ==> x[i] == 0
    ensures Dot(x, a) == m * a[0]
  {
    if |x| == 1 {
      assert Dot(x[..0], a[..0]) == 0;
    } else {
      DotOfZeros(x[..|x| - 1], a[..|a| - 1], m);
    }
  }

  lemma {:induction false} DotOfNothing(x: seq<byte>, a: seq<nat>)
    requires |x| == |a| && forall i :: 0 <= i < |x| ==> x[i] == 0
    ensures Dot(x, a) == 0
  {
    if |x| > 0 {
      DotOfNothing(x[..|x| - 1], a[..|a| - 1]);
    }
  }

  /** Of the m^len vectors one in m makes any two distinct keys collide. */
  ghost predicate IsUniversal(m: nat, len: nat)
    requires 0 < m && 0 < len
  {
    forall x: seq<byte>, y: seq<byte> :: |x| == |y| == len && x != y ==> |Colliding(x, y, m)| == Pow(m, len - 1)
  }

  /** ... and the size of the table decides it: a prime of at most 255 has keys that collide under every vector. */
  lemma UniversalIffAboveByte(m: nat, len: nat)
    requires IsPrime(m) && 0 < len
    ensures IsUniversal(m, len) <==> 0xFF < m
  {
    if 0xFF < m {
      forall x: seq<byte>, y: seq<byte> | |x| == |y| == len && x != y
        ensures |Colliding(x, y, m)| == Pow(m, len - 1)
      {
        Universality(x, y, m);
      }
    } else {
      var x, y := AlwaysColliding(m, len);
      VectorsSize(len, m);
      PowGrows(m, len);
    }
  }

  lemma PowGrows(m: nat, len: nat)
    requires 1 < m && 0 < len
    ensures Pow(m, len - 1) < Pow(m, len)
  {
    PowPositive(m, len - 1);
    MulMonotone(2, m, Pow(m, len - 1));
  }

  /** The keys [0, 0, ..] and [m, 0, ..] collide under every vector. */
  lemma AlwaysColliding(m: nat, len: nat) returns (x: seq<byte>, y: seq<byte>)
    requires 0 < m <= 0xFF && 0 < len
    ensures |x| == |y| == len && x != y && Colliding(x, y, m) == Vectors(len, m)
  {
    var b: byte := m;
    x, y := seq(len, _ => 0), seq(len, i => if i == 0 then b else 0);
    forall a | a in Vectors(len, m) ensures a in Colliding(x, y, m) {
      VectorsAre(a, len, m);
      DotOfNothing(x, a);
      DotOfZeros(y, a, b);
      ModShift(0, a[0], m);
    }
    assert y[0] != x[0];
  }
}
