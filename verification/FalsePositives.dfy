/**
 * How many choices of the hash functions let a small flow into the table: the false-positive bound of the multistage
 * filter, counted over all coefficient vectors.
 */
module FalsePositives {
  import opened Base
  import opened NumberTheory
  import opened UniversalHash
  import opened FilterSpec
  import opened Worker
  import opened WorkerRuns
  import opened Sketch
  import opened Intervals
  import opened Counting

  /** Octets of ps in the bucket of f. */
  function Load(h: HashFn, ps: seq<FlowUpdate>, f: FlowId): nat {
    if ps == [] then 0
    else
      var p := ps[|ps| - 1];
      Load(h, ps[..|ps| - 1], f) + if Together(h, p.fid, f) then p.dOctets else 0
  }

  lemma {:induction false} LoadIsPlain(hs: seq<HashFn>, ps: seq<FlowUpdate>, f: FlowId, i: nat)
    requires i < |hs|
    ensures PlainRun(hs, ps)[i][Bucket(hs[i], f)] == Load(hs[i], ps, f)
  {
    if ps != [] {
      LoadIsPlain(hs, ps[..|ps| - 1], f, i);
    }
  }

  lemma {:induction false} LoadHasOwnOctets(h: HashFn, ps: seq<FlowUpdate>, f: FlowId)
    ensures Octets(ps, f) <= Load(h, ps, f)
  {
    if ps != [] {
      LoadHasOwnOctets(h, ps[..|ps| - 1], f);
    }
  }

  /** A flow gets into the table only where its bucket is over the threshold in every stage. */
  lemma {:induction false} AdmittedOverLoad(k: Config, ps: seq<FlowUpdate>, f: FlowId, i: nat)
    requires i < |k.hs| && f in Run(k, Cleaned(k, map[]), ps).table
    ensures k.threshold < Load(k.hs[i], ps, f)
  {
    var before, p := ps[..|ps| - 1], ps[|ps| - 1];
    if f in Run(k, Cleaned(k, map[]), before).table {
      AdmittedOverLoad(k, before, f, i);
    } else {
      RefinesPlainFilter(k, map[], before, p);
      LoadIsPlain(k.hs, before, f, i);
    }
  }

  // ---------- the loads of one stage, over its coefficient vectors ----------

  /** The hash function of a stage with coefficients a (which are KEY_LEN many). */
  ghost function StageOf(m: nat, a: seq<nat>): HashFn
    requires 0 < m
  {
    Coefficients(m, if |a| == KEY_LEN then a else seq(KEY_LEN, _ => 0))
  }

  ghost function Pick(s: set<seq<nat>>): seq<nat>
    requires s != {}
    ensures Pick(s) in s
  {
    var a :| a in s; a
  }

  /** Sum of the loads of f's bucket over all vectors in s. */
  ghost function SumLoads(s: set<seq<nat>>, m: nat, ps: seq<FlowUpdate>, f: FlowId): nat
    requires 0 < m
    decreases |s|
  {
    if s == {} then 0
    else Load(StageOf(m, Pick(s)), ps, f) + SumLoads(s - {Pick(s)}, m, ps, f)
  }

  /** The vectors of s under which the two flows share a bucket. */
  ghost function Sharing(s: set<seq<nat>>, m: nat, g: FlowId, f: FlowId): set<seq<nat>>
    requires 0 < m
  {
    set a | a in s && Together(StageOf(m, a), g, f)
  }

  lemma SharingOneMore(s: set<seq<nat>>, m: nat, g: FlowId, f: FlowId, a: seq<nat>)
    requires 0 < m && a in s
    ensures |Sharing(s, m, g, f)| == |Sharing(s - {a}, m, g, f)| + if Together(StageOf(m, a), g, f) then 1 else 0
  {
    var rest := Sharing(s - {a}, m, g, f);
    if Together(StageOf(m, a), g, f) {
      assert Sharing(s, m, g, f) == rest + {a};
    } else {
      assert Sharing(s, m, g, f) == rest;
    }
  }

  lemma NoLoad(s: set<seq<nat>>, m: nat, f: FlowId)
    requires 0 < m
    ensures SumLoads(s, m, [], f) == 0
    decreases |s|
  {
    if s != {} {
      NoLoad(s - {Pick(s)}, m, f);
    }
  }

  /** One more packet adds its octets once for every vector under which it shares the bucket of f. */
  lemma {:induction false} SumLoadsStep(s: set<seq<nat>>, m: nat, ps: seq<FlowUpdate>, p: FlowUpdate, f: FlowId)
    requires 0 < m
    ensures SumLoads(s, m, ps + [p], f) == SumLoads(s, m, ps, f) + |Sharing(s, m, p.fid, f)| * p.dOctets
    decreases |s|
  {
    if s == {} {
      assert Sharing(s, m, p.fid, f) == {};
    } else {
      var a := Pick(s);
      var n := |Sharing(s - {a}, m, p.fid, f)|;
      SumLoadsStep(s - {a}, m, ps, p, f);
      SharingOneMore(s, m, p.fid, f, a);
      assert (ps + [p])[..|ps|] == ps;
      Distribute(n, 1, p.dOctets);
    }
  }

  lemma SharingFamily(m: nat, g: FlowId, f: FlowId)
    requires IsPrime(m) && 0xFF < m
    ensures |Sharing(Vectors(KEY_LEN, m), m, g, f)| == if g == f then Pow(m, KEY_LEN) else Pow(m, KEY_LEN - 1)
  {
    var family := Vectors(KEY_LEN, m);
    forall a | a in family ensures |a| == KEY_LEN {
      VectorsAre(a, KEY_LEN, m);
    }
    if g == f {
      assert Sharing(family, m, g, f) == family;
      VectorsSize(KEY_LEN, m);
    } else {
      FlowsCollideRarely(g, f, m);
      assert Sharing(family, m, g, f) == Meeting(g, f, m);
    }
  }

  /** The sum of loads with own of all octets in the bucket big times, and the others small times. */
  ghost predicate Weighted(sum: nat, own: nat, all: nat, big: nat, small: nat) {
    own <= all && sum == own * big + (all - own) * small
  }

  lemma WeightedOwn(sum: nat, own: nat, all: nat, big: nat, small: nat, d: nat)
    requires Weighted(sum, own, all, big, small)
    ensures Weighted(sum + big * d, own + d, all + d, big, small)
  {
    Distribute(own, d, big);
  }

  lemma WeightedOther(sum: nat, own: nat, all: nat, big: nat, small: nat, d: nat)
    requires Weighted(sum, own, all, big, small)
    ensures Weighted(sum + small * d, own, all + d, big, small)
  {
    Distribute(all - own, d, small);
  }

  lemma SumWithOwnPacket(s: set<seq<nat>>, m: nat, ps: seq<FlowUpdate>, p: FlowUpdate, f: FlowId, small: nat)
    requires 0 < m && p.fid == f
    requires Weighted(SumLoads(s, m, ps, f), Octets(ps, f), Total(ps), |Sharing(s, m, f, f)|, small)
    ensures Weighted(SumLoads(s, m, ps + [p], f), Octets(ps + [p], f), Total(ps + [p]), |Sharing(s, m, f, f)|, small)
  {
    SumLoadsStep(s, m, ps, p, f);
    OctetsAppend(ps, p, f);
    TotalAppend(ps, p);
    WeightedOwn(SumLoads(s, m, ps, f), Octets(ps, f), Total(ps), |Sharing(s, m, f, f)|, small, p.dOctets);
  }

  lemma SumWithOtherPacket(s: set<seq<nat>>, m: nat, ps: seq<FlowUpdate>, p: FlowUpdate, f: FlowId, big: nat)
    requires 0 < m && p.fid != f
    requires Weighted(SumLoads(s, m, ps, f), Octets(ps, f), Total(ps), big, |Sharing(s, m, p.fid, f)|)
    ensures Weighted(SumLoads(s, m, ps + [p], f), Octets(ps + [p], f), Total(ps + [p]), big, |Sharing(s, m, p.fid, f)|)
  {
    SumLoadsStep(s, m, ps, p, f);
    OctetsAppend(ps, p, f);
    TotalAppend(ps, p);
    WeightedOther(SumLoads(s, m, ps, f), Octets(ps, f), Total(ps), big, |Sharing(s, m, p.fid, f)|, p.dOctets);
  }

  /** Over all vectors, f's own octets count every time and those of the others once in m. */
  lemma {:induction false} SumOfLoads(m: nat, ps: seq<FlowUpdate>, f: FlowId)
    requires IsPrime(m) && 0xFF < m
    ensures Weighted(SumLoads(Vectors(KEY_LEN, m), m, ps, f), Octets(ps, f), Total(ps),
                     Pow(m, KEY_LEN), Pow(m, KEY_LEN - 1))
  {
    if ps == [] {
      NoLoad(Vectors(KEY_LEN, m), m, f);
    } else {
      var before, p := ps[..|ps| - 1], ps[|ps| - 1];
      SumOfLoads(m, before, f);
      SharingFamily(m, p.fid, f);
      if p.fid == f {
        SumWithOwnPacket(Vectors(KEY_LEN, m), m, before, p, f, Pow(m, KEY_LEN - 1));
      } else {
        SumWithOtherPacket(Vectors(KEY_LEN, m), m, before, p, f, Pow(m, KEY_LEN));
      }
      InitAndLast(ps);
    }
  }

  /** The vectors of s under which f's bucket is over the threshold. */
  ghost function Heavy(s: set<seq<nat>>, m: nat, threshold: nat, ps: seq<FlowUpdate>, f: FlowId): set<seq<nat>>
    requires 0 < m
  {
    set a | a in s && threshold < Load(StageOf(m, a), ps, f)
  }

  lemma HeavyOneMore(s: set<seq<nat>>, m: nat, threshold: nat, ps: seq<FlowUpdate>, f: FlowId, a: seq<nat>)
    requires 0 < m && a in s
    ensures |Heavy(s, m, threshold, ps, f)|
      == |Heavy(s - {a}, m, threshold, ps, f)| + if threshold < Load(StageOf(m, a), ps, f) then 1 else 0
  {
    var rest := Heavy(s - {a}, m, threshold, ps, f);
    if threshold < Load(StageOf(m, a), ps, f) {
      assert Heavy(s, m, threshold, ps, f) == rest + {a};
    } else {
      assert Heavy(s, m, threshold, ps, f) == rest;
    }
  }

  /** Each of n loads has own octets, and each of the heavy ones gap more. */
  ghost predicate Outweighs(sum: nat, n: nat, own: nat, heavy: nat, gap: nat) {
    n * own + heavy * gap <= sum
  }

  lemma OneMoreLoad(sum: nat, n: nat, own: nat, heavy: nat, gap: nat, load: nat)
    requires Outweighs(sum, n, own, heavy, gap) && own <= load
    ensures Outweighs(load + sum, n + 1, own, heavy, gap)
    ensures own + gap <= load ==> Outweighs(load + sum, n + 1, own, heavy + 1, gap)
  {
    Distribute(n, 1, own);
    Distribute(heavy, 1, gap);
  }

  /** Every load has f's own octets, and those over the threshold have threshold - s + 1 more. */
  lemma {:induction false} HeavyLoads(s: set<seq<nat>>, m: nat, threshold: nat, ps: seq<FlowUpdate>, f: FlowId)
    requires 0 < m && Octets(ps, f) <= threshold
    ensures Outweighs(SumLoads(s, m, ps, f), |s|, Octets(ps, f),
                      |Heavy(s, m, threshold, ps, f)|, threshold - Octets(ps, f) + 1)
    decreases |s|
  {
    if s == {} {
      assert Heavy(s, m, threshold, ps, f) == {};
    } else {
      var a, own := Pick(s), Octets(ps, f);
      var rest := s - {a};
      HeavyLoads(rest, m, threshold, ps, f);
      HeavyOneMore(s, m, threshold, ps, f, a);
      LoadHasOwnOctets(StageOf(m, a), ps, f);
      assert |s| == |rest| + 1;
      OneMoreLoad(SumLoads(rest, m, ps, f), |rest|, own, |Heavy(rest, m, threshold, ps, f)|, threshold - own + 1,
                  Load(StageOf(m, a), ps, f));
    }
  }

  lemma HeavyAreFew(sum: nat, own: nat, all: nat, big: nat, small: nat, heavy: nat, gap: nat)
    requires Weighted(sum, own, all, big, small) && Outweighs(sum, big, own, heavy, gap)
    ensures heavy * gap <= (all - own) * small
  {
    assert big * own == own * big;
  }

  /** What the octets of the other flows add to the loads of f's bucket, over all vectors. */
  ghost function Others(m: nat, ps: seq<FlowUpdate>, f: FlowId): nat {
    OctetsWithinTotal(ps, f);
    MulMonotone(0, Total(ps) - Octets(ps, f), Pow(m, KEY_LEN - 1));
    (Total(ps) - Octets(ps, f)) * Pow(m, KEY_LEN - 1)
  }

  lemma {:induction false} OctetsWithinTotal(ps: seq<FlowUpdate>, f: FlowId)
    ensures Octets(ps, f) <= Total(ps)
  {
    if ps != [] {
      OctetsWithinTotal(ps[..|ps| - 1], f);
    }
  }

  /** One stage: the vectors that take f's bucket over the threshold, of all m^13. */
  lemma {:induction false} OneStage(m: nat, threshold: nat, ps: seq<FlowUpdate>, f: FlowId)
    requires IsPrime(m) && 0xFF < m && Octets(ps, f) <= threshold
    ensures |Heavy(Vectors(KEY_LEN, m), m, threshold, ps, f)| * (threshold - Octets(ps, f) + 1) <= Others(m, ps, f)
  {
    HeavyLoads(Vectors(KEY_LEN, m), m, threshold, ps, f);
    SumOfLoads(m, ps, f);
    VectorsSize(KEY_LEN, m);
    HeavyAreFew(SumLoads(Vectors(KEY_LEN, m), m, ps, f), Octets(ps, f), Total(ps), Pow(m, KEY_LEN),
                Pow(m, KEY_LEN - 1), |Heavy(Vectors(KEY_LEN, m), m, threshold, ps, f)|,
                threshold - Octets(ps, f) + 1);
  }

  // ---------- several stages, chosen independently ----------

  /** All choices of n vectors of a, one for each stage. */
  ghost function Choices(a: set<seq<nat>>, n: nat): set<seq<seq<nat>>> {
    if n == 0 then {[]} else set v, c | v in Choices(a, n - 1) && c in a :: v + [c]
  }

  lemma {:induction false} ChoicesAre(a: set<seq<nat>>, n: nat, v: seq<seq<nat>>)
    ensures v in Choices(a, n) <==> |v| == n && forall i :: 0 <= i < n ==> v[i] in a
    decreases n
  {
    if n > 0 {
      if |v| == n {
        ChoicesAre(a, n - 1, v[..n - 1]);
        assert v == v[..n - 1] + [v[n - 1]];
      }
      if v in Choices(a, n) {
        var u, c :| u in Choices(a, n - 1) && c in a && v == u + [c];
        ChoicesAre(a, n - 1, u);
      }
    }
  }

  lemma {:induction false} ChoicesSize(a: set<seq<nat>>, n: nat)
    ensures |Choices(a, n)| == Pow(|a|, n)
  {
    if n > 0 {
      ChoicesSize(a, n - 1);
      ExtendedSize(Choices(a, n - 1), _ => a, |a|);
      assert Choices(a, n) == Extended(Choices(a, n - 1), _ => a);
    }
  }

  ghost function StagesOf(m: nat, v: seq<seq<nat>>): seq<HashFn>
    requires 0 < m
  {
    seq(|v|, i requires 0 <= i < |v| => StageOf(m, v[i]))
  }

  /** The choices of all stages' vectors under which f is in the table after ps. */
  ghost function Admitting(rule: UpdateRule, m: nat, stages: nat, threshold: u64, ps: seq<FlowUpdate>, f: FlowId)
      : set<seq<seq<nat>>>
    requires 0 < m
  {
    set v | v in Choices(Vectors(KEY_LEN, m), stages) &&
            var k := Config(rule, StagesOf(m, v), threshold); f in Run(k, Cleaned(k, map[]), ps).table
  }

  lemma {:induction false} AdmittingAreHeavy(rule: UpdateRule, m: nat, stages: nat, threshold: u64,
                                             ps: seq<FlowUpdate>, f: FlowId)
    requires 0 < m
    ensures Admitting(rule, m, stages, threshold, ps, f)
      <= Choices(Heavy(Vectors(KEY_LEN, m), m, threshold, ps, f), stages)
  {
    var family := Vectors(KEY_LEN, m);
    forall v | v in Admitting(rule, m, stages, threshold, ps, f)
      ensures v in Choices(Heavy(family, m, threshold, ps, f), stages)
    {
      ChoicesAre(family, stages, v);
      ChoicesAre(Heavy(family, m, threshold, ps, f), stages, v);
      forall i | 0 <= i < stages ensures v[i] in Heavy(family, m, threshold, ps, f) {
        AdmittedOverLoad(Config(rule, StagesOf(m, v), threshold), ps, f, i);
      }
    }
  }

  lemma Shuffle(x: nat, y: nat, p: nat, q: nat)
    ensures (x * y) * (p * q) == (x * p) * (y * q)
  {
    assert (x * y) * (p * q) == x * (y * (p * q)) == x * (p * (y * q));
  }

  lemma {:induction false} AdmittingAreFew(rule: UpdateRule, m: nat, stages: nat, threshold: u64,
                                           ps: seq<FlowUpdate>, f: FlowId)
    requires 0 < m
    ensures |Admitting(rule, m, stages, threshold, ps, f)|
      <= Pow(|Heavy(Vectors(KEY_LEN, m), m, threshold, ps, f)|, stages)
  {
    var heavy := Heavy(Vectors(KEY_LEN, m), m, threshold, ps, f);
    AdmittingAreHeavy(rule, m, stages, threshold, ps, f);
    ChoicesSize(heavy, stages);
    Included(Admitting(rule, m, stages, threshold, ps, f), Choices(heavy, stages));
  }

  lemma {:induction false} PowOfProduct(x: nat, y: nat, n: nat)
    ensures Pow(x * y, n) == Pow(x, n) * Pow(y, n)
  {
    if n > 0 {
      PowOfProduct(x, y, n - 1);
      Shuffle(x, y, Pow(x, n - 1), Pow(y, n - 1));
    }
  }

  lemma {:induction false} PowMonotone(x: nat, y: nat, n: nat)
    requires x <= y
    ensures Pow(x, n) <= Pow(y, n)
  {
    if n > 0 {
      PowMonotone(x, y, n - 1);
      MulMonotone2(x, Pow(x, n - 1), y, Pow(y, n - 1));
    }
  }

  /** The number of all choices. */
  lemma {:induction false} AllChoices(m: nat, stages: nat)
    ensures |Choices(Vectors(KEY_LEN, m), stages)| == Pow(Pow(m, KEY_LEN), stages)
  {
    VectorsSize(KEY_LEN, m);
    ChoicesSize(Vectors(KEY_LEN, m), stages);
  }

  /**
   * False positives are rare. A flow with s octets, not above the threshold T, among C octets in all, is admitted under
   * at most ((C - s) * m^12 / (T - s + 1))^d of the (m^13)^d choices of the d stages' vectors (AllChoices), under
   * either rule.
   */
  lemma {:induction false} FalsePositivesAreRare(rule: UpdateRule, m: nat, stages: nat, threshold: u64,
                                                 ps: seq<FlowUpdate>, f: FlowId)
    requires IsPrime(m) && 0xFF < m && Octets(ps, f) <= threshold
    ensures |Admitting(rule, m, stages, threshold, ps, f)| * Pow(threshold - Octets(ps, f) + 1, stages)
      <= Pow(Others(m, ps, f), stages)
  {
    OneStage(m, threshold, ps, f);
    AdmittingAreFew(rule, m, stages, threshold, ps, f);
    PowersCompare(|Admitting(rule, m, stages, threshold, ps, f)|,
                  |Heavy(Vectors(KEY_LEN, m), m, threshold, ps, f)|,
                  threshold - Octets(ps, f) + 1, Others(m, ps, f), stages);
  }

  lemma PowersCompare(k: nat, heavy: nat, gap: nat, bound: nat, n: nat)
    requires k <= Pow(heavy, n) && heavy * gap <= bound
    ensures k * Pow(gap, n) <= Pow(bound, n)
  {
    MulMonotone(k, Pow(heavy, n), Pow(gap, n));
    PowOfProduct(heavy, gap, n);
    PowMonotone(heavy * gap, bound, n);
  }
}
