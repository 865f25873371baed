/** The multistage filter as a function of its counters: what the classes of MultistageFilter.dfy compute. */
module FilterSpec {
  import opened Base
  import opened NumberTheory
  import opened UniversalHash

  /** A stage's hash function: number of buckets and coefficients. */
  datatype Coefficients = Coefficients(m: nat, a: seq<nat>)
  type HashFn = h: Coefficients | 0 < h.m && |h.a| == KEY_LEN
    witness Coefficients(1, [0, 0, 0, 0, 0, 0, 0, 0, 0, 0, 0, 0, 0])

  function Bucket(h: HashFn, f: FlowId): (b: nat)
    ensures b < h.m
  {
    Dot(f.Key(), h.a) % h.m
  }

  /** The coefficient vectors under which the two flows share a bucket. */
  ghost function Meeting(f: FlowId, g: FlowId, m: nat): set<seq<nat>>
    requires 0 < m
  {
    set a | a in Vectors(KEY_LEN, m) && |a| == KEY_LEN && Bucket(Coefficients(m, a), f) == Bucket(Coefficients(m, a), g)
  }

  /** Two flows share a bucket under exactly one in m of the m^13 vectors of a prime table size above 255. */
  lemma FlowsCollideRarely(f: FlowId, g: FlowId, m: nat)
    requires f != g && IsPrime(m) && 0xFF < m
    ensures |Vectors(KEY_LEN, m)| == Pow(m, KEY_LEN)
    ensures |Meeting(f, g, m)| == Pow(m, KEY_LEN - 1)
  {
    KeyInjective(f, g);
    Universality(f.Key(), g.Key(), m);
    assert Meeting(f, g, m) == Colliding(f.Key(), g.Key(), m);
  }

  /** One counter array per stage. */
  type Counters = seq<seq<u64>>

  ghost predicate Shaped(hs: seq<HashFn>, cs: Counters) {
    |cs| == |hs| && forall i :: 0 <= i < |hs| ==> |cs[i]| == hs[i].m
  }

  /** The counters a flow is hashed to, stage by stage. */
  function Row(hs: seq<HashFn>, cs: Counters, f: FlowId): (row: seq<u64>)
    requires Shaped(hs, cs)
    ensures |row| == |hs|
    ensures forall i :: 0 <= i < |hs| ==> row[i] == cs[i][Bucket(hs[i], f)]
  {
    seq(|hs|, i requires 0 <= i < |hs| => cs[i][Bucket(hs[i], f)])
  }

  /** A stage lets a packet of d octets pass when its counter would go over the threshold. */
  predicate Check(c: u64, d: u32, threshold: u64) {
    Add64(c, d) > threshold
  }

  predicate Passes(row: seq<u64>, d: u32, threshold: u64) {
    forall i :: 0 <= i < |row| ==> Check(row[i], d, threshold)
  }

  /** Minimum met by the scan, which stops reading counters after the first stage that fails. */
  function ScanMin(row: seq<u64>, d: u32, threshold: u64): u64 {
    if row == [] then MAX_U64
    else
      var before := row[..|row| - 1];
      if Passes(before, d, threshold) then Min(ScanMin(before, d, threshold), row[|row| - 1])
      else ScanMin(before, d, threshold)
  }

  /** One more counter: the scan reads it only if all before it let the packet pass. */
  lemma ScanStep(row: seq<u64>, d: u32, threshold: u64, i: nat)
    requires i < |row|
    ensures Passes(row[..i + 1], d, threshold) <==> Passes(row[..i], d, threshold) && Check(row[i], d, threshold)
    ensures ScanMin(row[..i + 1], d, threshold) == var min := ScanMin(row[..i], d, threshold);
      if Passes(row[..i], d, threshold) then Min(min, row[i]) else min
  {
    var next := row[..i + 1];
    assert next[..i] == row[..i] && next[i] == row[i] && next == row[..i] + [row[i]];
  }

  /** The bound of a conservative update. */
  function Ceiling(row: seq<u64>, d: u32, threshold: u64): u64 {
    Add64(ScanMin(row, d, threshold), d)
  }

  /** Literal is the assignment the code makes; Documented is the raise-only update its comments describe. */
  datatype UpdateRule = Literal | Documented

  function Raise(rule: UpdateRule, c: u64, d: u32, threshold: u64, max: u64): u64 {
    if c < threshold then
      var val := Min(Add64(c, d), max);
      if rule.Literal? then val else Max(c, val)
    else c
  }

  /** A counter never gains more than the packet. */
  lemma RaiseAddsAtMost(rule: UpdateRule, c: u64, d: u32, threshold: u64, max: u64)
    ensures Raise(rule, c, d, threshold, max) <= c + d
  {
  }

  /** Where the counter is not above the bound, the two rules agree. */
  lemma RulesAgree(c: u64, d: u32, threshold: u64, max: u64)
    requires c <= threshold <= MAX_SAFE_THRESHOLD && (c <= max || threshold <= c)
    ensures Raise(Literal, c, d, threshold, max) == Raise(Documented, c, d, threshold, max)
  {
  }

  lemma CheckMeansOver(c: u64, d: u32, threshold: u64)
    ensures Check(c, d, threshold) ==> c + d > threshold
    ensures c <= threshold <= MAX_SAFE_THRESHOLD ==> (Check(c, d, threshold) <==> c + d > threshold)
  {
  }

  /** The counters after the drop of a packet. */
  function Update(rule: UpdateRule, hs: seq<HashFn>, threshold: u64, cs: Counters, p: FlowUpdate): (r: Counters)
    requires Shaped(hs, cs)
    ensures Shaped(hs, r)
  {
    var max := Ceiling(Row(hs, cs, p.fid), p.dOctets, threshold);
    seq(|hs|, i requires 0 <= i < |hs| =>
      var b := Bucket(hs[i], p.fid); cs[i][b := Raise(rule, cs[i][b], p.dOctets, threshold, max)])
  }

  /** Threshold of a fresh stage: 100 times the reporting threshold. */
  const FILTER_OVERSAMPLING_FACTOR: nat := 100

  function InitialThreshold(threshold: u32): u64 {
    threshold * FILTER_OVERSAMPLING_FACTOR
  }

  /** Threshold a stage has after an update: the conditional keeps no value but 0 and 1. */
  function UpdatedThreshold(newThreshold: nat): u64 {
    if newThreshold * FILTER_OVERSAMPLING_FACTOR == 0 then 0 else 1
  }

  function Zeros(hs: seq<HashFn>): (cs: Counters)
    ensures Shaped(hs, cs)
  {
    seq(|hs|, i requires 0 <= i < |hs| => seq(hs[i].m, _ => 0))
  }
}
