/** What the counters can be at most: the plain filter, conservation of octets, and exactness without collisions. */
module Sketch {
  import opened Base
  import opened Counting
  import opened FilterSpec
  import opened FlowTable
  import opened Worker
  import opened WorkerRuns

  // ---------- the plain multistage filter ----------

  /** Counters of a filter that adds every packet to one bucket of every stage. */
  type PlainCounters = seq<seq<nat>>

  ghost predicate PlainShaped(hs: seq<HashFn>, cs: PlainCounters) {
    |cs| == |hs| && forall i :: 0 <= i < |hs| ==> |cs[i]| == hs[i].m
  }

  function PlainStep(hs: seq<HashFn>, cs: PlainCounters, p: FlowUpdate): (r: PlainCounters)
    requires PlainShaped(hs, cs)
    ensures PlainShaped(hs, r)
  {
    seq(|hs|, i requires 0 <= i < |hs| => var b := Bucket(hs[i], p.fid); cs[i][b := cs[i][b] + p.dOctets])
  }

  function PlainRun(hs: seq<HashFn>, ps: seq<FlowUpdate>): (r: PlainCounters)
    ensures PlainShaped(hs, r)
  {
    if ps == [] then seq(|hs|, i requires 0 <= i < |hs| => seq(hs[i].m, _ => 0))
    else PlainStep(hs, PlainRun(hs, ps[..|ps| - 1]), ps[|ps| - 1])
  }

  predicate PlainPasses(k: Config, ps: seq<FlowUpdate>, p: FlowUpdate) {
    forall i :: 0 <= i < |k.hs| ==> PlainRun(k.hs, ps)[i][Bucket(k.hs[i], p.fid)] + p.dOctets > k.threshold
  }

  /** No counter of the sketch exceeds the plain filter's. */
  ghost predicate Below(hs: seq<HashFn>, cs: Counters, plain: PlainCounters) {
    Shaped(hs, cs) && PlainShaped(hs, plain) &&
    forall i, b :: 0 <= i < |hs| && 0 <= b < hs[i].m ==> cs[i][b] <= plain[i][b]
  }

  lemma BelowStep(k: Config, w: WorkerState, plain: PlainCounters, p: FlowUpdate)
    requires Below(k.hs, w.counters, plain)
    ensures Below(k.hs, Svc(k, w, p).counters, PlainStep(k.hs, plain, p))
  {
    if Drops(k, w, p) {
      var max := Ceiling(Row(k.hs, w.counters, p.fid), p.dOctets, k.threshold);
      forall i, b | 0 <= i < |k.hs| && 0 <= b < k.hs[i].m
        ensures Svc(k, w, p).counters[i][b] <= PlainStep(k.hs, plain, p)[i][b]
      {
        assert w.counters[i][b] <= plain[i][b];
        RaiseAddsAtMost(k.rule, w.counters[i][b], p.dOctets, k.threshold, max);
      }
    } else {
      forall i, b | 0 <= i < |k.hs| && 0 <= b < k.hs[i].m
        ensures w.counters[i][b] <= PlainStep(k.hs, plain, p)[i][b]
      {
        assert w.counters[i][b] <= plain[i][b];
      }
    }
  }

  lemma {:induction false} StaysBelowPlain(k: Config, table: Table, ps: seq<FlowUpdate>)
    ensures Below(k.hs, Run(k, Cleaned(k, table), ps).counters, PlainRun(k.hs, ps))
  {
    if ps != [] {
      StaysBelowPlain(k, table, ps[..|ps| - 1]);
      BelowStep(k, Run(k, Cleaned(k, table), ps[..|ps| - 1]), PlainRun(k.hs, ps[..|ps| - 1]), ps[|ps| - 1]);
    }
  }

  /** Whatever is admitted, under either rule and any threshold, the plain filter would admit. */
  lemma {:induction false} RefinesPlainFilter(k: Config, table: Table, ps: seq<FlowUpdate>, p: FlowUpdate)
    requires var w := Run(k, Cleaned(k, table), ps);
      p.fid !in w.table && p.fid in Svc(k, w, p).table
    ensures PlainPasses(k, ps, p)
  {
    var w := Run(k, Cleaned(k, table), ps);
    var row := Row(k.hs, w.counters, p.fid);
    StaysBelowPlain(k, table, ps);
    forall i | 0 <= i < |k.hs|
      ensures PlainRun(k.hs, ps)[i][Bucket(k.hs[i], p.fid)] + p.dOctets > k.threshold
    {
      assert Check(row[i], p.dOctets, k.threshold);
      CheckMeansOver(row[i], p.dOctets, k.threshold);
      assert w.counters[i][Bucket(k.hs[i], p.fid)] <= PlainRun(k.hs, ps)[i][Bucket(k.hs[i], p.fid)];
    }
  }

  /** No other flow of ps shares f's bucket of the stage. */
  ghost predicate Private(h: HashFn, ps: seq<FlowUpdate>, f: FlowId) {
    forall p :: p in ps && p.fid != f ==> !Together(h, f, p.fid)
  }

  lemma {:induction false} PrivateBucketIsExact(hs: seq<HashFn>, ps: seq<FlowUpdate>, f: FlowId, i: nat)
    requires i < |hs| && Private(hs[i], ps, f)
    ensures PlainRun(hs, ps)[i][Bucket(hs[i], f)] == Octets(ps, f)
  {
    if ps != [] {
      var before, p := ps[..|ps| - 1], ps[|ps| - 1];
      assert forall q :: q in before ==> q in ps;
      assert p in ps;
      PrivateBucketIsExact(hs, before, f, i);
    }
  }

  /** A flow with one private bucket is admitted only on its own account. */
  lemma {:induction false} PrivateFlowIsHeavy(k: Config, table: Table, ps: seq<FlowUpdate>, p: FlowUpdate, i: nat)
    requires i < |k.hs| && Private(k.hs[i], ps, p.fid)
    requires var w := Run(k, Cleaned(k, table), ps);
      p.fid !in w.table && p.fid in Svc(k, w, p).table
    ensures k.threshold < Octets(ps + [p], p.fid)
  {
    RefinesPlainFilter(k, table, ps, p);
    PrivateBucketIsExact(k.hs, ps, p.fid, i);
    OctetsAppend(ps, p, p.fid);
  }

  // ---------- what a dropped packet does to its counters ----------

  /** Stage j is the first that the packet fails. */
  ghost predicate FailsFirst(row: seq<u64>, d: u32, threshold: u64, j: nat) {
    j < |row| && row[j] + d <= threshold && forall i :: 0 <= i < j ==> row[i] + d > threshold
  }

  lemma LiteralValue(c: u64, d: u32, threshold: u64, m: u64)
    requires c <= threshold <= MAX_SAFE_THRESHOLD && m + d <= threshold
    ensures Raise(Literal, c, d, threshold, m + d) == if c == threshold then c else (if c < m then c else m) + d
  {
  }

  /** The value that a drop under the rule of the code leaves, given that of the first stage to fail. */
  function DroppedTo(c: nat, d: nat, threshold: nat, m: nat): nat {
    if c == threshold then c else if c < m then c + d else m + d
  }

  /**
   * A drop under the rule of the code: with j the first stage to fail, a counter that is full stays so, a counter below
   * that of stage j gains the packet, and every other one is set to that of stage j and the packet.
   */
  lemma {:induction false} LiteralDrop(k: Config, w: WorkerState, p: FlowUpdate) returns (j: nat)
    requires k.rule.Literal? && Safe(k) && Bounded(k, w.counters) && Drops(k, w, p)
    ensures FailsFirst(Row(k.hs, w.counters, p.fid), p.dOctets, k.threshold, j)
    ensures var row, after := Row(k.hs, w.counters, p.fid), Row(k.hs, Svc(k, w, p).counters, p.fid);
      forall i :: 0 <= i < |row| ==> after[i] == DroppedTo(row[i], p.dOctets, k.threshold, row[j])
  {
    var row := Row(k.hs, w.counters, p.fid);
    j := FirstFailure(row, p.dOctets, k.threshold);
    forall i | 0 <= i < |row|
      ensures i < j ==> row[i] + p.dOctets > k.threshold
      ensures Row(k.hs, Svc(k, w, p).counters, p.fid)[i] == DroppedTo(row[i], p.dOctets, k.threshold, row[j])
    {
      CheckMeansOver(row[i], p.dOctets, k.threshold);
      LiteralValue(row[i], p.dOctets, k.threshold, row[j]);
      RowAfterDrop(k, w.counters, p, p.fid, i);
    }
  }

  lemma DocumentedValue(c: u64, d: u32, threshold: u64, m: u64)
    requires c <= threshold <= MAX_SAFE_THRESHOLD && m + d <= threshold
    ensures Raise(Documented, c, d, threshold, m + d) == if c < m then c + d else if c < m + d then m + d else c
  {
  }

  /** Under the documented rule a counter above that of stage j and the packet stays. */
  lemma {:induction false} DocumentedDrop(k: Config, w: WorkerState, p: FlowUpdate) returns (j: nat)
    requires k.rule.Documented? && Safe(k) && Bounded(k, w.counters) && Drops(k, w, p)
    ensures FailsFirst(Row(k.hs, w.counters, p.fid), p.dOctets, k.threshold, j)
    ensures var row, after := Row(k.hs, w.counters, p.fid), Row(k.hs, Svc(k, w, p).counters, p.fid);
      forall i :: 0 <= i < |row| ==>
        after[i] == if row[i] < row[j] then row[i] + p.dOctets
                    else if row[i] < row[j] + p.dOctets then row[j] + p.dOctets else row[i]
  {
    var row := Row(k.hs, w.counters, p.fid);
    j := FirstFailure(row, p.dOctets, k.threshold);
    forall i | 0 <= i < |row|
      ensures i < j ==> row[i] + p.dOctets > k.threshold
      ensures Row(k.hs, Svc(k, w, p).counters, p.fid)[i]
        == if row[i] < row[j] then row[i] + p.dOctets
           else if row[i] < row[j] + p.dOctets then row[j] + p.dOctets else row[i]
    {
      CheckMeansOver(row[i], p.dOctets, k.threshold);
      DocumentedValue(row[i], p.dOctets, k.threshold, row[j]);
      RowAfterDrop(k, w.counters, p, p.fid, i);
    }
  }

  /** Under either rule the least counter of the flow gains exactly the packet, and none is left below it. */
  lemma {:induction false} DropRaisesLeast(k: Config, w: WorkerState, p: FlowUpdate, v: nat)
    requires Safe(k) && Bounded(k, w.counters) && Drops(k, w, p)
    requires forall i :: 0 <= i < |k.hs| ==> v <= Row(k.hs, w.counters, p.fid)[i]
    ensures var row, after := Row(k.hs, w.counters, p.fid), Row(k.hs, Svc(k, w, p).counters, p.fid);
      forall i :: 0 <= i < |row| ==> v + p.dOctets <= after[i] && (row[i] == v ==> after[i] == v + p.dOctets)
  {
    var j;
    if k.rule.Literal? {
      j := LiteralDrop(k, w, p);
    } else {
      j := DocumentedDrop(k, w, p);
    }
  }

  /** The counters of all other buckets stay. */
  lemma DropTouchesOneBucket(k: Config, w: WorkerState, p: FlowUpdate, i: nat, b: nat)
    requires Shaped(k.hs, w.counters) && i < |k.hs| && b < k.hs[i].m && b != Bucket(k.hs[i], p.fid)
    ensures Svc(k, w, p).counters[i][b] == w.counters[i][b]
  {
  }

  // ---------- conservation ----------

  function Sum(s: seq<nat>): nat {
    if s == [] then 0 else Sum(s[..|s| - 1]) + s[|s| - 1]
  }

  lemma {:induction false} SumUpdate(s: seq<nat>, b: nat, v: nat)
    requires b < |s|
    ensures Sum(s[b := v]) == Sum(s) - s[b] + v
  {
    var n := |s| - 1;
    if b < n {
      assert s[b := v][..n] == s[..n][b := v];
      SumUpdate(s[..n], b, v);
    } else {
      assert s[b := v][..n] == s[..n];
    }
  }

  lemma {:induction false} SumZeros(n: nat)
    ensures Sum(seq(n, _ => 0)) == 0
  {
    if n > 0 {
      assert seq(n, _ => 0)[..n - 1] == seq(n - 1, _ => 0);
      SumZeros(n - 1);
    }
  }

  /** Octets of the packets the filter dropped. */
  function Dropped(k: Config, w: WorkerState, ps: seq<FlowUpdate>): nat
    requires Shaped(k.hs, w.counters)
  {
    if ps == [] then 0
    else
      var before, p := ps[..|ps| - 1], ps[|ps| - 1];
      Dropped(k, w, before) + if Drops(k, Run(k, w, before), p) then p.dOctets else 0
  }

  /** A drop adds at most its octets to a stage. */
  lemma DropAddsAtMost(k: Config, cs: Counters, p: FlowUpdate, i: nat)
    requires Shaped(k.hs, cs) && i < |k.hs|
    ensures Sum(Update(k.rule, k.hs, k.threshold, cs, p)[i]) <= Sum(cs[i]) + p.dOctets
  {
    var b, max := Bucket(k.hs[i], p.fid), Ceiling(Row(k.hs, cs, p.fid), p.dOctets, k.threshold);
    var c := Raise(k.rule, cs[i][b], p.dOctets, k.threshold, max);
    RaiseAddsAtMost(k.rule, cs[i][b], p.dOctets, k.threshold, max);
    SumUpdate(cs[i], b, c);
  }

  /** The counters of a stage never hold more octets than the filter has dropped since the clean. */
  lemma {:induction false} StageConservation(k: Config, table: Table, ps: seq<FlowUpdate>, i: nat)
    requires i < |k.hs|
    ensures var w := Cleaned(k, table); Sum(Run(k, w, ps).counters[i]) <= Dropped(k, w, ps)
  {
    var w := Cleaned(k, table);
    if ps == [] {
      assert w.counters[i] == seq(k.hs[i].m, _ => 0);
      SumZeros(k.hs[i].m);
    } else {
      var before, p := ps[..|ps| - 1], ps[|ps| - 1];
      StageConservation(k, table, before, i);
      DropAddsAtMost(k, Run(k, w, before).counters, p, i);
    }
  }

  /** Buckets whose counter lets a packet of d octets through. */
  function OpenBuckets(s: seq<u64>, d: u32, threshold: u64): nat {
    if s == [] then 0
    else OpenBuckets(s[..|s| - 1], d, threshold) + if Check(s[|s| - 1], d, threshold) then 1 else 0
  }

  lemma {:induction false} OpenBucketsHold(s: seq<u64>, d: u32, threshold: u64)
    requires d <= threshold
    ensures OpenBuckets(s, d, threshold) * (threshold - d + 1) <= Sum(s)
  {
    if s != [] {
      var n := |s| - 1;
      OpenBucketsHold(s[..n], d, threshold);
      if Check(s[n], d, threshold) {
        assert s[n] >= threshold - d + 1;
        OneMoreTime(OpenBuckets(s[..n], d, threshold), threshold - d + 1);
      }
    }
  }

  /** Pigeonhole: to open n buckets of a stage, dropped packets must have paid n * (T - d + 1) octets. */
  lemma {:induction false} OpenBucketsAreBounded(k: Config, table: Table, ps: seq<FlowUpdate>, i: nat, d: u32)
    requires i < |k.hs| && d <= k.threshold
    ensures var w := Cleaned(k, table);
      OpenBuckets(Run(k, w, ps).counters[i], d, k.threshold) * (k.threshold - d + 1) <= Dropped(k, w, ps)
  {
    StageConservation(k, table, ps, i);
    OpenBucketsHold(Run(k, Cleaned(k, table), ps).counters[i], d, k.threshold);
  }

  // ---------- exactness without collisions ----------

  /** Outside the table, f's counters all equal s, which is within the threshold. */
  ghost predicate Exact(k: Config, w: WorkerState, f: FlowId, s: nat)
    requires Shaped(k.hs, w.counters)
  {
    f !in w.table ==> s <= k.threshold && forall i :: 0 <= i < |k.hs| ==> Row(k.hs, w.counters, f)[i] == s
  }

  lemma ExactStep(k: Config, w: WorkerState, p: FlowUpdate, f: FlowId, s: nat)
    requires Safe(k) && Bounded(k, w.counters) && 0 < |k.hs| && Exact(k, w, f, s)
    requires p.fid != f ==> forall i :: 0 <= i < |k.hs| ==> !Together(k.hs[i], f, p.fid)
    ensures Exact(k, Svc(k, w, p), f, s + if p.fid == f then p.dOctets else 0)
    ensures f in Svc(k, w, p).table <==> f in w.table || (p.fid == f && s + p.dOctets > k.threshold)
  {
    if f !in w.table {
      var row := Row(k.hs, w.counters, f);
      assert row[0] == s;
      if Drops(k, w, p) {
        var first := FirstFailure(Row(k.hs, w.counters, p.fid), p.dOctets, k.threshold);
        forall i | 0 <= i < |k.hs|
          ensures Row(k.hs, Svc(k, w, p).counters, f)[i] == s + if p.fid == f then p.dOctets else 0
        {
          RowAfterDrop(k, w.counters, p, f, i);
          assert row[i] == s;
        }
      } else if p.fid == f {
        assert Check(row[0], p.dOctets, k.threshold);
      }
    }
  }

  /** Without collisions a new flow is admitted by exactly the packet that takes it over the threshold. */
  lemma {:induction false} PrivateFlowsAreExact(k: Config, table: Table, ps: seq<FlowUpdate>, f: FlowId)
    requires Safe(k) && 0 < |k.hs| && f !in table
    requires forall i :: 0 <= i < |k.hs| ==> Private(k.hs[i], ps, f)
    ensures var w := Run(k, Cleaned(k, table), ps);
      (f in w.table <==> k.threshold < Octets(ps, f)) && Exact(k, w, f, Octets(ps, f))
  {
    var w := Cleaned(k, table);
    if ps == [] {
      forall i | 0 <= i < |k.hs| ensures Row(k.hs, w.counters, f)[i] == 0 {
        assert w.counters[i][Bucket(k.hs[i], f)] == 0;
      }
    } else {
      var before, p := ps[..|ps| - 1], ps[|ps| - 1];
      assert p in ps;
      forall i | 0 <= i < |k.hs| ensures Private(k.hs[i], before, f) {
        assert forall q :: q in before ==> q in ps;
      }
      PrivateFlowsAreExact(k, table, before, f);
      CountersStayBounded(k, w, before);
      forall i | 0 <= i < |k.hs| && p.fid != f ensures !Together(k.hs[i], f, p.fid) {
        assert Private(k.hs[i], ps, f);
      }
      ExactStep(k, Run(k, w, before), p, f, Octets(before, f));
    }
  }
}
