/** Runs of a worker over the packets of one interval, and what the scan of a dropped packet finds. */
module WorkerRuns {
  import opened Base
  import opened FilterSpec
  import opened FlowTable
  import opened Worker

  /** The state after the packets ps. */
  function Run(k: Config, w: WorkerState, ps: seq<FlowUpdate>): (r: WorkerState)
    requires Shaped(k.hs, w.counters)
    ensures Shaped(k.hs, r.counters)
  {
    if ps == [] then w else Svc(k, Run(k, w, ps[..|ps| - 1]), ps[|ps| - 1])
  }

  /** True octets of flow f in ps. */
  function Octets(ps: seq<FlowUpdate>, f: FlowId): nat {
    if ps == [] then 0
    else
      var p := ps[|ps| - 1];
      Octets(ps[..|ps| - 1], f) + if p.fid == f then p.dOctets else 0
  }

  /** A packet that neither finds its flow in the table nor gets it admitted. */
  predicate Drops(k: Config, w: WorkerState, p: FlowUpdate)
    requires Shaped(k.hs, w.counters)
  {
    p.fid !in w.table && !Passes(Row(k.hs, w.counters, p.fid), p.dOctets, k.threshold)
  }

  /** State of a worker after a clean: the counters are 0, the table may hold survivors. */
  function Cleaned(k: Config, table: Table): (w: WorkerState)
    ensures Shaped(k.hs, w.counters)
  {
    WorkerState(Zeros(k.hs), table)
  }

  ghost predicate Safe(k: Config) {
    k.threshold <= MAX_SAFE_THRESHOLD
  }

  ghost predicate Bounded(k: Config, cs: Counters) {
    Shaped(k.hs, cs) && forall i, b :: 0 <= i < |cs| && 0 <= b < |cs[i]| ==> cs[i][b] <= k.threshold
  }

  /** Every threshold the program ever gives a stage is safe, and it is 0, 1 or a multiple of 100. */
  lemma ProgramThresholds(first: u32, t: nat)
    ensures InitialThreshold(first) == 100 * first <= MAX_SAFE_THRESHOLD
    ensures UpdatedThreshold(t) == (if t == 0 then 0 else 1)
  {
  }

  /** Up to this threshold, and no further, a counter within it plus a packet size cannot wrap. */
  lemma SafeIffNoWrap(threshold: u64)
    ensures (forall c: u64, d: u32 :: c <= threshold ==> Add64(c, d) == c + d) <==> threshold <= MAX_SAFE_THRESHOLD
  {
    if threshold > MAX_SAFE_THRESHOLD {
      var d: u32 := TWO_TO_THE_32 - 1;
      assert Add64(threshold, d) < threshold;
    }
  }

  lemma InitAndLast(ps: seq<FlowUpdate>)
    requires ps != []
    ensures ps[..|ps| - 1] + [ps[|ps| - 1]] == ps
  {
  }

  lemma RunAppend(k: Config, w: WorkerState, ps: seq<FlowUpdate>, p: FlowUpdate)
    requires Shaped(k.hs, w.counters)
    ensures Run(k, w, ps + [p]) == Svc(k, Run(k, w, ps), p)
  {
    assert (ps + [p])[..|ps + [p]| - 1] == ps;
  }

  lemma {:induction false} RunConcat(k: Config, w: WorkerState, ps: seq<FlowUpdate>, qs: seq<FlowUpdate>)
    requires Shaped(k.hs, w.counters)
    ensures Run(k, w, ps + qs) == Run(k, Run(k, w, ps), qs)
    decreases |qs|
  {
    if qs == [] {
      assert ps + qs == ps;
    } else {
      assert (ps + qs)[..|ps + qs| - 1] == ps + qs[..|qs| - 1];
      RunConcat(k, w, ps, qs[..|qs| - 1]);
    }
  }

  lemma RunAround(k: Config, w: WorkerState, ps: seq<FlowUpdate>, p: FlowUpdate, qs: seq<FlowUpdate>)
    requires Shaped(k.hs, w.counters)
    ensures Run(k, w, ps + [p] + qs) == Run(k, Svc(k, Run(k, w, ps), p), qs)
  {
    RunAppend(k, w, ps, p);
    RunConcat(k, w, ps + [p], qs);
  }

  lemma OctetsAppend(ps: seq<FlowUpdate>, p: FlowUpdate, f: FlowId)
    ensures Octets(ps + [p], f) == Octets(ps, f) + if p.fid == f then p.dOctets else 0
  {
    assert (ps + [p])[..|ps + [p]| - 1] == ps;
  }

  lemma {:induction false} OctetsConcat(ps: seq<FlowUpdate>, qs: seq<FlowUpdate>, f: FlowId)
    ensures Octets(ps + qs, f) == Octets(ps, f) + Octets(qs, f)
    decreases |qs|
  {
    if qs == [] {
      assert ps + qs == ps;
    } else {
      assert (ps + qs)[..|ps + qs| - 1] == ps + qs[..|qs| - 1];
      OctetsConcat(ps, qs[..|qs| - 1], f);
    }
  }

  /** A scan that every stage passes has a minimum that passes too. */
  lemma {:induction false} PassingMin(row: seq<u64>, d: u32, threshold: u64)
    requires threshold <= MAX_SAFE_THRESHOLD && Passes(row, d, threshold)
    requires forall i :: 0 <= i < |row| ==> row[i] <= threshold
    ensures ScanMin(row, d, threshold) + d > threshold
  {
    if row != [] {
      var n := |row| - 1;
      assert row[..n + 1] == row;
      ScanStep(row, d, threshold, n);
      PassingMin(row[..n], d, threshold);
      CheckMeansOver(row[n], d, threshold);
    }
  }

  /** On a drop the scan's minimum is the counter of the first failing stage, strictly below all before it. */
  lemma {:induction false} FirstFailure(row: seq<u64>, d: u32, threshold: u64) returns (k: nat)
    requires threshold <= MAX_SAFE_THRESHOLD && !Passes(row, d, threshold)
    requires forall i :: 0 <= i < |row| ==> row[i] <= threshold
    ensures k < |row| && !Check(row[k], d, threshold)
    ensures forall j :: 0 <= j < k ==> Check(row[j], d, threshold) && row[k] < row[j]
    ensures ScanMin(row, d, threshold) == row[k]
    ensures Ceiling(row, d, threshold) == row[k] + d <= threshold
  {
    var n := |row| - 1;
    var before := row[..n];
    assert row[..n + 1] == row;
    ScanStep(row, d, threshold, n);
    if Passes(before, d, threshold) {
      PassingMin(before, d, threshold);
      k := n;
      forall j | 0 <= j < k ensures Check(row[j], d, threshold) && row[k] < row[j] {
        assert Check(before[j], d, threshold);
        CheckMeansOver(row[j], d, threshold);
        CheckMeansOver(row[k], d, threshold);
      }
      CheckMeansOver(row[k], d, threshold);
    } else {
      k := FirstFailure(before, d, threshold);
      assert forall j :: 0 <= j < n ==> before[j] == row[j];
    }
  }

  /** The counters of f after the drop of p: only a bucket shared with p.fid is touched. */
  lemma RowAfterDrop(k: Config, cs: Counters, p: FlowUpdate, f: FlowId, i: nat)
    requires Shaped(k.hs, cs) && i < |k.hs|
    ensures var row := Row(k.hs, cs, p.fid);
      Row(k.hs, Update(k.rule, k.hs, k.threshold, cs, p), f)[i] ==
      if Together(k.hs[i], f, p.fid)
      then Raise(k.rule, row[i], p.dOctets, k.threshold, Ceiling(row, p.dOctets, k.threshold))
      else Row(k.hs, cs, f)[i]
  {
  }

  /** The two flows share a bucket of the stage. */
  predicate Together(h: HashFn, f: FlowId, g: FlowId) {
    Bucket(h, f) == Bucket(h, g)
  }

  /** No packet takes a counter over the threshold. */
  lemma StepStaysBounded(k: Config, w: WorkerState, p: FlowUpdate)
    requires Safe(k) && Bounded(k, w.counters)
    ensures Bounded(k, Svc(k, w, p).counters)
  {
    if Drops(k, w, p) {
      var j := FirstFailure(Row(k.hs, w.counters, p.fid), p.dOctets, k.threshold);
    }
  }

  /** In every state of every run from bounded counters, all counters are within the threshold. */
  lemma {:induction false} CountersStayBounded(k: Config, w: WorkerState, ps: seq<FlowUpdate>)
    requires Safe(k) && Bounded(k, w.counters)
    ensures Bounded(k, Run(k, w, ps).counters)
  {
    if ps != [] {
      CountersStayBounded(k, w, ps[..|ps| - 1]);
      StepStaysBounded(k, Run(k, w, ps[..|ps| - 1]), ps[|ps| - 1]);
    }
  }

  /** Within an interval no flow leaves the table. */
  lemma {:induction false} TableGrows(k: Config, w: WorkerState, ps: seq<FlowUpdate>, n: nat)
    requires Shaped(k.hs, w.counters) && n <= |ps|
    ensures Run(k, w, ps[..n]).table.Keys <= Run(k, w, ps).table.Keys
  {
    if n < |ps| {
      assert ps[..|ps| - 1][..n] == ps[..n];
      TableGrows(k, w, ps[..|ps| - 1], n);
    } else {
      assert ps[..n] == ps;
    }
  }
}
