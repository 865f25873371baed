/** Which flows the filter lets into the table: no false negatives, and when the code meets that promise. */
module Admission {
  import opened Base
  import opened FilterSpec
  import opened FlowTable
  import opened Worker
  import opened WorkerRuns

  /** As long as f is outside the table, s is within all its counters. */
  ghost predicate Dominated(k: Config, w: WorkerState, f: FlowId, s: nat)
    requires Shaped(k.hs, w.counters)
  {
    f !in w.table ==> forall i :: 0 <= i < |k.hs| ==> s <= Row(k.hs, w.counters, f)[i]
  }

  lemma DominationStep(k: Config, w: WorkerState, p: FlowUpdate, f: FlowId, s: nat)
    requires k.rule.Documented? && Safe(k) && Bounded(k, w.counters) && Dominated(k, w, f, s)
    ensures Dominated(k, Svc(k, w, p), f, s + if p.fid == f then p.dOctets else 0)
  {
    if Drops(k, w, p) && f !in w.table {
      var row := Row(k.hs, w.counters, p.fid);
      var first := FirstFailure(row, p.dOctets, k.threshold);
      var s' := s + if p.fid == f then p.dOctets else 0;
      forall i | 0 <= i < |k.hs| ensures s' <= Row(k.hs, Svc(k, w, p).counters, f)[i] {
        RowAfterDrop(k, w.counters, p, f, i);
        assert s <= Row(k.hs, w.counters, f)[i];
        if Together(k.hs[i], f, p.fid) {
          if p.fid == f {
            assert s <= row[first];
          }
          RaiseDominates(row[i], p.dOctets, k.threshold, row[first], s, p.fid == f);
        }
      }
    }
  }

  /** Raised to at most min + d, a counter that was at least s stays so, and gains d if min was at least s. */
  lemma RaiseDominates(c: u64, d: u32, threshold: u64, min: u64, s: nat, own: bool)
    requires s <= c <= threshold <= MAX_SAFE_THRESHOLD && min + d <= threshold && (own ==> s <= min)
    ensures s + (if own then d else 0) <= Raise(Documented, c, d, threshold, min + d)
  {
  }

  /** Documented rule: the counters of a flow outside the table are all at least its octets since the clean. */
  lemma {:induction false} NoFalseNegatives(k: Config, table: Table, ps: seq<FlowUpdate>, f: FlowId)
    requires k.rule.Documented? && Safe(k)
    ensures Dominated(k, Run(k, Cleaned(k, table), ps), f, Octets(ps, f))
  {
    if ps != [] {
      var before := ps[..|ps| - 1];
      NoFalseNegatives(k, table, before, f);
      CountersStayBounded(k, Cleaned(k, table), before);
      DominationStep(k, Run(k, Cleaned(k, table), before), ps[|ps| - 1], f, Octets(before, f));
    }
  }

  /** Hence every flow over the threshold is in the table. */
  lemma HeavyFlowsAreAdmitted(k: Config, table: Table, ps: seq<FlowUpdate>, f: FlowId)
    requires k.rule.Documented? && Safe(k) && 0 < |k.hs| && k.threshold < Octets(ps, f)
    ensures f in Run(k, Cleaned(k, table), ps).table
  {
    var w := Run(k, Cleaned(k, table), ps);
    NoFalseNegatives(k, table, ps, f);
    CountersStayBounded(k, Cleaned(k, table), ps);
    assert Row(k.hs, w.counters, f)[0] <= k.threshold;
  }

  // ---------- the literal rule against the documented one ----------

  /** The drop of p finds a counter below the threshold and above the bound, which the code then lowers. */
  ghost predicate Lowers(k: Config, w: WorkerState, p: FlowUpdate)
    requires Shaped(k.hs, w.counters)
  {
    var row := Row(k.hs, w.counters, p.fid);
    Drops(k, w, p) && exists i :: 0 <= i < |row| && Ceiling(row, p.dOctets, k.threshold) < row[i] < k.threshold
  }

  ghost predicate NeverLowers(k: Config, w: WorkerState, ps: seq<FlowUpdate>)
    requires Shaped(k.hs, w.counters)
  {
    forall n :: 0 <= n < |ps| ==> !Lowers(k, Run(k, w, ps[..n]), ps[n])
  }

  lemma {:induction false} LoweringDiffers(k: Config, w: WorkerState, p: FlowUpdate)
    requires Shaped(k.hs, w.counters) && k.rule.Literal? && Lowers(k, w, p)
    ensures Svc(k, w, p) != Svc(k.(rule := Documented), w, p)
  {
    var row := Row(k.hs, w.counters, p.fid);
    var i :| 0 <= i < |row| && Ceiling(row, p.dOctets, k.threshold) < row[i] < k.threshold;
    RowAfterDrop(k, w.counters, p, p.fid, i);
    RowAfterDrop(k.(rule := Documented), w.counters, p, p.fid, i);
  }

  lemma RaisingAgrees(k: Config, cs: Counters, p: FlowUpdate)
    requires Safe(k) && Bounded(k, cs) && k.rule.Literal?
    requires var row := Row(k.hs, cs, p.fid);
      forall i :: 0 <= i < |row| ==> row[i] <= Ceiling(row, p.dOctets, k.threshold) || k.threshold <= row[i]
    ensures Update(Literal, k.hs, k.threshold, cs, p) == Update(Documented, k.hs, k.threshold, cs, p)
  {
    var row := Row(k.hs, cs, p.fid);
    var l, d := Update(Literal, k.hs, k.threshold, cs, p), Update(Documented, k.hs, k.threshold, cs, p);
    forall i | 0 <= i < |k.hs| ensures l[i] == d[i] {
      RulesAgree(row[i], p.dOctets, k.threshold, Ceiling(row, p.dOctets, k.threshold));
    }
  }

  /** One step of the code is the documented step exactly when it lowers nothing. */
  lemma {:induction false} StepAsDocumented(k: Config, w: WorkerState, p: FlowUpdate)
    requires Safe(k) && Bounded(k, w.counters) && k.rule.Literal?
    ensures Svc(k, w, p) == Svc(k.(rule := Documented), w, p) <==> !Lowers(k, w, p)
  {
    if Lowers(k, w, p) {
      LoweringDiffers(k, w, p);
    } else if Drops(k, w, p) {
      RaisingAgrees(k, w.counters, p);
    }
  }

  lemma {:induction false} RunAsDocumented(k: Config, w: WorkerState, ps: seq<FlowUpdate>)
    requires Safe(k) && Bounded(k, w.counters) && k.rule.Literal? && NeverLowers(k, w, ps)
    ensures Run(k, w, ps) == Run(k.(rule := Documented), w, ps)
  {
    if ps != [] {
      var before := ps[..|ps| - 1];
      forall n | 0 <= n < |before| ensures !Lowers(k, Run(k, w, before[..n]), before[n]) {
        assert before[..n] == ps[..n] && before[n] == ps[n];
      }
      RunAsDocumented(k, w, before);
      CountersStayBounded(k, w, before);
      StepAsDocumented(k, Run(k, w, before), ps[|ps| - 1]);
    }
  }

  /** The promise of the filter for the code: whatever the packets, a flow over the threshold is admitted. */
  ghost predicate AdmitsHeavy(hs: seq<HashFn>, threshold: u64) {
    var k := Config(Literal, hs, threshold);
    forall table, ps, f :: threshold < Octets(ps, f) ==> f in Run(k, Cleaned(k, table), ps).table
  }

  /** A run that lowers nothing has no false negatives. */
  lemma {:induction false} NeverLowersSuffices(k: Config, table: Table, ps: seq<FlowUpdate>, f: FlowId)
    requires k.rule.Literal? && Safe(k) && 0 < |k.hs|
    requires NeverLowers(k, Cleaned(k, table), ps) && k.threshold < Octets(ps, f)
    ensures f in Run(k, Cleaned(k, table), ps).table
  {
    RunAsDocumented(k, Cleaned(k, table), ps);
    HeavyFlowsAreAdmitted(k.(rule := Documented), table, ps, f);
  }

  /** With the threshold 0 or 1 that every update leaves, the code cannot lower a counter. */
  lemma {:induction false} TinyThresholdsAdmitHeavy(hs: seq<HashFn>, threshold: u64)
    requires threshold <= 1 && 0 < |hs|
    ensures AdmitsHeavy(hs, threshold)
  {
    var k := Config(Literal, hs, threshold);
    forall table, ps, f | threshold < Octets(ps, f)
      ensures f in Run(k, Cleaned(k, table), ps).table
    {
      NeverLowersSuffices(k, table, ps, f);
    }
  }

  /** If the two flows share a bucket somewhere, they share one everywhere. */
  ghost predicate AgreeFor(hs: seq<HashFn>, f: FlowId, g: FlowId) {
    forall i, j :: 0 <= i < |hs| && 0 <= j < |hs| && Together(hs[i], f, g) ==> Together(hs[j], f, g)
  }

  /** All stages group these flows alike. */
  ghost predicate StagesAgreeOn(hs: seq<HashFn>, own: FlowId -> bool) {
    forall f, g :: own(f) && own(g) ==> AgreeFor(hs, f, g)
  }

  ghost predicate StagesAgree(hs: seq<HashFn>) {
    StagesAgreeOn(hs, _ => true)
  }

  ghost predicate PacketsOf(ps: seq<FlowUpdate>, own: FlowId -> bool) {
    forall p :: p in ps ==> own(p.fid)
  }

  /** Every one of these flows has the same value in all its counters. */
  ghost predicate Level(hs: seq<HashFn>, cs: Counters, own: FlowId -> bool) {
    Shaped(hs, cs) &&
    forall f, i, j :: 0 <= i < |hs| && 0 <= j < |hs| && own(f) ==> Row(hs, cs, f)[i] == Row(hs, cs, f)[j]
  }

  lemma LevelStep(k: Config, w: WorkerState, p: FlowUpdate, own: FlowId -> bool)
    requires Safe(k) && Bounded(k, w.counters) && k.rule.Literal?
    requires StagesAgreeOn(k.hs, own) && own(p.fid) && Level(k.hs, w.counters, own)
    ensures Level(k.hs, Svc(k, w, p).counters, own) && !Lowers(k, w, p)
  {
    if Drops(k, w, p) {
      var row := Row(k.hs, w.counters, p.fid);
      var first := FirstFailure(row, p.dOctets, k.threshold);
      assert forall i :: 0 <= i < |row| ==> row[i] == row[first];
      var cs := Svc(k, w, p).counters;
      forall f, i, j | 0 <= i < |k.hs| && 0 <= j < |k.hs| && own(f)
        ensures Row(k.hs, cs, f)[i] == Row(k.hs, cs, f)[j]
      {
        assert AgreeFor(k.hs, f, p.fid);
        RowAfterDrop(k, w.counters, p, f, i);
        RowAfterDrop(k, w.counters, p, f, j);
      }
    }
  }

  lemma {:induction false} LevelRun(k: Config, table: Table, ps: seq<FlowUpdate>, own: FlowId -> bool)
    requires Safe(k) && k.rule.Literal? && StagesAgreeOn(k.hs, own) && PacketsOf(ps, own)
    ensures Level(k.hs, Run(k, Cleaned(k, table), ps).counters, own)
  {
    if ps != [] {
      var before := ps[..|ps| - 1];
      LevelRun(k, table, before, own);
      CountersStayBounded(k, Cleaned(k, table), before);
      LevelStep(k, Run(k, Cleaned(k, table), before), ps[|ps| - 1], own);
    }
  }

  /** Where the stages agree on the flows of a run, it lowers nothing. */
  lemma {:induction false} AgreementNeverLowers(k: Config, table: Table, ps: seq<FlowUpdate>, own: FlowId -> bool)
    requires Safe(k) && k.rule.Literal? && StagesAgreeOn(k.hs, own) && PacketsOf(ps, own)
    ensures NeverLowers(k, Cleaned(k, table), ps)
  {
    var w := Cleaned(k, table);
    forall n | 0 <= n < |ps| ensures !Lowers(k, Run(k, w, ps[..n]), ps[n]) {
      LevelRun(k, table, ps[..n], own);
      CountersStayBounded(k, w, ps[..n]);
      LevelStep(k, Run(k, w, ps[..n]), ps[n], own);
    }
  }

  lemma AgreeingStagesAdmitHeavy(hs: seq<HashFn>, threshold: u64)
    requires threshold <= MAX_SAFE_THRESHOLD && 0 < |hs| && StagesAgree(hs)
    ensures AdmitsHeavy(hs, threshold)
  {
    var k := Config(Literal, hs, threshold);
    forall table, ps, f | threshold < Octets(ps, f)
      ensures f in Run(k, Cleaned(k, table), ps).table
    {
      AgreementNeverLowers(k, table, ps, _ => true);
      NeverLowersSuffices(k, table, ps, f);
    }
  }

  // ---------- the packets that defeat the code ----------

  /** The state where f alone has s octets in its counters. */
  ghost predicate OnlyFlow(k: Config, w: WorkerState, f: FlowId, s: nat) {
    Shaped(k.hs, w.counters) && w.table == map[] &&
    forall g, i :: 0 <= i < |k.hs| ==> Row(k.hs, w.counters, g)[i] == if Together(k.hs[i], g, f) then s else 0
  }

  lemma OnlyFlowStep(k: Config, w: WorkerState, f: FlowId, s: nat, d: u32)
    requires Safe(k) && Bounded(k, w.counters) && 0 < |k.hs|
    requires OnlyFlow(k, w, f, s) && s + d <= k.threshold && s < k.threshold
    ensures OnlyFlow(k, Svc(k, w, FlowUpdate(f, d)), f, s + d)
  {
    var p := FlowUpdate(f, d);
    var row := Row(k.hs, w.counters, f);
    assert row[0] == s;
    assert Drops(k, w, p);
    var first := FirstFailure(row, d, k.threshold);
    var cs := Svc(k, w, p).counters;
    forall g, i | 0 <= i < |k.hs|
      ensures Row(k.hs, cs, g)[i] == if Together(k.hs[i], g, f) then s + d else 0
    {
      RowAfterDrop(k, w.counters, p, g, i);
      assert row[i] == s;
    }
  }

  lemma CleanedIsOnlyFlow(k: Config, f: FlowId)
    ensures OnlyFlow(k, Cleaned(k, map[]), f, 0) && Bounded(k, Cleaned(k, map[]).counters)
  {
    var w := Cleaned(k, map[]);
    forall g, i | 0 <= i < |k.hs| ensures Row(k.hs, w.counters, g)[i] == 0 {
      assert w.counters[i][Bucket(k.hs[i], g)] == 0;
    }
  }

  /** Packets with s octets in all that leave f alone with s octets in its counters. */
  lemma {:induction false} Fill(k: Config, f: FlowId, s: nat) returns (ps: seq<FlowUpdate>)
    requires Safe(k) && 0 < |k.hs| && s <= k.threshold && 0 < k.threshold
    ensures Octets(ps, f) == s && forall p :: p in ps ==> p.fid == f
    ensures var w := Run(k, Cleaned(k, map[]), ps);
      OnlyFlow(k, w, f, s) && Bounded(k, w.counters)
  {
    var w := Cleaned(k, map[]);
    var d: u32 := if s < TWO_TO_THE_32 then s else TWO_TO_THE_32 - 1;
    var before: seq<FlowUpdate> := [];
    if s < TWO_TO_THE_32 {
      CleanedIsOnlyFlow(k, f);
    } else {
      before := Fill(k, f, s - d);
    }
    var v := Run(k, w, before);
    OnlyFlowStep(k, v, f, s - d, d);
    StepStaysBounded(k, v, FlowUpdate(f, d));
    RunAppend(k, w, before, FlowUpdate(f, d));
    ps := before + [FlowUpdate(f, d)];
    OctetsAppend(before, FlowUpdate(f, d), f);
  }

  lemma HeldBackStep(k: Config, w: WorkerState, p: FlowUpdate, i: nat)
    requires Safe(k) && Bounded(k, w.counters) && p.fid !in w.table && i < |k.hs| && k.rule.Literal?
    requires Row(k.hs, w.counters, p.fid)[i] + p.dOctets <= k.threshold
    ensures p.fid !in Svc(k, w, p).table
    ensures Row(k.hs, Svc(k, w, p).counters, p.fid)[i] <= Row(k.hs, w.counters, p.fid)[i] + p.dOctets
  {
    assert !Check(Row(k.hs, w.counters, p.fid)[i], p.dOctets, k.threshold);
    RowAfterDrop(k, w.counters, p, p.fid, i);
  }

  /** A flow alone is held back as long as one of its counters, with what it sends, is within the threshold. */
  lemma {:induction false} HeldBack(k: Config, w: WorkerState, ps: seq<FlowUpdate>, f: FlowId, i: nat)
    requires Safe(k) && Bounded(k, w.counters) && f !in w.table && i < |k.hs| && k.rule.Literal?
    requires forall p :: p in ps ==> p.fid == f
    requires Row(k.hs, w.counters, f)[i] + Octets(ps, f) <= k.threshold
    ensures var v := Run(k, w, ps);
      f !in v.table && Row(k.hs, v.counters, f)[i] <= Row(k.hs, w.counters, f)[i] + Octets(ps, f)
  {
    if ps != [] {
      var before, p := ps[..|ps| - 1], ps[|ps| - 1];
      assert p in ps;
      HeldBack(k, w, before, f, i);
      CountersStayBounded(k, w, before);
      HeldBackStep(k, Run(k, w, before), p, i);
    }
  }

  /** f has filled its counters; a packet of g lowers the one they share. */
  lemma {:induction false} SharedBucketLowered(k: Config, w: WorkerState, f: FlowId, g: FlowId, i: nat, j: nat)
    requires k.rule.Literal? && Safe(k) && 4 <= k.threshold && i < |k.hs| && j < |k.hs|
    requires Together(k.hs[i], f, g) && !Together(k.hs[j], f, g)
    requires Bounded(k, w.counters) && OnlyFlow(k, w, f, k.threshold - 1)
    ensures var u := Svc(k, w, FlowUpdate(g, 2));
      Bounded(k, u.counters) && u.table == map[] && Row(k.hs, u.counters, f)[i] == 2
  {
    var p := FlowUpdate(g, 2);
    var row := Row(k.hs, w.counters, g);
    assert row[j] == 0 && row[i] == k.threshold - 1;
    assert !Check(row[j], 2, k.threshold);
    var first := FirstFailure(row, 2, k.threshold);
    assert row[first] == 0;
    RowAfterDrop(k, w.counters, p, f, i);
    StepStaysBounded(k, w, p);
  }

  lemma {:induction false} HeldBackAround(k: Config, head: seq<FlowUpdate>, tail: seq<FlowUpdate>,
                                          f: FlowId, g: FlowId, i: nat, j: nat)
    requires k.rule.Literal? && Safe(k) && 4 <= k.threshold && i < |k.hs| && j < |k.hs|
    requires Together(k.hs[i], f, g) && !Together(k.hs[j], f, g)
    requires var v := Run(k, Cleaned(k, map[]), head); OnlyFlow(k, v, f, k.threshold - 1) && Bounded(k, v.counters)
    requires Octets(tail, f) <= k.threshold - 2 && forall p :: p in tail ==> p.fid == f
    ensures f !in Run(k, Cleaned(k, map[]), head + [FlowUpdate(g, 2)] + tail).table
  {
    var v := Run(k, Cleaned(k, map[]), head);
    SharedBucketLowered(k, v, f, g, i, j);
    HeldBack(k, Svc(k, v, FlowUpdate(g, 2)), tail, f, i);
    RunAround(k, Cleaned(k, map[]), head, FlowUpdate(g, 2), tail);
  }

  /** f fills its counters, g lowers the one they share, and f sends up to nearly as much again unnoticed. */
  lemma {:induction false} SharedBucketDefeats(k: Config, f: FlowId, g: FlowId, i: nat, j: nat, again: nat)
      returns (ps: seq<FlowUpdate>)
    requires k.rule.Literal? && Safe(k) && 4 <= k.threshold && i < |k.hs| && j < |k.hs|
    requires Together(k.hs[i], f, g) && !Together(k.hs[j], f, g) && again <= k.threshold - 2
    ensures Octets(ps, f) == k.threshold - 1 + again && forall p :: p in ps ==> p.fid == f || p.fid == g
    ensures f !in Run(k, Cleaned(k, map[]), ps).table
  {
    var head := Fill(k, f, k.threshold - 1);
    var tail := Fill(k, f, again);
    HeldBackAround(k, head, tail, f, g, i, j);
    ps := head + [FlowUpdate(g, 2)] + tail;
    OctetsAppend(head, FlowUpdate(g, 2), f);
    OctetsConcat(head + [FlowUpdate(g, 2)], tail, f);
  }

  /**
   * When the code meets the promise: at threshold 4 or more, exactly if all stages group the flows alike.
   * Thresholds 2 and 3 are never set (ProgramThresholds); below them the promise holds unconditionally.
   */
  lemma {:induction false} AdmitsHeavyIff(hs: seq<HashFn>, threshold: u64)
    requires 4 <= threshold <= MAX_SAFE_THRESHOLD && 0 < |hs|
    ensures AdmitsHeavy(hs, threshold) <==> StagesAgree(hs)
  {
    if StagesAgree(hs) {
      AgreeingStagesAdmitHeavy(hs, threshold);
    } else {
      var f, g :| !AgreeFor(hs, f, g);
      var i, j :| 0 <= i < |hs| && 0 <= j < |hs| && Together(hs[i], f, g) && !Together(hs[j], f, g);
      var ps := SharedBucketDefeats(Config(Literal, hs, threshold), f, g, i, j, threshold - 2);
    }
  }
}
