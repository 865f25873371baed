/** Schedules of the threads: every sequential run is reached by one, and what follows for the reports. */
module Schedules {
  import opened Base
  import opened WorkerRuns
  import opened Cleanup
  import opened System
  import opened Intervals
  import opened Interleaving

  ghost predicate AllIdle(c: Threads) {
    forall j :: 0 <= j < |c.pcs| ==> c.pcs[j].Idle?
  }

  /** acts is a schedule from the boot to c. */
  ghost predicate Reaches(x: Setting, first: u32, acts: seq<Action>, c: Threads)
    requires x.Valid()
  {
    Sized(x, c) && Leads(x, Boot(x, first), acts, c)
  }

  lemma OneMoreAction(x: Setting, first: u32, acts: seq<Action>, c: Threads, a: Action)
    requires x.Valid() && Reaches(x, first, acts, c) && Enabled(x, c, a)
    ensures Reaches(x, first, acts + [a], Do(x, c, a))
  {
    assert (acts + [a])[..|acts + [a]| - 1] == acts;
  }

  /** With all others at rest, a worker runs until it is idle and has put its packet into effect. */
  lemma {:induction false} FinishPacket(x: Setting, first: u32, acts: seq<Action>, c: Threads, i: nat)
      returns (more: seq<Action>, d: Threads)
    requires x.Valid() && Reaches(x, first, acts, c) && i < |c.pcs| && c.apc.Resting?
    requires forall j :: 0 <= j < |c.pcs| && j != i ==> c.pcs[j].Idle?
    ensures Reaches(x, first, more, d) && d.apc.Resting? && AllIdle(d)
    ensures d.trace == c.trace + Packets(InHand(c.pcs[i]))
    decreases WorkerRank(c.pcs[i])
  {
    if c.pcs[i].Idle? {
      more, d := acts, c;
      assert Packets([]) == [];
    } else {
      ReachableIsGood(x, first, acts, c);
      assert LockAgrees(x, c, i);
      OneMoreAction(x, first, acts, c, WorkerStep(i));
      WorkerTouches(x, c, i);
      WorkerGetsOn(x, c, i);
      more, d := FinishPacket(x, first, acts + [WorkerStep(i)], WorkerNext(x, c, i), i);
      assert Packets([c.pcs[i].p]) == [Packet(c.pcs[i].p)] && Packets([]) == [];
    }
  }

  lemma ServePacket(x: Setting, first: u32, acts: seq<Action>, c: Threads, p: FlowUpdate)
      returns (more: seq<Action>, d: Threads)
    requires x.Valid() && Reaches(x, first, acts, c) && c.apc.Resting? && AllIdle(c)
    ensures Reaches(x, first, more, d) && d.apc.Resting? && AllIdle(d)
    ensures d.trace == c.trace + [Packet(p)]
  {
    var a := Take(x.Home(p.fid), p);
    OneMoreAction(x, first, acts, c, a);
    more, d := FinishPacket(x, first, acts + [a], Do(x, c, a), x.Home(p.fid));
    assert Packets([p]) == [Packet(p)];
  }

  /** The analysis in progress has not taken effect yet. */
  predicate CutAhead(apc: AnalyzerPc) {
    apc.Locking? || apc.Cleaning? || apc.Renewing?
  }

  lemma CutComes(x: Setting, c: Threads, part: seq<Record>)
    requires x.Valid() && Sized(x, c) && Enabled(x, c, AnalyzerStep(part))
    ensures var d := AnalyzerNext(x, c, part);
      d.trace == c.trace + if CutAhead(c.apc) && !CutAhead(d.apc) then [Cut] else []
    ensures CutAhead(AnalyzerNext(x, c, part).apc) ==> CutAhead(c.apc)
  {
  }

  /** With all workers idle, the analyzer runs until it is at rest and the analysis has taken effect. */
  lemma {:induction false} FinishAnalysis(x: Setting, first: u32, acts: seq<Action>, c: Threads)
      returns (more: seq<Action>, d: Threads)
    requires x.Valid() && Reaches(x, first, acts, c) && AllIdle(c)
    ensures Reaches(x, first, more, d) && d.apc.Resting? && AllIdle(d)
    ensures d.trace == c.trace + if CutAhead(c.apc) then [Cut] else []
    decreases AnalyzerRank(c.apc, |c.pcs|)
  {
    if c.apc.Resting? {
      more, d := acts, c;
    } else {
      ReachableIsGood(x, first, acts, c);
      var part := SomePart(x, c);
      assert c.apc.Locking? && c.apc.i < |c.locks| ==> LockAgrees(x, c, c.apc.i);
      var a := AnalyzerStep(part);
      OneMoreAction(x, first, acts, c, a);
      AnalyzerGetsOn(x, c, part);
      CutComes(x, c, part);
      more, d := FinishAnalysis(x, first, acts + [a], AnalyzerNext(x, c, part));
    }
  }

  /** Every sequential run of the detector is the trace of some schedule of the threads, which ends at rest. */
  lemma {:induction false} EveryRunIsReached(x: Setting, first: u32, es: seq<Event>)
      returns (acts: seq<Action>, c: Threads)
    requires x.Valid()
    ensures Reaches(x, first, acts, c) && c.trace == es && c.apc.Resting? && AllIdle(c)
  {
    if es == [] {
      acts, c := [], Boot(x, first);
    } else {
      var before, e := es[..|es| - 1], es[|es| - 1];
      assert es == before + [e];
      acts, c := EveryRunIsReached(x, first, before);
      match e
      case Packet(p) =>
        acts, c := ServePacket(x, first, acts, c, p);
      case Cut =>
        OneMoreAction(x, first, acts, c, Begin);
        acts, c := FinishAnalysis(x, first, acts + [Begin], Do(x, c, Begin));
    }
  }

  // ---------- the promise of the detector ----------

  /** Report n of a schedule has the flow, if it sent more than both thresholds of interval n together. */
  ghost predicate ReportFinds(x: Setting, first: u32, c: Threads, pss: seq<seq<FlowUpdate>>, n: nat, f: FlowId)
    requires x.Valid() && n < |pss|
  {
    var s := AfterIntervals(x, Start(x, first), pss[..n]);
    s.control.t + s.threshold < Octets(pss[n], f) < TWO_TO_THE_32 ==> n < |c.reports| && Holds(c.reports[n], f)
  }

  /** Whatever the schedule, every report has every such flow. */
  ghost predicate ThreadsAlwaysFind(x: Setting, first: u32)
    requires x.Valid()
  {
    forall acts, c, pss, ps, n: nat, f ::
      Reaches(x, first, acts, c) && c.trace == Events(pss) + Packets(ps) && n < |pss| ==>
        ReportFinds(x, first, c, pss, n, f)
  }

  lemma ReportAsSequential(x: Setting, first: u32, acts: seq<Action>, c: Threads,
                           pss: seq<seq<FlowUpdate>>, ps: seq<FlowUpdate>, n: nat, f: FlowId)
    requires x.Valid() && 1 <= first && Reaches(x, first, acts, c)
    requires c.trace == Events(pss) + Packets(ps) && n < |pss|
    ensures ReportFinds(x, first, c, pss, n, f)
      <==> Finds(x, AfterIntervals(x, Start(x, first), pss[..n]), pss[n], f)
  {
    ReportsAreSequential(x, first, acts, c, pss, ps, n);
    ReportHolds(x, first, pss, n, c.reports[n], f);
  }

  /** A promise broken in the first interval is broken by some schedule. */
  lemma {:induction false} BrokenBySchedule(x: Setting, first: u32, ps: seq<FlowUpdate>, f: FlowId)
    requires x.Valid() && 1 <= first && !Finds(x, Start(x, first), ps, f)
    ensures !ThreadsAlwaysFind(x, first)
  {
    var acts, c := EveryRunIsReached(x, first, Events([ps]));
    assert Packets([]) == [];
    assert Events([ps]) + Packets([]) == Events([ps]);
    assert [ps][..0] == [];
    ReportAsSequential(x, first, acts, c, [ps], [], 0, f);
  }

  /**
   * The detector as coded and threaded reports, in every interval and under every schedule, each flow that sends more
   * than both thresholds together, exactly if the stages of every worker agree on the flows dispatched to it or the
   * first threshold is so large that the first interval promises nothing.
   */
  lemma {:induction false} ThreadsFindIff(x: Setting, first: u32)
    requires x.Valid() && 1 <= first && x.rule.Literal?
    ensures ThreadsAlwaysFind(x, first) <==> TooLargeToFind(first) || WorkersAgree(x)
  {
    DetectorFindsIff(x, first);
    if TooLargeToFind(first) || WorkersAgree(x) {
      forall acts, c, pss, ps, n: nat, f |
        Reaches(x, first, acts, c) && c.trace == Events(pss) + Packets(ps) && n < |pss|
        ensures ReportFinds(x, first, c, pss, n, f)
      {
        ReportAsSequential(x, first, acts, c, pss, ps, n, f);
      }
    } else {
      var ps, f := FirstIntervalMisses(x, first);
      BrokenBySchedule(x, first, ps, f);
    }
  }
}
