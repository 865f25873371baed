/** The life of a table entry over whole runs: how long it has been there and when it was reported. */
module LifeCycle {
  import opened Base
  import opened NumberTheory
  import opened Cleanup
  import opened System

  /** What an analysis did: the flows it reported and the flows it left in the tables. */
  datatype Analysis = Analysis(reported: set<FlowId>, survivors: set<FlowId>)

  ghost function AnalysisOf(s: State): Analysis {
    var t, r := s.control.t, s.control.oldR;
    Analysis(set i, f | 0 <= i < |s.ws| && f in s.ws[i].table && Reported(s.ws[i].table[f], t) :: f,
             set i, f | 0 <= i < |s.ws| && f in s.ws[i].table && Survives(s.ws[i].table[f], t, r) :: f)
  }

  /** All analyses of a run, in order. */
  ghost function Log(x: Setting, s: State, es: seq<Event>): seq<Analysis>
    requires x.Valid() && Fits(x, s)
  {
    if es == [] then []
    else
      var before := es[..|es| - 1];
      if es[|es| - 1].Cut? then Log(x, s, before) + [AnalysisOf(RunAll(x, s, before))] else Log(x, s, before)
  }

  /** Number of analyses, counted back from the last, that f has survived. */
  ghost function Age(log: seq<Analysis>, f: FlowId): (n: nat)
    ensures n <= |log|
  {
    if log == [] || f !in log[|log| - 1].survivors then 0 else Age(log[..|log| - 1], f) + 1
  }

  /** Entries count the analyses they have survived, and who survived the last one is still there. */
  ghost predicate Aligned(x: Setting, s: State, log: seq<Analysis>)
    requires x.Valid() && Fits(x, s)
  {
    && Placed(x, s)
    && (forall i, f :: 0 <= i < |s.ws| && f in s.ws[i].table ==>
         s.ws[i].table[f].cycles == Age(log, f) % TWO_TO_THE_32)
    && (log != [] ==> forall f :: f in log[|log| - 1].survivors ==> f in s.ws[x.Home(f)].table)
  }

  lemma PacketKeepsAligned(x: Setting, s: State, log: seq<Analysis>, p: FlowUpdate)
    requires x.Valid() && Fits(x, s) && Aligned(x, s, log)
    ensures Aligned(x, Step(x, s, Packet(p)), log)
  {
    var r := Step(x, s, Packet(p));
    forall i, f | 0 <= i < |r.ws| && f in r.ws[i].table
      ensures r.ws[i].table[f].cycles == Age(log, f) % TWO_TO_THE_32
    {
      if f !in s.ws[i].table {
        assert f == p.fid && i == x.Home(f) && Age(log, f) == 0;
      }
    }
  }

  lemma CutKeepsAligned(x: Setting, s: State, log: seq<Analysis>)
    requires x.Valid() && Fits(x, s) && Aligned(x, s, log)
    ensures Aligned(x, Step(x, s, Cut), log + [AnalysisOf(s)])
  {
    var r, log' := Step(x, s, Cut), log + [AnalysisOf(s)];
    assert log'[..|log|] == log;
    forall i, f | 0 <= i < |r.ws| && f in r.ws[i].table
      ensures r.ws[i].table[f].cycles == Age(log', f) % TWO_TO_THE_32
    {
      ModAdd(Age(log, f), 1, TWO_TO_THE_32);
      assert f in AnalysisOf(s).survivors;
    }
    forall f | f in AnalysisOf(s).survivors ensures f in r.ws[x.Home(f)].table {
      var i :| 0 <= i < |s.ws| && f in s.ws[i].table && Survives(s.ws[i].table[f], s.control.t, s.control.oldR);
      assert i == x.Home(f);
    }
  }

  lemma StepKeepsAligned(x: Setting, s: State, log: seq<Analysis>, e: Event)
    requires x.Valid() && Fits(x, s) && Aligned(x, s, log)
    ensures Aligned(x, Step(x, s, e), if e.Cut? then log + [AnalysisOf(s)] else log)
  {
    match e
    case Packet(p) => PacketKeepsAligned(x, s, log, p);
    case Cut => CutKeepsAligned(x, s, log);
  }

  lemma {:induction false} StaysAligned(x: Setting, s: State, es: seq<Event>)
    requires x.Valid() && Fits(x, s) && Aligned(x, s, [])
    ensures Aligned(x, RunAll(x, s, es), Log(x, s, es))
  {
    if es != [] {
      var before := es[..|es| - 1];
      StaysAligned(x, s, before);
      StepKeepsAligned(x, RunAll(x, s, before), Log(x, s, before), es[|es| - 1]);
    }
  }

  lemma StartIsAligned(x: Setting, first: u32)
    requires x.Valid()
    ensures Aligned(x, Start(x, first), [])
  {
  }

  /** In every state of every run an entry's cycles are the analyses it has survived since it was inserted. */
  lemma {:induction false} CyclesCountAnalyses(x: Setting, first: u32, es: seq<Event>)
    requires x.Valid()
    ensures Aligned(x, RunAll(x, Start(x, first), es), Log(x, Start(x, first), es))
  {
    StartIsAligned(x, first);
    StaysAligned(x, Start(x, first), es);
  }

  /** Every analysis f has survived, but the first since its insertion, has reported it. */
  ghost predicate ReportedSince(log: seq<Analysis>, f: FlowId) {
    forall j :: |log| - Age(log, f) < j < |log| ==> f in log[j].reported
  }

  lemma SecondSurvivalReports(x: Setting, s: State, log: seq<Analysis>, f: FlowId)
    requires x.Valid() && Fits(x, s) && Aligned(x, s, log)
    requires 0 < Age(log, f) < TWO_TO_THE_32 && f in AnalysisOf(s).survivors
    ensures f in AnalysisOf(s).reported
  {
    var i :| 0 <= i < |s.ws| && f in s.ws[i].table && Survives(s.ws[i].table[f], s.control.t, s.control.oldR);
    assert s.ws[i].table[f].cycles == Age(log, f) % TWO_TO_THE_32 == Age(log, f);
  }

  lemma ReportedStep(log: seq<Analysis>, a: Analysis, f: FlowId)
    requires ReportedSince(log, f) && (0 < Age(log, f) && f in a.survivors ==> f in a.reported)
    ensures ReportedSince(log + [a], f)
  {
    var log' := log + [a];
    assert log'[..|log|] == log;
    forall j | |log'| - Age(log', f) < j < |log'| ensures f in log'[j].reported {
      if j < |log| {
        assert f in log[j].reported;
      }
    }
  }

  /** Only the first survival can come from the early-removal band (until the 32-bit cycles wrap). */
  lemma {:induction false} OnlyFirstSurvivalIsEarly(x: Setting, first: u32, es: seq<Event>, f: FlowId)
    requires x.Valid() && |Log(x, Start(x, first), es)| <= TWO_TO_THE_32
    ensures ReportedSince(Log(x, Start(x, first), es), f)
  {
    if es != [] {
      var before, s := es[..|es| - 1], Start(x, first);
      var log, v := Log(x, s, before), RunAll(x, s, before);
      OnlyFirstSurvivalIsEarly(x, first, before, f);
      if es[|es| - 1].Cut? {
        CyclesCountAnalyses(x, first, before);
        if 0 < Age(log, f) && f in AnalysisOf(v).survivors {
          SecondSurvivalReports(x, v, log, f);
        }
        ReportedStep(log, AnalysisOf(v), f);
      }
    }
  }
}
