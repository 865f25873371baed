/** What one interval of the whole detector reports, against what the flows really sent. */
module Intervals {
  import opened Base
  import opened NumberTheory
  import opened FilterSpec
  import opened FlowTable
  import opened Worker
  import opened WorkerRuns
  import opened Admission
  import opened Measurement
  import opened Cleanup
  import opened Scaling
  import opened Thresholds
  import opened System
  import opened TableSize

  /** The packets of ps that worker i gets, in order. */
  function Share(x: Setting, ps: seq<FlowUpdate>, i: nat): seq<FlowUpdate>
    requires 0 < |x.hashes|
  {
    if ps == [] then []
    else
      var p := ps[|ps| - 1];
      Share(x, ps[..|ps| - 1], i) + if x.Home(p.fid) == i then [p] else []
  }

  function Packets(ps: seq<FlowUpdate>): seq<Event> {
    seq(|ps|, i requires 0 <= i < |ps| => Packet(ps[i]))
  }

  lemma PacketsAppend(x: Setting, s: State, ps: seq<FlowUpdate>)
    requires x.Valid() && Fits(x, s) && ps != []
    ensures RunAll(x, s, Packets(ps)) == Step(x, RunAll(x, s, Packets(ps[..|ps| - 1])), Packet(ps[|ps| - 1]))
  {
    assert Packets(ps) == Packets(ps[..|ps| - 1]) + [Packet(ps[|ps| - 1])];
    RunOneMore(x, s, Packets(ps[..|ps| - 1]), Packet(ps[|ps| - 1]));
  }

  /** r is s with every worker advanced by its share of ps. */
  ghost predicate Advanced(x: Setting, s: State, r: State, ps: seq<FlowUpdate>)
    requires x.Valid() && Fits(x, s) && Fits(x, r)
  {
    && r.control == s.control && r.threshold == s.threshold
    && forall i :: 0 <= i < |s.ws| ==> r.ws[i] == Run(ConfigOf(x, s, i), s.ws[i], Share(x, ps, i))
  }

  lemma ShareAppend(x: Setting, ps: seq<FlowUpdate>, p: FlowUpdate, i: nat)
    requires 0 < |x.hashes|
    ensures Share(x, ps + [p], i) == if x.Home(p.fid) == i then Share(x, ps, i) + [p] else Share(x, ps, i)
  {
    assert (ps + [p])[..|ps|] == ps;
  }

  lemma PacketReachesHome(x: Setting, s: State, r: State, ps: seq<FlowUpdate>, p: FlowUpdate)
    requires x.Valid() && Fits(x, s) && Fits(x, r) && Advanced(x, s, r, ps)
    ensures Advanced(x, s, Step(x, r, Packet(p)), ps + [p])
  {
    var d := Step(x, r, Packet(p));
    forall i | 0 <= i < |s.ws|
      ensures d.ws[i] == Run(ConfigOf(x, s, i), s.ws[i], Share(x, ps + [p], i))
    {
      ShareAppend(x, ps, p, i);
      RunAppend(ConfigOf(x, s, i), s.ws[i], Share(x, ps, i), p);
    }
  }

  /** Within an interval every worker runs on its share alone. */
  lemma {:induction false} WorkersRunApart(x: Setting, s: State, ps: seq<FlowUpdate>)
    requires x.Valid() && Fits(x, s)
    ensures Advanced(x, s, RunAll(x, s, Packets(ps)), ps)
  {
    if ps == [] {
      assert Packets(ps) == [];
    } else {
      var before, p := ps[..|ps| - 1], ps[|ps| - 1];
      WorkersRunApart(x, s, before);
      PacketsAppend(x, s, ps);
      PacketReachesHome(x, s, RunAll(x, s, Packets(before)), before, p);
      InitAndLast(ps);
    }
  }

  /** No octet of a flow is lost on the way to its worker. */
  lemma {:induction false} ShareHasAllOctets(x: Setting, ps: seq<FlowUpdate>, f: FlowId)
    requires 0 < |x.hashes|
    ensures Octets(Share(x, ps, x.Home(f)), f) == Octets(ps, f)
  {
    if ps != [] {
      var before, p := ps[..|ps| - 1], ps[|ps| - 1];
      ShareHasAllOctets(x, before, f);
      ShareAppend(x, before, p, x.Home(f));
      OctetsAppend(Share(x, before, x.Home(f)), p, f);
      InitAndLast(ps);
    }
  }

  /** The state at the start of an interval: empty filters, entries without octets, a safe threshold. */
  ghost predicate AtStart(x: Setting, s: State)
    requires x.Valid() && Fits(x, s)
  {
    && Placed(x, s) && Inv(s.control) && s.threshold <= MAX_SAFE_THRESHOLD
    && forall i :: 0 <= i < |s.ws| ==>
         s.ws[i] == Cleaned(ConfigOf(x, s, i), s.ws[i].table) && NoOctets(s.ws[i].table)
  }

  /** The first state and the state after every analysis are such states; after an analysis the threshold is 1. */
  lemma StartIsAtStart(x: Setting, first: u32)
    requires x.Valid() && 1 <= first
    ensures AtStart(x, Start(x, first))
  {
  }

  lemma CutIsAtStart(x: Setting, s: State, ps: seq<FlowUpdate>)
    requires x.Valid() && Fits(x, s) && AtStart(x, s)
    ensures var r := Step(x, RunAll(x, s, Packets(ps)), Cut);
      AtStart(x, r) && r.threshold == 1
  {
    PacketsKeepPlaces(x, s, ps);
    var v := RunAll(x, s, Packets(ps));
    WorkersRunApart(x, s, ps);
    NextKeepsInv(v.control, x.mem, ReportCount(v.ws, v.control.t));
    var r := Step(x, v, Cut);
    forall i | 0 <= i < |r.ws|
      ensures r.ws[i] == Cleaned(ConfigOf(x, r, i), r.ws[i].table) && NoOctets(r.ws[i].table)
    {
    }
  }

  lemma PacketKeepsPlaces(x: Setting, s: State, p: FlowUpdate)
    requires x.Valid() && Fits(x, s) && Placed(x, s)
    ensures Placed(x, Step(x, s, Packet(p)))
  {
  }

  lemma {:induction false} PacketsKeepPlaces(x: Setting, s: State, ps: seq<FlowUpdate>)
    requires x.Valid() && Fits(x, s) && Placed(x, s)
    ensures Placed(x, RunAll(x, s, Packets(ps)))
  {
    if ps != [] {
      PacketsKeepPlaces(x, s, ps[..|ps| - 1]);
      PacketsAppend(x, s, ps);
      PacketKeepsPlaces(x, RunAll(x, s, Packets(ps[..|ps| - 1])), ps[|ps| - 1]);
    }
  }

  /** Flow f is in the report of the analysis that ends the interval of the packets ps. */
  ghost predicate InReport(x: Setting, s: State, ps: seq<FlowUpdate>, f: FlowId)
    requires x.Valid() && Fits(x, s)
  {
    var r := RunAll(x, s, Packets(ps));
    exists i :: 0 <= i < |r.ws| && f in r.ws[i].table && Reported(r.ws[i].table[f], r.control.t)
  }

  lemma ReportIsAtHome(x: Setting, s: State, ps: seq<FlowUpdate>, f: FlowId)
    requires x.Valid() && Fits(x, s) && Placed(x, s)
    ensures var i := x.Home(f); var v := Run(ConfigOf(x, s, i), s.ws[i], Share(x, ps, i));
      InReport(x, s, ps, f) <==> f in v.table && Reported(v.table[f], s.control.t)
  {
    WorkersRunApart(x, s, ps);
    PacketsKeepPlaces(x, s, ps);
    var r := RunAll(x, s, Packets(ps));
    assert r.ws[x.Home(f)] == Run(ConfigOf(x, s, x.Home(f)), s.ws[x.Home(f)], Share(x, ps, x.Home(f)));
  }

  /** No false positives: whatever is reported did send more than the threshold, under either rule. */
  lemma {:induction false} ReportedFlowsAreHeavy(x: Setting, s: State, ps: seq<FlowUpdate>, f: FlowId)
    requires x.Valid() && Fits(x, s) && AtStart(x, s) && InReport(x, s, ps, f)
    ensures s.control.t < Octets(ps, f)
  {
    var i := x.Home(f);
    ReportIsAtHome(x, s, ps, f);
    ShareHasAllOctets(x, ps, f);
    NeverOverReported(ConfigOf(x, s, i), s.ws[i].table, Share(x, ps, i), f);
  }

  /**
   * A flow that was in its table when the interval began is reported exactly if what it sent, modulo 2^32, is more than
   * the threshold: below 2^32 octets nothing is missed, from there on the wrap hides the flow if the residue is low.
   */
  lemma {:induction false} TrackedFlowsAreExact(x: Setting, s: State, ps: seq<FlowUpdate>, f: FlowId)
    requires x.Valid() && Fits(x, s) && AtStart(x, s) && f in s.ws[x.Home(f)].table
    ensures InReport(x, s, ps, f) <==> s.control.t < Octets(ps, f) % TWO_TO_THE_32
  {
    var i := x.Home(f);
    ReportIsAtHome(x, s, ps, f);
    ShareHasAllOctets(x, ps, f);
    EntryOctets(ConfigOf(x, s, i), s.ws[i].table, Share(x, ps, i), f);
  }

  /** Documented rule: a flow that sends more than both thresholds together is reported. */
  lemma HeavyFlowsAreReported(x: Setting, s: State, ps: seq<FlowUpdate>, f: FlowId)
    requires x.Valid() && Fits(x, s) && AtStart(x, s) && x.rule.Documented?
    requires s.control.t + s.threshold < Octets(ps, f) < TWO_TO_THE_32
    ensures InReport(x, s, ps, f)
  {
    var i := x.Home(f);
    var k, w, share := ConfigOf(x, s, i), s.ws[i], Share(x, ps, i);
    ReportIsAtHome(x, s, ps, f);
    ShareHasAllOctets(x, ps, f);
    HeavyFlowsAreAdmitted(k, w.table, share, f);
    UnderReportedByAtMostThreshold(k, w.table, share, f);
  }

  /** The code with a filter threshold of at most 1. */
  lemma CodeReportsHeavyFlows(x: Setting, s: State, ps: seq<FlowUpdate>, f: FlowId)
    requires x.Valid() && Fits(x, s) && AtStart(x, s) && x.rule.Literal? && s.threshold <= 1
    requires s.control.t + 1 < Octets(ps, f) < TWO_TO_THE_32
    ensures InReport(x, s, ps, f)
  {
    var i := x.Home(f);
    var k, w, share := ConfigOf(x, s, i), s.ws[i], Share(x, ps, i);
    ReportIsAtHome(x, s, ps, f);
    ShareHasAllOctets(x, ps, f);
    TinyThresholdsAdmitHeavy(k.hs, k.threshold);
    CodeUnderReportsByAtMostThreshold(k, w.table, share, f);
  }

  // ---------- runs of many intervals ----------

  /** The state after the intervals with the packets pss, each ended by an analysis. */
  ghost function AfterIntervals(x: Setting, s: State, pss: seq<seq<FlowUpdate>>): (r: State)
    requires x.Valid() && Fits(x, s)
    ensures Fits(x, r)
  {
    if pss == [] then s
    else Step(x, RunAll(x, AfterIntervals(x, s, pss[..|pss| - 1]), Packets(pss[|pss| - 1])), Cut)
  }

  /** The events of the intervals pss. */
  function Events(pss: seq<seq<FlowUpdate>>): seq<Event> {
    if pss == [] then [] else Events(pss[..|pss| - 1]) + Packets(pss[|pss| - 1]) + [Cut]
  }

  lemma {:induction false} EventsRun(x: Setting, s: State, pss: seq<seq<FlowUpdate>>)
    requires x.Valid() && Fits(x, s)
    ensures RunAll(x, s, Events(pss)) == AfterIntervals(x, s, pss)
  {
    if pss != [] {
      var before, ps := pss[..|pss| - 1], pss[|pss| - 1];
      EventsRun(x, s, before);
      RunInParts(x, s, Events(before), Packets(ps));
      RunOneMore(x, s, Events(before) + Packets(ps), Cut);
    }
  }

  /** Every sequence of events is some whole intervals and the packets of one more. */
  lemma {:induction false} SplitIntervals(es: seq<Event>) returns (pss: seq<seq<FlowUpdate>>, ps: seq<FlowUpdate>)
    ensures es == Events(pss) + Packets(ps)
  {
    pss, ps := [], [];
    if es != [] {
      var before, e := es[..|es| - 1], es[|es| - 1];
      assert es == before + [e];
      pss, ps := SplitIntervals(before);
      match e
      case Packet(p) =>
        assert Packets(ps + [p]) == Packets(ps) + [Packet(p)];
        ps := ps + [p];
      case Cut =>
        assert (pss + [ps])[..|pss|] == pss;
        pss, ps := pss + [ps], [];
        assert Packets(ps) == [];
    }
  }

  /** The states in which the analyses of a run find the detector. */
  ghost function BeforeCuts(x: Setting, s: State, es: seq<Event>): (r: seq<State>)
    requires x.Valid() && Fits(x, s)
    ensures forall k :: 0 <= k < |r| ==> Fits(x, r[k])
  {
    if es == [] then []
    else
      var before := es[..|es| - 1];
      if es[|es| - 1].Cut? then BeforeCuts(x, s, before) + [RunAll(x, s, before)] else BeforeCuts(x, s, before)
  }

  /** Report n is that of an analysis in state n. */
  ghost predicate ListReports(x: Setting, states: seq<State>, reports: seq<seq<Record>>)
    requires x.Valid() && forall n :: 0 <= n < |states| ==> Fits(x, states[n])
  {
    |reports| == |states| && forall n :: 0 <= n < |states| ==> ListsReport(x, states[n], reports[n])
  }

  lemma BeforeCutsAppend(x: Setting, s: State, es: seq<Event>, e: Event)
    requires x.Valid() && Fits(x, s)
    ensures BeforeCuts(x, s, es + [e]) == BeforeCuts(x, s, es) + if e.Cut? then [RunAll(x, s, es)] else []
  {
    assert (es + [e])[..|es + [e]| - 1] == es;
  }

  lemma {:induction false} PacketsDoNotCut(x: Setting, s: State, es: seq<Event>, ps: seq<FlowUpdate>)
    requires x.Valid() && Fits(x, s)
    ensures BeforeCuts(x, s, es + Packets(ps)) == BeforeCuts(x, s, es)
  {
    if ps == [] {
      assert es + Packets(ps) == es;
    } else {
      var before, e := ps[..|ps| - 1], Packet(ps[|ps| - 1]);
      PacketsDoNotCut(x, s, es, before);
      assert es + Packets(ps) == (es + Packets(before)) + [e];
      BeforeCutsAppend(x, s, es + Packets(before), e);
    }
  }

  /** The state in which analysis n finds the detector: that after the packets of interval n. */
  ghost function AtCut(x: Setting, s: State, pss: seq<seq<FlowUpdate>>, n: nat): (r: State)
    requires x.Valid() && Fits(x, s) && n < |pss|
    ensures Fits(x, r)
  {
    RunAll(x, AfterIntervals(x, s, pss[..n]), Packets(pss[n]))
  }

  lemma OneMoreInterval(x: Setting, s: State, pss: seq<seq<FlowUpdate>>)
    requires x.Valid() && Fits(x, s) && pss != []
    ensures BeforeCuts(x, s, Events(pss))
      == BeforeCuts(x, s, Events(pss[..|pss| - 1])) + [AtCut(x, s, pss, |pss| - 1)]
  {
    var before, ps := pss[..|pss| - 1], pss[|pss| - 1];
    var es := Events(before);
    PacketsDoNotCut(x, s, es, ps);
    BeforeCutsAppend(x, s, es + Packets(ps), Cut);
    RunInParts(x, s, es, Packets(ps));
    EventsRun(x, s, before);
  }

  lemma AtCutOfPrefix(x: Setting, s: State, pss: seq<seq<FlowUpdate>>, m: nat, n: nat)
    requires x.Valid() && Fits(x, s) && n < m <= |pss|
    ensures AtCut(x, s, pss[..m], n) == AtCut(x, s, pss, n)
  {
    assert pss[..m][..n] == pss[..n];
  }

  /** These states are what the analyses of the intervals pss meet. */
  ghost predicate AreCutStates(x: Setting, s: State, pss: seq<seq<FlowUpdate>>, states: seq<State>)
    requires x.Valid() && Fits(x, s)
  {
    |states| == |pss| && forall n :: 0 <= n < |pss| ==> states[n] == AtCut(x, s, pss, n)
  }

  lemma CutStateAt(x: Setting, s: State, pss: seq<seq<FlowUpdate>>, states: seq<State>, last: State, n: nat)
    requires x.Valid() && Fits(x, s) && n < |pss| && AreCutStates(x, s, pss[..|pss| - 1], states)
    requires last == AtCut(x, s, pss, |pss| - 1)
    ensures (states + [last])[n] == AtCut(x, s, pss, n)
  {
    if n < |pss| - 1 {
      AtCutOfPrefix(x, s, pss, |pss| - 1, n);
    }
  }

  lemma CutStatesAppend(x: Setting, s: State, pss: seq<seq<FlowUpdate>>, states: seq<State>, last: State)
    requires x.Valid() && Fits(x, s) && pss != [] && AreCutStates(x, s, pss[..|pss| - 1], states)
    requires last == AtCut(x, s, pss, |pss| - 1)
    ensures AreCutStates(x, s, pss, states + [last])
  {
    forall n | 0 <= n < |pss| ensures (states + [last])[n] == AtCut(x, s, pss, n) {
      CutStateAt(x, s, pss, states, last, n);
    }
  }

  lemma {:induction false} CutsEndIntervals(x: Setting, s: State, pss: seq<seq<FlowUpdate>>)
    requires x.Valid() && Fits(x, s)
    ensures AreCutStates(x, s, pss, BeforeCuts(x, s, Events(pss)))
  {
    if pss != [] {
      var before := pss[..|pss| - 1];
      CutsEndIntervals(x, s, before);
      OneMoreInterval(x, s, pss);
      CutStatesAppend(x, s, pss, BeforeCuts(x, s, Events(before)), AtCut(x, s, pss, |pss| - 1));
    }
  }

  lemma {:induction false} EveryIntervalStartsClean(x: Setting, first: u32, pss: seq<seq<FlowUpdate>>)
    requires x.Valid() && 1 <= first
    ensures var s := AfterIntervals(x, Start(x, first), pss);
      AtStart(x, s) && s.threshold == if pss == [] then InitialThreshold(first) else 1
  {
    if pss == [] {
      StartIsAtStart(x, first);
    } else {
      var before := pss[..|pss| - 1];
      EveryIntervalStartsClean(x, first, before);
      CutIsAtStart(x, AfterIntervals(x, Start(x, first), before), pss[|pss| - 1]);
    }
  }

  /**
   * The detector as coded, in every interval of every run but the first, whatever its hash functions: each flow with
   * more than t + 1 octets is reported, and no flow with t octets or fewer. The first interval: DetectorFindsIff.
   */
  lemma {:induction false} CodeFindsHeavyFlows(x: Setting, first: u32, pss: seq<seq<FlowUpdate>>,
                                               ps: seq<FlowUpdate>, f: FlowId)
    requires x.Valid() && 1 <= first && x.rule.Literal? && pss != []
    requires Octets(ps, f) < TWO_TO_THE_32
    ensures var s := AfterIntervals(x, Start(x, first), pss);
      && (s.control.t + 1 < Octets(ps, f) ==> InReport(x, s, ps, f))
      && (InReport(x, s, ps, f) ==> s.control.t < Octets(ps, f))
  {
    EveryIntervalStartsClean(x, first, pss);
    var s := AfterIntervals(x, Start(x, first), pss);
    if InReport(x, s, ps, f) {
      ReportedFlowsAreHeavy(x, s, ps, f);
    }
    if s.control.t + 1 < Octets(ps, f) {
      CodeReportsHeavyFlows(x, s, ps, f);
    }
  }

  // ---------- all intervals, the first included ----------

  ghost function Own(x: Setting, i: nat): FlowId -> bool {
    f => 0 < |x.hashes| && x.Home(f) == i
  }

  /** The stages of every worker agree on the flows dispatched to it. */
  ghost predicate WorkersAgree(x: Setting) {
    forall i :: 0 <= i < |x.hashes| ==> StagesAgreeOn(x.hashes[i], Own(x, i))
  }

  lemma {:induction false} ShareIsOwn(x: Setting, ps: seq<FlowUpdate>, i: nat)
    requires 0 < |x.hashes|
    ensures PacketsOf(Share(x, ps, i), Own(x, i))
  {
    if ps != [] {
      ShareIsOwn(x, ps[..|ps| - 1], i);
    }
  }

  lemma {:induction false} OwnShareIsAll(x: Setting, ps: seq<FlowUpdate>, i: nat)
    requires 0 < |x.hashes| && PacketsOf(ps, Own(x, i))
    ensures Share(x, ps, i) == ps
  {
    if ps != [] {
      assert ps[|ps| - 1] in ps;
      OwnShareIsAll(x, ps[..|ps| - 1], i);
      InitAndLast(ps);
    }
  }

  /** The promise of an interval: a flow that sends more than both thresholds together is reported. */
  ghost predicate Finds(x: Setting, s: State, ps: seq<FlowUpdate>, f: FlowId)
    requires x.Valid() && Fits(x, s)
  {
    s.control.t + s.threshold < Octets(ps, f) < TWO_TO_THE_32 ==> InReport(x, s, ps, f)
  }

  /** The code, at any filter threshold, with stages that agree on the flows of the worker. */
  lemma {:induction false} AgreeingStagesReport(x: Setting, s: State, ps: seq<FlowUpdate>, f: FlowId)
    requires x.Valid() && Fits(x, s) && AtStart(x, s) && x.rule.Literal?
    requires StagesAgreeOn(x.hashes[x.Home(f)], Own(x, x.Home(f)))
    ensures Finds(x, s, ps, f)
  {
    if s.control.t + s.threshold < Octets(ps, f) < TWO_TO_THE_32 {
      var i := x.Home(f);
      var k, w, share := ConfigOf(x, s, i), s.ws[i], Share(x, ps, i);
      ReportIsAtHome(x, s, ps, f);
      ShareHasAllOctets(x, ps, f);
      ShareIsOwn(x, ps, i);
      AgreementNeverLowers(k, w.table, share, Own(x, i));
      NeverLowersSuffices(k, w.table, share, f);
      CodeUnderReportsByAtMostThreshold(k, w.table, share, f);
    }
  }

  /** No number of octets above both thresholds of the first interval fits 32 bits. */
  ghost predicate TooLargeToFind(first: u32) {
    first + InitialThreshold(first) + 1 >= TWO_TO_THE_32
  }

  /** Two flows of worker w that share a bucket in one stage and not in another: one of them is not reported. */
  lemma {:induction false} DisagreementHides(x: Setting, first: u32, w: nat, f: FlowId, g: FlowId, i: nat, j: nat)
      returns (ps: seq<FlowUpdate>)
    requires x.Valid() && 1 <= first && x.rule.Literal? && !TooLargeToFind(first)
    requires w < |x.hashes| && x.Home(f) == w && x.Home(g) == w && i < |x.hashes[w]| && j < |x.hashes[w]|
    requires Together(x.hashes[w][i], f, g) && !Together(x.hashes[w][j], f, g)
    ensures !Finds(x, Start(x, first), ps, f)
  {
    var s := Start(x, first);
    var k := ConfigOf(x, s, w);
    ps := SharedBucketDefeats(k, f, g, i, j, first + 2);
    OwnShareIsAll(x, ps, w);
    ReportIsAtHome(x, s, ps, f);
    assert s.ws[w] == Cleaned(k, map[]);
  }

  lemma {:induction false} FirstIntervalMisses(x: Setting, first: u32) returns (ps: seq<FlowUpdate>, f: FlowId)
    requires x.Valid() && 1 <= first && x.rule.Literal? && !TooLargeToFind(first) && !WorkersAgree(x)
    ensures !Finds(x, Start(x, first), ps, f)
  {
    var w :| 0 <= w < |x.hashes| && !StagesAgreeOn(x.hashes[w], Own(x, w));
    var hs := x.hashes[w];
    var f', g :| Own(x, w)(f') && Own(x, w)(g) && !AgreeFor(hs, f', g);
    var i, j :| 0 <= i < |hs| && 0 <= j < |hs| && Together(hs[i], f', g) && !Together(hs[j], f', g);
    f := f';
    ps := DisagreementHides(x, first, w, f, g, i, j);
  }

  /** The promise over whole runs: it is kept in every interval. */
  ghost predicate AlwaysFinds(x: Setting, first: u32)
    requires x.Valid()
  {
    forall pss, ps, f :: Finds(x, AfterIntervals(x, Start(x, first), pss), ps, f)
  }

  lemma FindsEverywhere(x: Setting, first: u32, pss: seq<seq<FlowUpdate>>, ps: seq<FlowUpdate>, f: FlowId)
    requires x.Valid() && 1 <= first && x.rule.Literal? && (pss != [] || TooLargeToFind(first) || WorkersAgree(x))
    ensures Finds(x, AfterIntervals(x, Start(x, first), pss), ps, f)
  {
    var s := AfterIntervals(x, Start(x, first), pss);
    EveryIntervalStartsClean(x, first, pss);
    if WorkersAgree(x) {
      AgreeingStagesReport(x, s, ps, f);
    } else if pss != [] && s.control.t + 1 < Octets(ps, f) < TWO_TO_THE_32 {
      CodeReportsHeavyFlows(x, s, ps, f);
    }
  }

  /**
   * The detector as coded keeps the promise in every interval of every run exactly if the stages of every worker agree
   * on the flows dispatched to it, or the first threshold is so large that the first interval promises nothing.
   */
  lemma {:induction false} DetectorFindsIff(x: Setting, first: u32)
    requires x.Valid() && 1 <= first && x.rule.Literal?
    ensures AlwaysFinds(x, first) <==> TooLargeToFind(first) || WorkersAgree(x)
  {
    if TooLargeToFind(first) || WorkersAgree(x) {
      forall pss, ps, f ensures Finds(x, AfterIntervals(x, Start(x, first), pss), ps, f) {
        FindsEverywhere(x, first, pss, ps, f);
      }
    } else {
      var ps, f := FirstIntervalMisses(x, first);
      assert AfterIntervals(x, Start(x, first), []) == Start(x, first);
    }
  }

  /** No counter of any worker exceeds the common threshold in any state of any run of the detector. */
  lemma {:induction false} CountersAlwaysBounded(x: Setting, first: u32, pss: seq<seq<FlowUpdate>>,
                                                 ps: seq<FlowUpdate>, i: nat)
    requires x.Valid() && 1 <= first && i < |x.hashes|
    ensures var s := AfterIntervals(x, Start(x, first), pss);
      Bounded(ConfigOf(x, s, i), RunAll(x, s, Packets(ps)).ws[i].counters)
  {
    EveryIntervalStartsClean(x, first, pss);
    var s := AfterIntervals(x, Start(x, first), pss);
    WorkersRunApart(x, s, ps);
    CountersStayBounded(ConfigOf(x, s, i), s.ws[i], Share(x, ps, i));
  }

  // ---------- the size of a report ----------

  function Total(ps: seq<FlowUpdate>): nat {
    if ps == [] then 0 else Total(ps[..|ps| - 1]) + ps[|ps| - 1].dOctets
  }

  /** ps without the packets of f. */
  function Without(ps: seq<FlowUpdate>, f: FlowId): seq<FlowUpdate> {
    if ps == [] then []
    else
      var p := ps[|ps| - 1];
      Without(ps[..|ps| - 1], f) + if p.fid == f then [] else [p]
  }

  lemma TotalAppend(ps: seq<FlowUpdate>, p: FlowUpdate)
    ensures Total(ps + [p]) == Total(ps) + p.dOctets
  {
    assert (ps + [p])[..|ps|] == ps;
  }

  lemma {:induction false} WithoutTakesOctets(ps: seq<FlowUpdate>, f: FlowId, g: FlowId)
    ensures Total(Without(ps, f)) + Octets(ps, f) == Total(ps)
    ensures g != f ==> Octets(Without(ps, f), g) == Octets(ps, g)
  {
    if ps != [] {
      var before, p := ps[..|ps| - 1], ps[|ps| - 1];
      WithoutTakesOctets(before, f, g);
      if p.fid == f {
        assert Without(ps, f) == Without(before, f);
      } else {
        TotalAppend(Without(before, f), p);
        OctetsAppend(Without(before, f), p, g);
      }
    }
  }

  /** Flows with at least t octets each need t octets apiece. */
  lemma {:induction false} FlowsShareTotal(fs: set<FlowId>, ps: seq<FlowUpdate>, t: nat)
    requires forall f :: f in fs ==> t <= Octets(ps, f)
    ensures |fs| * t <= Total(ps)
    decreases |fs|
  {
    if fs != {} {
      var f :| f in fs;
      forall g | g in fs - {f} ensures t <= Octets(Without(ps, f), g) {
        WithoutTakesOctets(ps, f, g);
      }
      FlowsShareTotal(fs - {f}, Without(ps, f), t);
      WithoutTakesOctets(ps, f, f);
      assert |fs| == |fs - {f}| + 1;
      assert (|fs - {f}| + 1) * t == |fs - {f}| * t + t;
    }
  }

  /** Octets of the packets sent to the workers below n. */
  function TotalBelow(x: Setting, ps: seq<FlowUpdate>, n: nat): nat
    requires 0 < |x.hashes|
  {
    if n == 0 then 0 else TotalBelow(x, ps, n - 1) + Total(Share(x, ps, n - 1))
  }

  lemma {:induction false} TotalBelowStep(x: Setting, ps: seq<FlowUpdate>, p: FlowUpdate, n: nat)
    requires 0 < |x.hashes|
    ensures TotalBelow(x, ps + [p], n) == TotalBelow(x, ps, n) + if x.Home(p.fid) < n then p.dOctets else 0
  {
    if n > 0 {
      TotalBelowStep(x, ps, p, n - 1);
      assert (ps + [p])[..|ps|] == ps;
      var share := Share(x, ps, n - 1);
      if x.Home(p.fid) == n - 1 {
        TotalAppend(share, p);
      } else {
        assert Share(x, ps + [p], n - 1) == share;
      }
    }
  }

  lemma {:induction false} SharesAddUp(x: Setting, ps: seq<FlowUpdate>)
    requires 0 < |x.hashes|
    ensures TotalBelow(x, ps, |x.hashes|) == Total(ps)
  {
    if ps == [] {
      NothingBelow(x, |x.hashes|);
    } else {
      var before, p := ps[..|ps| - 1], ps[|ps| - 1];
      SharesAddUp(x, before);
      TotalBelowStep(x, before, p, |x.hashes|);
      InitAndLast(ps);
    }
  }

  lemma {:induction false} NothingBelow(x: Setting, n: nat)
    requires 0 < |x.hashes|
    ensures TotalBelow(x, [], n) == 0
  {
    if n > 0 {
      NothingBelow(x, n - 1);
    }
  }

  /** total pays t + 1 octets for each of n flows. */
  ghost predicate PaidFor(n: nat, t: nat, total: nat) {
    n * (t + 1) <= total
  }

  /** One worker: every flow it reports is paid for by t + 1 octets of its packets. */
  lemma WorkerCount(k: Config, table: Table, ps: seq<FlowUpdate>, t: nat)
    requires NoOctets(table)
    ensures PaidFor(|ReportedFlows(Run(k, Cleaned(k, table), ps).table, t)|, t, Total(ps))
  {
    var fs := ReportedFlows(Run(k, Cleaned(k, table), ps).table, t);
    forall f | f in fs ensures t + 1 <= Octets(ps, f) {
      NeverOverReported(k, table, ps, f);
    }
    FlowsShareTotal(fs, ps, t + 1);
  }

  lemma {:induction false} CountBelow(x: Setting, ps: seq<FlowUpdate>, ws: seq<WorkerState>, t: nat)
    requires 0 < |x.hashes|
    requires forall i :: 0 <= i < |ws| ==> PaidFor(|ReportedFlows(ws[i].table, t)|, t, Total(Share(x, ps, i)))
    ensures PaidFor(ReportCount(ws, t), t, TotalBelow(x, ps, |ws|))
  {
    if ws != [] {
      var n := |ws| - 1;
      CountBelow(x, ps, ws[..n], t);
      Distribute(ReportCount(ws[..n], t), |ReportedFlows(ws[n].table, t)|, t + 1);
    }
  }

  lemma Distribute(a: nat, b: nat, c: nat)
    ensures (a + b) * c == a * c + b * c
  {
  }

  lemma SystemCount(x: Setting, s: State, ps: seq<FlowUpdate>, i: nat)
    requires x.Valid() && Fits(x, s) && AtStart(x, s) && i < |s.ws|
    ensures var ws, t := RunAll(x, s, Packets(ps)).ws, s.control.t;
      PaidFor(|ReportedFlows(ws[i].table, t)|, t, Total(Share(x, ps, i)))
  {
    WorkersRunApart(x, s, ps);
    WorkerCount(ConfigOf(x, s, i), s.ws[i].table, Share(x, ps, i), s.control.t);
  }

  /** Every reported flow is paid for by t + 1 octets of the interval. */
  lemma {:induction false} ReportSizeIsBounded(x: Setting, s: State, ps: seq<FlowUpdate>)
    requires x.Valid() && Fits(x, s) && AtStart(x, s)
    ensures PaidFor(ReportCount(RunAll(x, s, Packets(ps)).ws, s.control.t), s.control.t, Total(ps))
  {
    var ws, t := RunAll(x, s, Packets(ps)).ws, s.control.t;
    forall i | 0 <= i < |ws| ensures PaidFor(|ReportedFlows(ws[i].table, t)|, t, Total(Share(x, ps, i))) {
      SystemCount(x, s, ps, i);
    }
    CountBelow(x, ps, ws, t);
    SharesAddUp(x, ps);
  }

  /** The first threshold: the percentage num/den of the octets the link can carry in an interval. */
  function FirstThreshold(capacity: nat, num: nat, den: nat): nat
    requires 0 < den
  {
    Quotient(Product(capacity, num), den)
  }

  /** It is the largest t that is at most that percentage of the capacity. */
  lemma FirstThresholdIs(capacity: nat, num: nat, den: nat, t: nat)
    requires 0 < den
    ensures t <= FirstThreshold(capacity, num, den) <==> t * den <= capacity * num
  {
    ProductIs(capacity, num);
    AtMostQuotient(t, capacity * num, den);
  }

  /** n is below the inverse den/num of the percentage. */
  ghost predicate BelowInverse(n: nat, num: nat, den: nat) {
    n * num < den
  }

  lemma FewerThanInverse(n: nat, capacity: nat, num: nat, den: nat, total: nat)
    requires 0 < den && 0 < capacity && PaidFor(n, FirstThreshold(capacity, num, den), total) && total <= capacity
    ensures BelowInverse(n, num, den)
  {
    ProductIs(capacity, num);
    QuotientIs(capacity * num, den);
    if n > 0 {
      CapacityBound(n, FirstThreshold(capacity, num, den), capacity, num, den);
    }
  }

  /**
   * At the first threshold fewer flows are reported than the inverse of the percentage, and so, with a table size as
   * main asserts it, fewer than the table has buckets.
   */
  lemma {:induction false} FirstReportsFitTheTable(x: Setting, s: State, ps: seq<FlowUpdate>,
                                                   capacity: nat, num: nat, den: nat)
    requires x.Valid() && Fits(x, s) && AtStart(x, s) && 0 < den && 0 < capacity && AboveInverse(x.mem, num, den)
    requires s.control.t == FirstThreshold(capacity, num, den) && Total(ps) <= capacity
    ensures var n := ReportCount(RunAll(x, s, Packets(ps)).ws, s.control.t);
      BelowInverse(n, num, den) && n < x.mem
  {
    var n := ReportCount(RunAll(x, s, Packets(ps)).ws, s.control.t);
    ReportSizeIsBounded(x, s, ps);
    FewerThanInverse(n, capacity, num, den, Total(ps));
    BelowSize(n, x.mem, num, den);
  }

  lemma BelowSize(n: nat, size: nat, num: nat, den: nat)
    requires BelowInverse(n, num, den) && AboveInverse(size, num, den)
    ensures n < size
  {
    if size <= n {
      MulMonotone(size, n, num);
    }
  }

  lemma CapacityBound(n: nat, t: nat, capacity: nat, num: nat, den: nat)
    requires 0 < n && 0 < capacity && 0 < den
    requires n * (t + 1) <= capacity && capacity * num < (t + 1) * den
    ensures n * num < den
  {
    var u := t + 1;
    // n * capacity * num < n * u * den <= capacity * den
    assert n * (capacity * num) < n * (u * den) by {
      assert n * (u * den) == n * (capacity * num) + n * (u * den - capacity * num);
      MulGe(n, u * den - capacity * num);
    }
    MulMonotone(n * u, capacity, den);
    assert n * (u * den) == (n * u) * den;
    assert n * (capacity * num) == (n * num) * capacity;
    if n * num >= den {
      MulMonotone(den, n * num, capacity);
    }
  }
}
