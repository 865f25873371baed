/** The objects put together as main does: they go through the runs that the rest of the model is about. */
module Detector {
  import opened Base
  import opened UniversalHash
  import opened FilterSpec
  import opened Worker
  import opened Dispatch
  import opened Cleanup
  import opened Thresholds
  import opened Analyzer
  import opened System
  import opened Intervals

  /** Hash functions a worker can be made of. */
  ghost predicate Suitable(hs: seq<UniversalHashFunction>) {
    0 < |hs| && forall i :: 0 <= i < |hs| ==> hs[i].Valid() && hs[i].keySize == KEY_LEN
  }

  /** The values of these functions. */
  ghost function FnsOf(hs: seq<UniversalHashFunction>): seq<HashFn>
    requires Suitable(hs)
  {
    seq(|hs|, i requires 0 <= i < |hs| => Coefficients(hs[i].m, hs[i].a))
  }

  ghost function DispatchOf(combine: (u64, nat) -> u64): FlowId -> nat {
    f => SeedOf(combine, f)
  }

  /** The setting of a detector as coded. */
  ghost function SettingOf(tableSize: nat, hss: seq<seq<UniversalHashFunction>>, combine: (u64, nat) -> u64): Setting
    requires forall i :: 0 <= i < |hss| ==> Suitable(hss[i])
  {
    Setting(Literal, seq(|hss|, i requires 0 <= i < |hss| => FnsOf(hss[i])), DispatchOf(combine), tableSize)
  }

  class Detector {
    const workers: seq<Worker>
    const analyzer: Analyzer
    const emitter: Emitter
    ghost var reprs: seq<set<object>>

    /** The setting these objects run in. */
    ghost function Setting(): (x: Setting)
      requires forall i :: 0 <= i < |workers| ==> workers[i].mfilter.Valid()
      ensures |x.hashes| == |workers| && x.rule.Literal? && x.mem == analyzer.flowMemSize
    {
      System.Setting(Literal, seq(|workers|, i requires 0 <= i < |workers| => workers[i].Hashes()),
                     DispatchOf(emitter.combine), analyzer.flowMemSize)
    }

    /** The objects fit together, and no two workers share any. */
    ghost predicate Valid()
      reads this, workers, analyzer
    {
      && 0 < |workers| && (forall i :: 0 <= i < |workers| ==> workers[i].mfilter.Valid())
      && (forall i :: 0 <= i < |workers| ==> 0 < |workers[i].Hashes()|)
      && analyzer.workers == workers && analyzer.Valid() && analyzer.Own(reprs)
      && emitter.numWorkers == |workers|
      && (forall i :: 0 <= i < |workers| ==> this !in reprs[i] && emitter.lb !in reprs[i])
    }

    /** The objects are in state s. */
    ghost predicate Is(s: State)
      reads this, workers, analyzer, set w, o | w in workers && o in w.Repr :: o
    {
      && Valid() && |s.ws| == |workers|
      && analyzer.At(0, |workers|, s.ws, false, s.threshold) && analyzer.Control() == s.control
    }

    /** One worker for each list of stage hash functions, with an empty table and empty filters. */
    static method MakeWorkers(tableSize: nat, hss: seq<seq<UniversalHashFunction>>, first: u32)
        returns (ws: seq<Worker>, ghost reprs: seq<set<object>>)
      requires forall i :: 0 <= i < |hss| ==> Suitable(hss[i])
      ensures |ws| == |reprs| == |hss| && forall i :: 0 <= i < |ws| ==> Made(ws[i], reprs[i], tableSize, hss[i], first)
      ensures forall i :: 0 <= i < |ws| ==> fresh(reprs[i])
      ensures forall i, j :: 0 <= i < j < |reprs| ==> reprs[i] !! reprs[j]
    {
      ws, reprs := [], [];
      for i := 0 to |hss|
        invariant |ws| == |reprs| == i && forall k :: 0 <= k < i ==> Made(ws[k], reprs[k], tableSize, hss[k], first)
        invariant forall k :: 0 <= k < i ==> fresh(reprs[k])
        invariant forall k, l :: 0 <= k < l < i ==> reprs[k] !! reprs[l]
      {
        var w := new Worker(tableSize, hss[i], first);
        ws, reprs := ws + [w], reprs + [w.Repr];
      }
    }

    /** A worker as it comes out of its constructor. */
    static ghost predicate Made(w: Worker, repr: set<object>, tableSize: nat,
                                hs: seq<UniversalHashFunction>, first: u32)
      requires Suitable(hs)
      reads w, w.Repr
    {
      && w.Valid() && !w.locked && w.Repr == repr && w in repr && w.ht.tableSize == tableSize && w.threshold == first
      && w.Hashes() == FnsOf(hs) && w.FilterThreshold(InitialThreshold(first))
      && w.State() == WorkerState(Zeros(w.Hashes()), map[])
    }

    constructor (tableSize: nat, hss: seq<seq<UniversalHashFunction>>, first: u32, combine: (u64, nat) -> u64)
      requires 0 < tableSize && 0 < |hss| && forall i :: 0 <= i < |hss| ==> Suitable(hss[i])
      ensures Valid() && Setting() == SettingOf(tableSize, hss, combine) && Setting().Valid()
      ensures Is(Start(Setting(), first))
      ensures fresh(analyzer) && fresh(emitter.lb) && fresh(analyzer.Union(reprs))
    {
      var ws, rs := MakeWorkers(tableSize, hss, first);
      var lb := new LoadBalancer();
      workers := ws;
      analyzer := new Analyzer(ws);
      emitter := new Emitter(|hss|, lb, combine);
      reprs := rs;
      new;
      AllMade(tableSize, hss, first);
      Assembled(tableSize, hss, first, combine);
    }

    lemma AllMade(tableSize: nat, hss: seq<seq<UniversalHashFunction>>, first: u32)
      requires |workers| == |reprs| == |hss| && forall i :: 0 <= i < |hss| ==> Suitable(hss[i])
      requires forall i :: 0 <= i < |workers| ==> Made(workers[i], reprs[i], tableSize, hss[i], first)
      ensures forall i :: 0 <= i < |workers| ==>
                && workers[i].mfilter.Valid() && workers[i].Hashes() == FnsOf(hss[i])
                && workers[i].Repr == reprs[i] && workers[i] in reprs[i]
                && workers[i].Is(WorkerState(Zeros(FnsOf(hss[i])), map[]), false, InitialThreshold(first))
    {
      forall i | 0 <= i < |workers| ensures Made(workers[i], reprs[i], tableSize, hss[i], first) {
      }
    }

    lemma Assembled(tableSize: nat, hss: seq<seq<UniversalHashFunction>>, first: u32, combine: (u64, nat) -> u64)
      requires 0 < tableSize && 0 < |workers| == |hss| && forall i :: 0 <= i < |hss| ==> Suitable(hss[i])
      requires forall i :: 0 <= i < |workers| ==>
                 && workers[i].mfilter.Valid() && workers[i].Hashes() == FnsOf(hss[i])
                 && workers[i].Is(WorkerState(Zeros(FnsOf(hss[i])), map[]), false, InitialThreshold(first))
      requires analyzer.workers == workers && analyzer.Valid() && analyzer.Own(reprs)
      requires analyzer.flowMemSize == tableSize && analyzer.Control() == Initial(first, tableSize)
      requires emitter.numWorkers == |workers| && emitter.combine == combine
      requires forall i :: 0 <= i < |workers| ==> this !in reprs[i] && emitter.lb !in reprs[i]
      ensures Valid() && Setting() == SettingOf(tableSize, hss, combine) && Setting().Valid()
      ensures Is(Start(Setting(), first))
    {
      assert Setting().hashes == SettingOf(tableSize, hss, combine).hashes;
    }

    /** A packet goes to its worker. */
    method Serve(p: FlowUpdate, ghost s: State)
      requires Is(s) && Setting().Valid() && Fits(Setting(), s)
      modifies this`reprs, emitter.lb, analyzer.Union(reprs)
      ensures Is(Step(Setting(), s, Packet(p)))
      ensures forall i :: 0 <= i < |workers| ==> fresh(reprs[i] - old(reprs)[i])
    {
      emitter.DispatchPolicy(p);
      ServeAt(emitter.lb.victim, p, s);
    }

    /** The worker's part: it may take new objects into its footprint, and leaves the other workers alone. */
    method ServeOne(i: nat, p: FlowUpdate, ghost s: State)
      requires Is(s) && Setting().Valid() && Fits(Setting(), s) && i < |workers|
      modifies reprs[i]
      ensures workers[i].Is(Svc(ConfigOf(Setting(), s, i), s.ws[i], p), false, s.threshold)
      ensures workers[i] in workers[i].Repr && fresh(workers[i].Repr - reprs[i])
      ensures forall j :: 0 <= j < |workers| && j != i ==>
                workers[j].Is(s.ws[j], false, s.threshold) && workers[j].Repr == reprs[j]
    {
      assert forall j :: 0 <= j < |workers| ==> workers[j].Is(s.ws[j], false, s.threshold);
      assert workers[i].Hashes() == Setting().hashes[i];
      workers[i].ProcessPacket(p, s.threshold);
    }

    method ServeAt(i: nat, p: FlowUpdate, ghost s: State)
      requires Is(s) && Setting().Valid() && Fits(Setting(), s) && i == Setting().Home(p.fid)
      modifies this`reprs, reprs[i]
      ensures Is(Step(Setting(), s, Packet(p)))
      ensures forall j :: 0 <= j < |workers| ==> fresh(reprs[j] - old(reprs)[j])
    {
      ServeOne(i, p, s);
      assert forall j :: 0 <= j < |workers| && j != i ==> workers[i].Repr !! reprs[j];
      NoteRepr(i, Step(Setting(), s, Packet(p)));
    }

    /** Only the footprint of worker i is out of date. */
    ghost predicate UpToDateBut(i: nat)
      requires i < |workers|
      reads this, workers
    {
      && |reprs| == |workers|
      && (forall j :: 0 <= j < |workers| && j != i ==> workers[j].Repr == reprs[j])
      && (forall j, k :: 0 <= j < k < |workers| ==> workers[j].Repr !! workers[k].Repr)
      && (forall j :: 0 <= j < |workers| ==> workers[j] in workers[j].Repr)
      && (forall j :: 0 <= j < |workers| ==>
           this !in workers[j].Repr && analyzer !in workers[j].Repr && emitter.lb !in workers[j].Repr)
    }

    /** Brings the record of the footprints up to date. */
    ghost method NoteRepr(i: nat, s: State)
      requires i < |workers| == |s.ws| && UpToDateBut(i) && analyzer.Valid() && analyzer.Control() == s.control
      requires analyzer.workers == workers && emitter.numWorkers == |workers|
      requires forall j :: 0 <= j < |workers| ==>
                 workers[j].Is(s.ws[j], false, s.threshold) && 0 < |workers[j].Hashes()|
      modifies this`reprs
      ensures Is(s) && reprs == old(reprs)[i := workers[i].Repr]
    {
      reprs := reprs[i := workers[i].Repr];
    }

    /** The end of an interval. */
    method Cut(ghost s: State) returns (results: seq<Record>)
      requires Is(s) && Setting().Valid() && Fits(Setting(), s) && Placed(Setting(), s)
      modifies analyzer, analyzer.Union(reprs)
      ensures Is(Step(Setting(), s, Event.Cut)) && ListsReport(Setting(), s, results)
    {
      ghost var parts;
      results, parts := analyzer.DoBoundedAnalysis(reprs, s.ws, s.threshold);
      NoFlowTwice(Setting(), s, parts);
    }

    /** A packet or the end of an interval. */
    method Take(e: Event, ghost s: State) returns (results: seq<Record>)
      requires Is(s) && Setting().Valid() && Fits(Setting(), s) && Placed(Setting(), s)
      modifies this`reprs, emitter.lb, analyzer, analyzer.Union(reprs)
      ensures Is(Step(Setting(), s, e)) && (e.Cut? ==> ListsReport(Setting(), s, results))
      ensures fresh(analyzer.Union(reprs) - old(analyzer.Union(reprs)))
    {
      results := [];
      if e.Packet? {
        Serve(e.p, s);
      } else {
        results := Cut(s);
      }
    }

    /** After es the objects are in the state of the sequential run and have exported the reports of its analyses. */
    ghost predicate Through(es: seq<Event>, first: u32, reports: seq<seq<Record>>)
      reads this, workers, analyzer, set w, o | w in workers && o in w.Repr :: o
    {
      && Valid() && Setting().Valid() && Is(RunAll(Setting(), Start(Setting(), first), es))
      && ListReports(Setting(), BeforeCuts(Setting(), Start(Setting(), first), es), reports)
    }

    method RunOne(es: seq<Event>, n: nat, first: u32, before: seq<seq<Record>>) returns (reports: seq<seq<Record>>)
      requires n < |es| && Through(es[..n], first, before)
      modifies this`reprs, emitter.lb, analyzer, analyzer.Union(reprs)
      ensures Through(es[..n + 1], first, reports)
      ensures fresh(analyzer.Union(reprs) - old(analyzer.Union(reprs)))
    {
      StepOfRun(Setting(), first, es, n);
      var results := Take(es[n], RunAll(Setting(), Start(Setting(), first), es[..n]));
      reports := if es[n].Cut? then before + [results] else before;
    }

    /** A whole run. */
    method Run(es: seq<Event>, first: u32) returns (reports: seq<seq<Record>>)
      requires Valid() && Setting().Valid() && Is(Start(Setting(), first))
      modifies this`reprs, emitter.lb, analyzer, analyzer.Union(reprs)
      ensures Through(es, first, reports)
    {
      reports := [];
      for n := 0 to |es|
        invariant Through(es[..n], first, reports)
        invariant fresh(analyzer.Union(reprs) - old(analyzer.Union(reprs)))
      {
        reports := RunOne(es, n, first, reports);
      }
      assert es[..|es|] == es;
    }
  }

  /** The program: the objects are made, and every interval of packets ends with an analysis and its report. */
  method Detect(tableSize: nat, hss: seq<seq<UniversalHashFunction>>, first: u32, combine: (u64, nat) -> u64,
                pss: seq<seq<FlowUpdate>>) returns (reports: seq<seq<Record>>)
    requires 0 < tableSize && 0 < |hss| && forall i :: 0 <= i < |hss| ==> Suitable(hss[i])
    ensures var x := SettingOf(tableSize, hss, combine);
      x.Valid() && |reports| == |pss|
      && forall n :: 0 <= n < |pss| ==> ListsReport(x, AtCut(x, Start(x, first), pss, n), reports[n])
  {
    var d := new Detector(tableSize, hss, first, combine);
    reports := d.Run(Events(pss), first);
    CutsEndIntervals(d.Setting(), Start(d.Setting(), first), pss);
  }

  lemma StepOfRun(x: Setting, first: u32, es: seq<Event>, n: nat)
    requires x.Valid() && n < |es|
    ensures var s := RunAll(x, Start(x, first), es[..n]);
      && Placed(x, s) && RunAll(x, Start(x, first), es[..n + 1]) == Step(x, s, es[n])
      && BeforeCuts(x, Start(x, first), es[..n + 1])
         == BeforeCuts(x, Start(x, first), es[..n]) + if es[n].Cut? then [s] else []
  {
    assert es[..n + 1] == es[..n] + [es[n]];
    RunOneMore(x, Start(x, first), es[..n], es[n]);
    BeforeCutsAppend(x, Start(x, first), es[..n], es[n]);
    RunKeepsPlaces(x, first, es[..n]);
  }
}
