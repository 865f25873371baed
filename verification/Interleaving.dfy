/** Worker and analyzer threads with their mutexes: every interleaving is a sequential run of the detector. */
module Interleaving {
  import opened Base
  import opened FilterSpec
  import opened FlowTable
  import opened Worker
  import opened WorkerRuns
  import opened Cleanup
  import opened Thresholds
  import opened System
  import opened Intervals

  datatype Lock = Free | ByWorker | ByAnalyzer

  /** Where a worker is in its service of packet p; from Holding to Done it has its mutex. */
  datatype WorkerPc =
    | Idle
    | Waiting(p: FlowUpdate)
    | Holding(p: FlowUpdate)
    | Shielding(p: FlowUpdate)
    | Filtering(p: FlowUpdate)
    | Admitting(p: FlowUpdate)
    | Done(p: FlowUpdate)

  /** Where the analyzer is; i is the next worker of the loop. */
  datatype AnalyzerPc =
    | Resting
    | Locking(i: nat)
    | Cleaning(i: nat)
    | Renewing(i: nat)
    | Unlocking(i: nat)

  /**
   * The threads' shared state. parts are the results of the analysis in progress, worker by worker. trace, taken and
   * reports are history: the events in the order of their effects, the packets each worker has accepted, and the
   * results of all analyses.
   */
  datatype Threads = Threads(
    ws: seq<WorkerState>, thresholds: seq<u64>, locks: seq<Lock>, pcs: seq<WorkerPc>,
    control: Control, apc: AnalyzerPc, parts: seq<seq<Record>>,
    trace: seq<Event>, taken: seq<seq<FlowUpdate>>, reports: seq<seq<Record>>)

  /**
   * Take and Begin come from outside: a packet of the emitter, a tick of the timer. part is what the analyzer adds to
   * the results when it cleans a table; its order is that of the iteration, which is arbitrary.
   */
  datatype Action = Take(i: nat, p: FlowUpdate) | WorkerStep(i: nat) | Begin | AnalyzerStep(part: seq<Record>)

  ghost predicate Sized(x: Setting, c: Threads) {
    var n := |x.hashes|;
    && |c.ws| == |c.thresholds| == |c.locks| == |c.pcs| == |c.taken| == n
    && (forall i :: 0 <= i < n ==> Shaped(x.hashes[i], c.ws[i].counters))
    && (c.apc.Resting? || c.apc.i <= n)
  }

  function Boot(x: Setting, first: u32): (c: Threads)
    ensures Sized(x, c)
  {
    var s, n := Start(x, first), |x.hashes|;
    Threads(s.ws, seq(n, _ => s.threshold), seq(n, _ => Free), seq(n, _ => Idle), s.control, Resting, [],
            [], seq(n, _ => []), [])
  }

  ghost predicate Enabled(x: Setting, c: Threads, a: Action)
    requires x.Valid() && Sized(x, c)
  {
    match a
    case Take(i, p) => i < |c.pcs| && c.pcs[i].Idle? && x.Home(p.fid) == i
    case WorkerStep(i) => i < |c.pcs| && !c.pcs[i].Idle? && (c.pcs[i].Waiting? ==> c.locks[i].Free?)
    case Begin => c.apc.Resting?
    case AnalyzerStep(part) =>
      && !c.apc.Resting?
      && (c.apc.Locking? && c.apc.i < |c.locks| ==> c.locks[c.apc.i].Free?)
      && (c.apc.Cleaning? && c.apc.i < |c.ws| ==> Lists(part, c.ws[c.apc.i].table, c.control.t))
  }

  function SetPc(c: Threads, i: nat, pc: WorkerPc): Threads
    requires i < |c.pcs|
  {
    c.(pcs := c.pcs[i := pc])
  }

  /** The configuration worker i runs with. */
  function LocalConfig(x: Setting, c: Threads, i: nat): Config
    requires i < |x.hashes| == |c.thresholds|
  {
    Config(x.rule, x.hashes[i], c.thresholds[i])
  }

  /** One step of the service of a packet: lock, look up, update or filter, insert, unlock. */
  ghost function WorkerNext(x: Setting, c: Threads, i: nat): (d: Threads)
    requires x.Valid() && Sized(x, c) && Enabled(x, c, WorkerStep(i))
    ensures Sized(x, d)
  {
    var w, k, pc := c.ws[i], LocalConfig(x, c, i), c.pcs[i];
    match pc
    case Waiting(p) => SetPc(c, i, Holding(p)).(locks := c.locks[i := ByWorker])
    case Holding(p) => SetPc(c, i, if p.fid in w.table then Shielding(p) else Filtering(p))
    case Shielding(p) =>
      var table := if p.fid in w.table then Hit(w.table, p) else w.table;
      SetPc(c, i, Done(p)).(ws := c.ws[i := w.(table := table)], trace := c.trace + [Packet(p)])
    case Filtering(p) =>
      if Passes(Row(k.hs, w.counters, p.fid), p.dOctets, k.threshold) then SetPc(c, i, Admitting(p))
      else SetPc(c, i, Done(p)).(
        ws := c.ws[i := w.(counters := Update(k.rule, k.hs, k.threshold, w.counters, p))],
        trace := c.trace + [Packet(p)])
    case Admitting(p) =>
      SetPc(c, i, Done(p)).(ws := c.ws[i := w.(table := Inserted(w.table, p))], trace := c.trace + [Packet(p)])
    case Done(p) => SetPc(c, i, Idle).(locks := c.locks[i := Free])
  }

  /** One step of an analysis: lock all, clean all, retarget, renew all, unlock all. */
  ghost function AnalyzerNext(x: Setting, c: Threads, part: seq<Record>): (d: Threads)
    requires x.Valid() && Sized(x, c) && Enabled(x, c, AnalyzerStep(part))
    ensures Sized(x, d)
  {
    var size := |x.hashes|;
    match c.apc
    case Locking(i) =>
      if i < size then c.(apc := Locking(i + 1), locks := c.locks[i := ByAnalyzer])
      else c.(apc := Cleaning(0), parts := [])
    case Cleaning(i) =>
      if i < size then
        var w := c.ws[i];
        c.(apc := Cleaning(i + 1), parts := c.parts + [part],
           ws := c.ws[i := w.(table := Clean(w.table, c.control.t, c.control.oldR))])
      else c.(apc := Renewing(0), control := Next(c.control, x.mem, |Flatten(c.parts)|))
    case Renewing(i) =>
      if i < size then
        c.(apc := Renewing(i + 1), ws := c.ws[i := c.ws[i].(counters := Zeros(x.hashes[i]))],
           thresholds := c.thresholds[i := UpdatedThreshold(c.control.t)])
      else c.(apc := Unlocking(0), trace := c.trace + [Cut], reports := c.reports + [Flatten(c.parts)])
    case Unlocking(i) =>
      if i < size then c.(apc := Unlocking(i + 1), locks := c.locks[i := Free]) else c.(apc := Resting)
  }

  ghost function Do(x: Setting, c: Threads, a: Action): (d: Threads)
    requires x.Valid() && Sized(x, c) && Enabled(x, c, a)
    ensures Sized(x, d)
  {
    match a
    case Take(i, p) => SetPc(c, i, Waiting(p)).(taken := c.taken[i := c.taken[i] + [p]])
    case WorkerStep(i) => WorkerNext(x, c, i)
    case Begin => c.(apc := Locking(0))
    case AnalyzerStep(part) => AnalyzerNext(x, c, part)
  }

  // ---------- who has which mutex ----------

  predicate InCriticalSection(pc: WorkerPc) {
    !pc.Idle? && !pc.Waiting?
  }

  predicate AnalyzerHas(apc: AnalyzerPc, i: nat) {
    match apc
    case Resting => false
    case Locking(k) => i < k
    case Cleaning(_) => true
    case Renewing(_) => true
    case Unlocking(k) => k <= i
  }

  /** Mutex i, its worker and the analyzer agree on who holds it. */
  ghost predicate LockAgrees(x: Setting, c: Threads, i: nat)
    requires Sized(x, c) && i < |c.locks|
  {
    && (c.locks[i].ByWorker? <==> InCriticalSection(c.pcs[i]))
    && (c.locks[i].ByAnalyzer? <==> AnalyzerHas(c.apc, i))
  }

  ghost predicate LocksAgree(x: Setting, c: Threads)
    requires Sized(x, c)
  {
    forall i :: 0 <= i < |c.locks| ==> LockAgrees(x, c, i)
  }

  lemma LockAfterWorker(x: Setting, c: Threads, j: nat, i: nat)
    requires x.Valid() && Sized(x, c) && LocksAgree(x, c) && Enabled(x, c, WorkerStep(j)) && i < |c.locks|
    ensures LockAgrees(x, WorkerNext(x, c, j), i)
  {
    assert LockAgrees(x, c, i);
  }

  lemma LockAfterAnalyzer(x: Setting, c: Threads, part: seq<Record>, i: nat)
    requires x.Valid() && Sized(x, c) && LocksAgree(x, c) && Enabled(x, c, AnalyzerStep(part)) && i < |c.locks|
    ensures LockAgrees(x, AnalyzerNext(x, c, part), i)
  {
    assert LockAgrees(x, c, i);
  }

  lemma LocksStayAgreed(x: Setting, c: Threads, a: Action)
    requires x.Valid() && Sized(x, c) && LocksAgree(x, c) && Enabled(x, c, a)
    ensures LocksAgree(x, Do(x, c, a))
  {
    forall i | 0 <= i < |c.locks| ensures LockAgrees(x, Do(x, c, a), i) {
      assert LockAgrees(x, c, i);
      match a
      case WorkerStep(j) => LockAfterWorker(x, c, j, i);
      case AnalyzerStep(part) => LockAfterAnalyzer(x, c, part, i);
      case Take(_, _) =>
      case Begin =>
    }
  }

  // ---------- the threads against the sequential detector ----------

  /** What the lookup and the filter have found still holds when the worker acts on it. */
  predicate Remembers(k: Config, w: WorkerState, pc: WorkerPc)
    requires Shaped(k.hs, w.counters)
  {
    match pc
    case Shielding(p) => p.fid in w.table
    case Filtering(p) => p.fid !in w.table
    case Admitting(p) => p.fid !in w.table && Passes(Row(k.hs, w.counters, p.fid), p.dOctets, k.threshold)
    case _ => true
  }

  /** State of worker j in the middle of an analysis of the sequential state s. */
  ghost predicate Midway(x: Setting, s: State, c: Threads, j: nat)
    requires x.Valid() && Fits(x, s) && Sized(x, c) && j < |s.ws|
  {
    var before, cleaned := s.ws[j], s.ws[j].(table := Clean(s.ws[j].table, s.control.t, s.control.oldR));
    match c.apc
    case Cleaning(i) => c.ws[j] == (if j < i then cleaned else before) && c.thresholds[j] == s.threshold
    case Renewing(i) =>
      if j < i
      then c.ws[j] == cleaned.(counters := Zeros(x.hashes[j])) && c.thresholds[j] == UpdatedThreshold(c.control.t)
      else c.ws[j] == cleaned && c.thresholds[j] == s.threshold
    case _ => c.ws[j] == before && c.thresholds[j] == s.threshold
  }

  ghost predicate ControlMidway(x: Setting, s: State, c: Threads)
    requires x.Valid() && Fits(x, s)
  {
    match c.apc
    case Cleaning(i) => c.control == s.control && |c.parts| == i && ListsEach(c.parts, s.ws, s.control.t)
    case Renewing(_) =>
      && c.control == Next(s.control, x.mem, ReportCount(s.ws, s.control.t))
      && |c.parts| == |s.ws| && ListsEach(c.parts, s.ws, s.control.t)
    case _ => c.control == s.control
  }

  /** The threads are where the sequential state s says, up to the analysis in progress. */
  ghost predicate Simulates(x: Setting, s: State, c: Threads)
    requires x.Valid() && Fits(x, s) && Sized(x, c)
  {
    && ControlMidway(x, s, c)
    && (forall j :: 0 <= j < |s.ws| ==> Midway(x, s, c, j) && Remembers(LocalConfig(x, c, j), c.ws[j], c.pcs[j]))
  }

  ghost function Sequential(x: Setting, first: u32, c: Threads): (s: State)
    requires x.Valid()
    ensures Fits(x, s)
  {
    RunAll(x, Start(x, first), c.trace)
  }

  /** A worker serves only packets of its own flows. */
  ghost predicate Routed(x: Setting, c: Threads)
    requires x.Valid() && Sized(x, c)
  {
    forall i :: 0 <= i < |c.pcs| && !c.pcs[i].Idle? ==> x.Home(c.pcs[i].p.fid) == i
  }

  lemma WorkerSimulates(x: Setting, s: State, c: Threads, i: nat)
    requires x.Valid() && Fits(x, s) && Sized(x, c) && LocksAgree(x, c) && Routed(x, c) && Simulates(x, s, c)
    requires Enabled(x, c, WorkerStep(i))
    ensures var d := WorkerNext(x, c, i);
      Simulates(x, if d.trace == c.trace then s else Step(x, s, Packet(c.pcs[i].p)), d)
  {
    assert Midway(x, s, c, i) && Remembers(LocalConfig(x, c, i), c.ws[i], c.pcs[i]);
    assert LockAgrees(x, c, i);
    var d := WorkerNext(x, c, i);
    var s' := if d.trace == c.trace then s else Step(x, s, Packet(c.pcs[i].p));
    forall j | 0 <= j < |s.ws| ensures Midway(x, s', d, j) && Remembers(LocalConfig(x, d, j), d.ws[j], d.pcs[j]) {
      assert Midway(x, s, c, j) && Remembers(LocalConfig(x, c, j), c.ws[j], c.pcs[j]);
    }
  }

  lemma ControlSimulates(x: Setting, s: State, c: Threads, part: seq<Record>)
    requires x.Valid() && Fits(x, s) && Sized(x, c) && Simulates(x, s, c) && Enabled(x, c, AnalyzerStep(part))
    ensures var d := AnalyzerNext(x, c, part);
      ControlMidway(x, if d.trace == c.trace then s else Step(x, s, Cut), d)
  {
    if c.apc.Cleaning? {
      if c.apc.i < |s.ws| {
        assert Midway(x, s, c, c.apc.i);
      } else {
        FlattenCounts(c.parts, s.ws, s.control.t);
      }
    }
  }

  lemma AnalyzerSimulates(x: Setting, s: State, c: Threads, part: seq<Record>)
    requires x.Valid() && Fits(x, s) && Sized(x, c) && LocksAgree(x, c) && Simulates(x, s, c)
    requires Enabled(x, c, AnalyzerStep(part))
    ensures var d := AnalyzerNext(x, c, part);
      Simulates(x, if d.trace == c.trace then s else Step(x, s, Cut), d)
  {
    var d := AnalyzerNext(x, c, part);
    var s' := if d.trace == c.trace then s else Step(x, s, Cut);
    ControlSimulates(x, s, c, part);
    forall j | 0 <= j < |s.ws| ensures Midway(x, s', d, j) && Remembers(LocalConfig(x, d, j), d.ws[j], d.pcs[j]) {
      assert Midway(x, s, c, j) && Remembers(LocalConfig(x, c, j), c.ws[j], c.pcs[j]);
      assert LockAgrees(x, c, j);
    }
  }

  // ---------- the order of each worker's packets ----------

  /** The packets of a trace that worker i serves. */
  function Served(x: Setting, es: seq<Event>, i: nat): seq<FlowUpdate>
    requires 0 < |x.hashes|
  {
    if es == [] then []
    else
      var before, e := es[..|es| - 1], es[|es| - 1];
      if e.Packet? && x.Home(e.p.fid) == i then Served(x, before, i) + [e.p] else Served(x, before, i)
  }

  /** The packet a worker has accepted and not yet put into effect. */
  function InHand(pc: WorkerPc): seq<FlowUpdate> {
    if pc.Idle? || pc.Done? then [] else [pc.p]
  }

  /** Each worker's packets take effect once, in the order it accepted them. */
  ghost predicate InOrder(x: Setting, c: Threads)
    requires x.Valid() && Sized(x, c)
  {
    forall i :: 0 <= i < |c.taken| ==> c.taken[i] == Served(x, c.trace, i) + InHand(c.pcs[i])
  }

  lemma ServedAppend(x: Setting, es: seq<Event>, e: Event, i: nat)
    requires 0 < |x.hashes|
    ensures Served(x, es + [e], i)
      == if e.Packet? && x.Home(e.p.fid) == i then Served(x, es, i) + [e.p] else Served(x, es, i)
  {
    assert (es + [e])[..|es + [e]| - 1] == es;
  }

  /** A step of a worker puts the packet in its hand into effect, or no packet. */
  lemma WorkerTouches(x: Setting, c: Threads, i: nat)
    requires x.Valid() && Sized(x, c) && Enabled(x, c, WorkerStep(i))
    ensures var d := WorkerNext(x, c, i);
      && d.taken == c.taken && d.reports == c.reports && d.apc == c.apc && d.pcs == c.pcs[i := d.pcs[i]]
      && (d.pcs[i].Idle? || d.pcs[i].p == c.pcs[i].p)
      && if d.trace == c.trace then InHand(d.pcs[i]) == InHand(c.pcs[i])
         else d.trace == c.trace + [Packet(c.pcs[i].p)] && InHand(c.pcs[i]) == [c.pcs[i].p] && InHand(d.pcs[i]) == []
  {
  }

  lemma WorkerStaysInOrder(x: Setting, c: Threads, i: nat, j: nat)
    requires x.Valid() && Sized(x, c) && Routed(x, c) && InOrder(x, c) && Enabled(x, c, WorkerStep(i))
    requires j < |c.taken|
    ensures var d := WorkerNext(x, c, i); d.taken[j] == Served(x, d.trace, j) + InHand(d.pcs[j])
  {
    WorkerTouches(x, c, i);
    ServedAppend(x, c.trace, Packet(c.pcs[i].p), j);
    assert c.taken[j] == Served(x, c.trace, j) + InHand(c.pcs[j]);
  }

  lemma TakeStaysInOrder(x: Setting, c: Threads, i: nat, p: FlowUpdate, j: nat)
    requires x.Valid() && Sized(x, c) && InOrder(x, c) && Enabled(x, c, Take(i, p)) && j < |c.taken|
    ensures var d := Do(x, c, Take(i, p)); d.taken[j] == Served(x, d.trace, j) + InHand(d.pcs[j])
  {
    assert c.taken[j] == Served(x, c.trace, j) + InHand(c.pcs[j]);
    if i == j {
      var served := Served(x, c.trace, j);
      assert served + [] == served;
    }
  }

  lemma AnalyzerTouches(x: Setting, c: Threads, part: seq<Record>)
    requires x.Valid() && Sized(x, c) && Enabled(x, c, AnalyzerStep(part))
    ensures var d := AnalyzerNext(x, c, part);
      && d.pcs == c.pcs && d.taken == c.taken
      && if d.trace == c.trace then d.reports == c.reports
         else d.trace == c.trace + [Cut] && d.reports == c.reports + [Flatten(c.parts)] && c.apc == Renewing(|c.ws|)
  {
  }

  lemma AnalyzerStaysInOrder(x: Setting, c: Threads, part: seq<Record>, j: nat)
    requires x.Valid() && Sized(x, c) && InOrder(x, c) && Enabled(x, c, AnalyzerStep(part)) && j < |c.taken|
    ensures var d := AnalyzerNext(x, c, part); d.taken[j] == Served(x, d.trace, j) + InHand(d.pcs[j])
  {
    AnalyzerTouches(x, c, part);
    ServedAppend(x, c.trace, Cut, j);
  }

  lemma StaysInOrder(x: Setting, c: Threads, a: Action)
    requires x.Valid() && Sized(x, c) && Routed(x, c) && InOrder(x, c) && Enabled(x, c, a)
    ensures InOrder(x, Do(x, c, a))
  {
    var d := Do(x, c, a);
    forall j | 0 <= j < |d.taken| ensures d.taken[j] == Served(x, d.trace, j) + InHand(d.pcs[j]) {
      match a
      case Take(i, p) => TakeStaysInOrder(x, c, i, p, j);
      case WorkerStep(i) => WorkerStaysInOrder(x, c, i, j);
      case Begin => assert c.taken[j] == Served(x, c.trace, j) + InHand(c.pcs[j]);
      case AnalyzerStep(part) => AnalyzerStaysInOrder(x, c, part, j);
    }
  }

  lemma StaysRouted(x: Setting, c: Threads, a: Action)
    requires x.Valid() && Sized(x, c) && Routed(x, c) && Enabled(x, c, a)
    ensures Routed(x, Do(x, c, a))
  {
    var d := Do(x, c, a);
    forall i | 0 <= i < |d.pcs| && !d.pcs[i].Idle? ensures x.Home(d.pcs[i].p.fid) == i {
    }
  }

  // ---------- the reports ----------

  /** The results of every analysis are the report of the state it meets in the sequential run. */
  ghost predicate Exported(x: Setting, first: u32, c: Threads)
    requires x.Valid()
  {
    ListReports(x, BeforeCuts(x, Start(x, first), c.trace), c.reports)
  }

  lemma CutStaysExported(x: Setting, first: u32, c: Threads, part: seq<Record>)
    requires x.Valid() && Sized(x, c) && Exported(x, first, c) && Simulates(x, Sequential(x, first, c), c)
    requires Enabled(x, c, AnalyzerStep(part))
    ensures Exported(x, first, AnalyzerNext(x, c, part))
  {
    AnalyzerTouches(x, c, part);
    if AnalyzerNext(x, c, part).trace != c.trace {
      BeforeCutsAppend(x, Start(x, first), c.trace, Cut);
      RunKeepsPlaces(x, first, c.trace);
      NoFlowTwice(x, Sequential(x, first, c), c.parts);
    }
  }

  lemma StaysExported(x: Setting, first: u32, c: Threads, a: Action)
    requires x.Valid() && Sized(x, c) && Enabled(x, c, a) && Exported(x, first, c)
    requires Simulates(x, Sequential(x, first, c), c)
    ensures Exported(x, first, Do(x, c, a))
  {
    match a
    case Take(_, _) =>
    case Begin =>
    case WorkerStep(i) =>
      WorkerTouches(x, c, i);
      BeforeCutsAppend(x, Start(x, first), c.trace, Packet(c.pcs[i].p));
    case AnalyzerStep(part) =>
      CutStaysExported(x, first, c, part);
  }

  // ---------- all reachable states ----------

  /** The actions, each enabled where it is taken, lead from c to the result. */
  ghost predicate Leads(x: Setting, c: Threads, acts: seq<Action>, d: Threads)
    requires x.Valid() && Sized(x, c) && Sized(x, d)
    decreases |acts|
  {
    if acts == [] then d == c
    else
      exists m :: Sized(x, m) && Leads(x, c, acts[..|acts| - 1], m)
        && Enabled(x, m, acts[|acts| - 1]) && d == Do(x, m, acts[|acts| - 1])
  }

  ghost predicate Good(x: Setting, first: u32, c: Threads)
    requires x.Valid() && Sized(x, c)
  {
    && LocksAgree(x, c) && Routed(x, c) && InOrder(x, c) && Exported(x, first, c)
    && Simulates(x, Sequential(x, first, c), c)
  }

  lemma BootIsGood(x: Setting, first: u32)
    requires x.Valid()
    ensures Good(x, first, Boot(x, first))
  {
  }

  lemma OutsideSimulates(x: Setting, s: State, c: Threads, a: Action)
    requires x.Valid() && Fits(x, s) && Sized(x, c) && Simulates(x, s, c)
    requires Enabled(x, c, a) && (a.Take? || a.Begin?)
    ensures Simulates(x, s, Do(x, c, a)) && Do(x, c, a).trace == c.trace
  {
    var d := Do(x, c, a);
    forall j | 0 <= j < |s.ws| ensures Midway(x, s, d, j) && Remembers(LocalConfig(x, d, j), d.ws[j], d.pcs[j]) {
      assert Midway(x, s, c, j) && Remembers(LocalConfig(x, c, j), c.ws[j], c.pcs[j]);
    }
  }

  lemma TraceGrows(x: Setting, first: u32, c: Threads, d: Threads, e: Event)
    requires x.Valid() && (d.trace == c.trace || d.trace == c.trace + [e])
    ensures Sequential(x, first, d) ==
      if d.trace == c.trace then Sequential(x, first, c) else Step(x, Sequential(x, first, c), e)
  {
    RunOneMore(x, Start(x, first), c.trace, e);
  }

  lemma ActionSimulates(x: Setting, first: u32, c: Threads, a: Action)
    requires x.Valid() && Sized(x, c) && LocksAgree(x, c) && Routed(x, c) && Enabled(x, c, a)
    requires Simulates(x, Sequential(x, first, c), c)
    ensures Simulates(x, Sequential(x, first, Do(x, c, a)), Do(x, c, a))
  {
    var s, d := Sequential(x, first, c), Do(x, c, a);
    match a
    case Take(_, _) => OutsideSimulates(x, s, c, a);
    case Begin => OutsideSimulates(x, s, c, a);
    case WorkerStep(i) =>
      WorkerSimulates(x, s, c, i);
      TraceGrows(x, first, c, d, Packet(c.pcs[i].p));
    case AnalyzerStep(part) =>
      AnalyzerSimulates(x, s, c, part);
      TraceGrows(x, first, c, d, Cut);
  }

  lemma ActionKeepsGood(x: Setting, first: u32, c: Threads, a: Action)
    requires x.Valid() && Sized(x, c) && Good(x, first, c) && Enabled(x, c, a)
    ensures Good(x, first, Do(x, c, a))
  {
    LocksStayAgreed(x, c, a);
    StaysInOrder(x, c, a);
    StaysRouted(x, c, a);
    StaysExported(x, first, c, a);
    ActionSimulates(x, first, c, a);
  }

  lemma {:induction false} ReachableIsGood(x: Setting, first: u32, acts: seq<Action>, d: Threads)
    requires x.Valid() && Sized(x, d) && Leads(x, Boot(x, first), acts, d)
    ensures Good(x, first, d)
    decreases |acts|
  {
    if acts == [] {
      BootIsGood(x, first);
    } else {
      var m :| Sized(x, m) && Leads(x, Boot(x, first), acts[..|acts| - 1], m)
        && Enabled(x, m, acts[|acts| - 1]) && d == Do(x, m, acts[|acts| - 1]);
      ReachableIsGood(x, first, acts[..|acts| - 1], m);
      ActionKeepsGood(x, first, m, acts[|acts| - 1]);
    }
  }

  lemma EqualOutsideAnalysis(x: Setting, s: State, c: Threads)
    requires x.Valid() && Fits(x, s) && Sized(x, c) && Simulates(x, s, c)
    requires !c.apc.Cleaning? && !c.apc.Renewing?
    ensures c.ws == s.ws && c.control == s.control
    ensures forall i :: 0 <= i < |c.ws| ==> c.thresholds[i] == s.threshold
  {
    forall i | 0 <= i < |c.ws| ensures c.ws[i] == s.ws[i] && c.thresholds[i] == s.threshold {
      assert Midway(x, s, c, i);
    }
  }

  /**
   * The interval cut is atomic: under every interleaving the threads are in the state of one sequential run, its
   * trace, in which an analysis is a single event; unless the analyzer is between its first clean and its last
   * renewal, the two states are equal. Each worker's packets take effect once and in order, and every analysis so far
   * has reported what it would have in the sequential run.
   */
  lemma {:induction false} EveryInterleavingIsSequential(x: Setting, first: u32, acts: seq<Action>, c: Threads)
    requires x.Valid() && Sized(x, c) && Leads(x, Boot(x, first), acts, c)
    ensures var s := RunAll(x, Start(x, first), c.trace);
      && (!c.apc.Cleaning? && !c.apc.Renewing? ==>
           c.ws == s.ws && c.control == s.control && forall i :: 0 <= i < |c.ws| ==> c.thresholds[i] == s.threshold)
      && (forall i :: 0 <= i < |c.ws| ==> c.taken[i] == Served(x, c.trace, i) + InHand(c.pcs[i]))
    ensures Exported(x, first, c)
  {
    ReachableIsGood(x, first, acts, c);
    if !c.apc.Cleaning? && !c.apc.Renewing? {
      EqualOutsideAnalysis(x, Sequential(x, first, c), c);
    }
  }

  /** A mutex is held by its worker exactly in the critical section, by the analyzer exactly from lock to unlock. */
  lemma {:induction false} LocksAlwaysAgree(x: Setting, first: u32, acts: seq<Action>, c: Threads, i: nat)
    requires x.Valid() && Sized(x, c) && Leads(x, Boot(x, first), acts, c) && i < |c.locks|
    ensures c.locks[i].ByWorker? <==> InCriticalSection(c.pcs[i])
    ensures c.locks[i].ByAnalyzer? <==> AnalyzerHas(c.apc, i)
  {
    ReachableIsGood(x, first, acts, c);
    assert LockAgrees(x, c, i);
  }

  /** While the analyzer cleans or renews, no worker is between its lookup and its unlock. */
  lemma AnalysisExcludesWorkers(x: Setting, first: u32, acts: seq<Action>, c: Threads, i: nat)
    requires x.Valid() && Sized(x, c) && Leads(x, Boot(x, first), acts, c) && i < |c.pcs|
    requires c.apc.Cleaning? || c.apc.Renewing?
    ensures !InCriticalSection(c.pcs[i])
  {
    ReachableIsGood(x, first, acts, c);
    assert LockAgrees(x, c, i);
  }

  /** A worker never updates an entry that is not in its table, the case in which the original throws. */
  lemma {:induction false} UpdateNeverThrows(x: Setting, first: u32, acts: seq<Action>, c: Threads, i: nat)
    requires x.Valid() && Sized(x, c) && Leads(x, Boot(x, first), acts, c) && i < |c.pcs|
    requires c.pcs[i].Shielding?
    ensures c.pcs[i].p.fid in c.ws[i].table
  {
    ReachableIsGood(x, first, acts, c);
    assert Remembers(LocalConfig(x, c, i), c.ws[i], c.pcs[i]);
  }

  // ---------- what the threads report ----------

  /** In a state with the trace of the intervals pss and the packets ps, report n is that of interval n. */
  lemma {:induction false} ReportsAreSequential(x: Setting, first: u32, acts: seq<Action>, c: Threads,
                                                pss: seq<seq<FlowUpdate>>, ps: seq<FlowUpdate>, n: nat)
    requires x.Valid() && Sized(x, c) && Leads(x, Boot(x, first), acts, c)
    requires c.trace == Events(pss) + Packets(ps) && n < |pss|
    ensures |c.reports| == |pss| && ListsReport(x, AtCut(x, Start(x, first), pss, n), c.reports[n])
  {
    ReachableIsGood(x, first, acts, c);
    PacketsDoNotCut(x, Start(x, first), Events(pss), ps);
    CutsEndIntervals(x, Start(x, first), pss);
  }

  lemma ReportHolds(x: Setting, first: u32, pss: seq<seq<FlowUpdate>>, n: nat, rs: seq<Record>, f: FlowId)
    requires x.Valid() && 1 <= first && n < |pss| && ListsReport(x, AtCut(x, Start(x, first), pss, n), rs)
    ensures Holds(rs, f) <==> InReport(x, AfterIntervals(x, Start(x, first), pss[..n]), pss[n], f)
  {
    EveryIntervalStartsClean(x, first, pss[..n]);
    PacketsKeepPlaces(x, AfterIntervals(x, Start(x, first), pss[..n]), pss[n]);
  }

  /**
   * The detector as coded and threaded, in every interval but the first: report n lists every flow that sent more than
   * t + 1 octets and no flow that sent t or fewer, each once.
   */
  lemma {:induction false} ThreadsFindHeavyFlows(x: Setting, first: u32, acts: seq<Action>, c: Threads,
                                                 pss: seq<seq<FlowUpdate>>, ps: seq<FlowUpdate>, n: nat, f: FlowId)
    requires x.Valid() && Sized(x, c) && Leads(x, Boot(x, first), acts, c) && 1 <= first && x.rule.Literal?
    requires c.trace == Events(pss) + Packets(ps) && 1 <= n < |pss|
    requires Octets(pss[n], f) < TWO_TO_THE_32
    ensures |c.reports| == |pss|
    ensures var t := AfterIntervals(x, Start(x, first), pss[..n]).control.t;
      && (t + 1 < Octets(pss[n], f) ==> Holds(c.reports[n], f))
      && (Holds(c.reports[n], f) ==> t < Octets(pss[n], f))
    ensures forall a, b :: 0 <= a < b < |c.reports[n]| ==> c.reports[n][a].fid != c.reports[n][b].fid
  {
    ReportsAreSequential(x, first, acts, c, pss, ps, n);
    ReportHolds(x, first, pss, n, c.reports[n], f);
    CodeFindsHeavyFlows(x, first, pss[..n], pss[n], f);
  }

  // ---------- progress ----------

  /** Steps a worker still needs for its packet, at most. */
  function WorkerRank(pc: WorkerPc): nat {
    match pc
    case Idle => 0
    case Waiting(_) => 5
    case Holding(_) => 4
    case Filtering(_) => 3
    case Shielding(_) => 2
    case Admitting(_) => 2
    case Done(_) => 1
  }

  /** Steps the analyzer still needs, with n workers. */
  function AnalyzerRank(apc: AnalyzerPc, n: nat): int {
    match apc
    case Resting => 0
    case Unlocking(i) => n - i + 1
    case Renewing(i) => 2 * n - i + 2
    case Cleaning(i) => 3 * n - i + 3
    case Locking(i) => 4 * n - i + 4
  }

  function SumRanks(pcs: seq<WorkerPc>): nat {
    if pcs == [] then 0 else SumRanks(pcs[..|pcs| - 1]) + WorkerRank(pcs[|pcs| - 1])
  }

  lemma {:induction false} SumRanksUpdate(pcs: seq<WorkerPc>, i: nat, pc: WorkerPc)
    requires i < |pcs|
    ensures SumRanks(pcs[i := pc]) == SumRanks(pcs) - WorkerRank(pcs[i]) + WorkerRank(pc)
  {
    var n := |pcs| - 1;
    if i < n {
      assert pcs[i := pc][..n] == pcs[..n][i := pc];
      SumRanksUpdate(pcs[..n], i, pc);
    } else {
      assert pcs[i := pc][..n] == pcs[..n];
    }
  }

  /** Steps all threads still need to come to rest, at most. */
  function Work(c: Threads): int {
    SumRanks(c.pcs) + AnalyzerRank(c.apc, |c.pcs|)
  }

  lemma WorkerGetsOn(x: Setting, c: Threads, i: nat)
    requires x.Valid() && Sized(x, c) && Enabled(x, c, WorkerStep(i))
    ensures var d := WorkerNext(x, c, i);
      d.apc == c.apc && d.pcs == c.pcs[i := d.pcs[i]] && WorkerRank(d.pcs[i]) < WorkerRank(c.pcs[i])
  {
  }

  lemma AnalyzerGetsOn(x: Setting, c: Threads, part: seq<Record>)
    requires x.Valid() && Sized(x, c) && Enabled(x, c, AnalyzerStep(part))
    ensures var d, n := AnalyzerNext(x, c, part), |c.pcs|;
      d.pcs == c.pcs && 0 <= AnalyzerRank(d.apc, n) < AnalyzerRank(c.apc, n)
  {
  }

  /** Every step of a thread that is already at work brings all threads closer to rest. */
  lemma StepsAreProgress(x: Setting, c: Threads, a: Action)
    requires x.Valid() && Sized(x, c) && Enabled(x, c, a) && (a.WorkerStep? || a.AnalyzerStep?)
    ensures 0 <= Work(Do(x, c, a)) < Work(c)
  {
    if a.WorkerStep? {
      WorkerGetsOn(x, c, a.i);
      SumRanksUpdate(c.pcs, a.i, WorkerNext(x, c, a.i).pcs[a.i]);
    } else {
      AnalyzerGetsOn(x, c, a.part);
    }
  }

  lemma {:induction false} IdleOnly(pcs: seq<WorkerPc>)
    requires forall i :: 0 <= i < |pcs| ==> pcs[i].Idle?
    ensures SumRanks(pcs) == 0
  {
    if pcs != [] {
      IdleOnly(pcs[..|pcs| - 1]);
    }
  }

  /** Results the analyzer's next step can have. */
  lemma SomePart(x: Setting, c: Threads) returns (part: seq<Record>)
    requires x.Valid() && Sized(x, c)
    ensures c.apc.Cleaning? && c.apc.i < |c.ws| ==> Lists(part, c.ws[c.apc.i].table, c.control.t)
  {
    part := [];
    if c.apc.Cleaning? && c.apc.i < |c.ws| {
      part := SomeList(c.ws[c.apc.i].table, c.control.t);
    }
  }

  /** With no worker in its critical section the analyzer, if at work, can take its next step. */
  lemma AnalyzerCanStep(x: Setting, c: Threads) returns (part: seq<Record>)
    requires x.Valid() && Sized(x, c) && LocksAgree(x, c) && !c.apc.Resting?
    requires forall i :: 0 <= i < |c.pcs| ==> !InCriticalSection(c.pcs[i])
    ensures Enabled(x, c, AnalyzerStep(part))
  {
    part := SomePart(x, c);
    if c.apc.Locking? && c.apc.i < |c.locks| {
      assert LockAgrees(x, c, c.apc.i);
    }
  }

  /** With the analyzer at rest every worker at work can take its next step. */
  lemma WorkerCanStep(x: Setting, c: Threads, i: nat)
    requires x.Valid() && Sized(x, c) && LocksAgree(x, c) && i < |c.pcs| && !c.pcs[i].Idle?
    requires c.apc.Resting? || InCriticalSection(c.pcs[i])
    ensures Enabled(x, c, WorkerStep(i))
  {
    assert LockAgrees(x, c, i);
  }

  /** No reachable state deadlocks: while any thread is at work, some thread at work can take its next step. */
  lemma {:induction false} NoDeadlock(x: Setting, first: u32, acts: seq<Action>, c: Threads) returns (a: Action)
    requires x.Valid() && Sized(x, c) && Leads(x, Boot(x, first), acts, c) && Work(c) != 0
    ensures (a.WorkerStep? || a.AnalyzerStep?) && Enabled(x, c, a)
  {
    ReachableIsGood(x, first, acts, c);
    if i :| 0 <= i < |c.pcs| && InCriticalSection(c.pcs[i]) {
      WorkerCanStep(x, c, i);
      a := WorkerStep(i);
    } else if !c.apc.Resting? {
      var part := AnalyzerCanStep(x, c);
      a := AnalyzerStep(part);
    } else if i :| 0 <= i < |c.pcs| && !c.pcs[i].Idle? {
      WorkerCanStep(x, c, i);
      a := WorkerStep(i);
    } else {
      IdleOnly(c.pcs);
      assert false;
    }
  }
}
