/** All workers and the analyzer, with packets and analyses in sequence. */
module System {
  import opened Base
  import opened FilterSpec
  import opened FlowTable
  import opened Worker
  import opened Cleanup
  import opened Thresholds

  /** hashes: the stage functions of each worker; dispatch: the emitter's hash of a flow; mem: the table size. */
  datatype Setting = Setting(rule: UpdateRule, hashes: seq<seq<HashFn>>, dispatch: FlowId -> nat, mem: nat) {
    ghost predicate Valid() {
      0 < |hashes| && 0 < mem && forall i :: 0 <= i < |hashes| ==> 0 < |hashes[i]|
    }

    /** The worker a flow is sent to. */
    function Home(f: FlowId): nat
      requires 0 < |hashes|
    {
      dispatch(f) % |hashes|
    }
  }

  /** threshold: the threshold all filters share. */
  datatype State = State(ws: seq<WorkerState>, control: Control, threshold: u64)

  datatype Event = Packet(p: FlowUpdate) | Cut

  ghost predicate Fits(x: Setting, s: State) {
    |s.ws| == |x.hashes| && forall i :: 0 <= i < |s.ws| ==> Shaped(x.hashes[i], s.ws[i].counters)
  }

  function Start(x: Setting, first: u32): (s: State)
    ensures Fits(x, s)
  {
    State(seq(|x.hashes|, i requires 0 <= i < |x.hashes| => WorkerState(Zeros(x.hashes[i]), map[])),
          Initial(first, x.mem), InitialThreshold(first))
  }

  function ConfigOf(x: Setting, s: State, i: nat): Config
    requires i < |x.hashes|
  {
    Config(x.rule, x.hashes[i], s.threshold)
  }

  /** Number of flows over t in all tables. */
  ghost function ReportCount(ws: seq<WorkerState>, t: nat): nat {
    if ws == [] then 0
    else ReportCount(ws[..|ws| - 1], t) + |ReportedFlows(ws[|ws| - 1].table, t)|
  }

  ghost function Step(x: Setting, s: State, e: Event): (r: State)
    requires x.Valid() && Fits(x, s)
    ensures Fits(x, r)
  {
    match e
    case Packet(p) =>
      var i := x.Home(p.fid);
      s.(ws := s.ws[i := Svc(ConfigOf(x, s, i), s.ws[i], p)])
    case Cut =>
      var c := Next(s.control, x.mem, ReportCount(s.ws, s.control.t));
      State(seq(|x.hashes|, i requires 0 <= i < |x.hashes| =>
              WorkerState(Zeros(x.hashes[i]), Clean(s.ws[i].table, s.control.t, s.control.oldR))),
            c, UpdatedThreshold(c.t))
  }

  ghost function RunAll(x: Setting, s: State, es: seq<Event>): (r: State)
    requires x.Valid() && Fits(x, s)
    ensures Fits(x, r)
  {
    if es == [] then s else Step(x, RunAll(x, s, es[..|es| - 1]), es[|es| - 1])
  }

  lemma RunOneMore(x: Setting, s: State, es: seq<Event>, e: Event)
    requires x.Valid() && Fits(x, s)
    ensures RunAll(x, s, es + [e]) == Step(x, RunAll(x, s, es), e)
  {
    assert (es + [e])[..|es + [e]| - 1] == es;
  }

  lemma {:induction false} RunInParts(x: Setting, s: State, es: seq<Event>, fs: seq<Event>)
    requires x.Valid() && Fits(x, s)
    ensures RunAll(x, s, es + fs) == RunAll(x, RunAll(x, s, es), fs)
    decreases |fs|
  {
    if fs == [] {
      assert es + fs == es;
    } else {
      var n := |fs| - 1;
      RunInParts(x, s, es, fs[..n]);
      Regroup(es, fs);
      RunOneMore(x, s, es + fs[..n], fs[n]);
    }
  }

  lemma Regroup(es: seq<Event>, fs: seq<Event>)
    requires fs != []
    ensures (es + fs[..|fs| - 1]) + [fs[|fs| - 1]] == es + fs
  {
  }

  // ---------- the partition of the flows ----------

  /** Every flow sits in the table of the worker it is sent to. */
  ghost predicate Placed(x: Setting, s: State)
    requires x.Valid() && Fits(x, s)
  {
    forall i, f :: 0 <= i < |s.ws| && f in s.ws[i].table ==> x.Home(f) == i
  }

  lemma {:induction false} RunKeepsPlaces(x: Setting, first: u32, es: seq<Event>)
    requires x.Valid()
    ensures Placed(x, RunAll(x, Start(x, first), es))
  {
    if es != [] {
      RunKeepsPlaces(x, first, es[..|es| - 1]);
    }
  }

  /** rs is the report of an analysis in state s: every flow above the threshold once, with its entry. */
  ghost predicate ListsReport(x: Setting, s: State, rs: seq<Record>)
    requires x.Valid() && Fits(x, s)
  {
    && (forall a, b :: 0 <= a < b < |rs| ==> rs[a].fid != rs[b].fid)
    && (forall a :: 0 <= a < |rs| ==> IsReported(x, s, rs[a].fid) && rs[a].entry == TableOf(x, s, rs[a].fid)[rs[a].fid])
    && (forall f :: IsReported(x, s, f) ==> Holds(rs, f))
  }

  /** The table of the worker a flow is sent to. */
  function TableOf(x: Setting, s: State, f: FlowId): Table
    requires 0 < |x.hashes| == |s.ws|
  {
    s.ws[x.Home(f)].table
  }

  predicate IsReported(x: Setting, s: State, f: FlowId)
    requires 0 < |x.hashes| == |s.ws|
  {
    f in TableOf(x, s, f) && Reported(TableOf(x, s, f)[f], s.control.t)
  }

  /** Hence the tables are disjoint, and the combined results of an analysis report every flow once. */
  lemma NoFlowTwice(x: Setting, s: State, parts: seq<seq<Record>>)
    requires x.Valid() && Fits(x, s) && Placed(x, s)
    requires |parts| == |s.ws| && ListsEach(parts, s.ws, s.control.t)
    ensures Step(x, s, Cut).control == Next(s.control, x.mem, |Flatten(parts)|)
    ensures forall i, j :: 0 <= i < j < |s.ws| ==> s.ws[i].table.Keys !! s.ws[j].table.Keys
    ensures ListsReport(x, s, Flatten(parts))
    ensures |Flatten(parts)| == ReportCount(s.ws, s.control.t)
  {
    forall i, j | 0 <= i < j < |s.ws| ensures s.ws[i].table.Keys !! s.ws[j].table.Keys {
      assert forall f :: f in s.ws[i].table ==> x.Home(f) == i;
    }
    FlattenCounts(parts, s.ws, s.control.t);
    FlattenLists(x, parts, s.ws, s.control.t);
    var rs := Flatten(parts);
    forall a | 0 <= a < |rs| ensures IsReported(x, s, rs[a].fid) && rs[a].entry == TableOf(x, s, rs[a].fid)[rs[a].fid] {
      assert ListedFrom(x, rs[a], s.ws, s.control.t);
    }
  }

  lemma {:induction false} FlattenCounts(parts: seq<seq<Record>>, ws: seq<WorkerState>, t: nat)
    requires |parts| == |ws| && ListsEach(parts, ws, t)
    ensures |Flatten(parts)| == ReportCount(ws, t)
  {
    if parts != [] {
      var n := |parts| - 1;
      FlattenCounts(parts[..n], ws[..n], t);
      ListSize(parts[n], ws[n].table, t);
    }
  }

  /** The record is an entry above t of one of these workers, the one its flow is sent to. */
  ghost predicate ListedFrom(x: Setting, r: Record, ws: seq<WorkerState>, t: nat)
    requires 0 < |x.hashes|
  {
    var i := x.Home(r.fid);
    i < |ws| && r.fid in ws[i].table && r.entry == ws[i].table[r.fid] && Reported(r.entry, t)
  }

  /** rs is an exact list of all these tables. */
  ghost predicate ListsAll(x: Setting, rs: seq<Record>, ws: seq<WorkerState>, t: nat)
    requires 0 < |x.hashes|
  {
    && (forall a, b :: 0 <= a < b < |rs| ==> rs[a].fid != rs[b].fid)
    && (forall a :: 0 <= a < |rs| ==> ListedFrom(x, rs[a], ws, t))
    && (forall i, f :: 0 <= i < |ws| && f in ws[i].table && Reported(ws[i].table[f], t) ==> Holds(rs, f))
  }

  ghost predicate AtHome(x: Setting, ws: seq<WorkerState>)
    requires 0 < |x.hashes|
  {
    forall i, f :: 0 <= i < |ws| && f in ws[i].table ==> x.Home(f) == i
  }

  lemma {:induction false} FlattenLists(x: Setting, parts: seq<seq<Record>>, ws: seq<WorkerState>, t: nat)
    requires x.Valid() && |parts| == |ws| && ListsEach(parts, ws, t) && AtHome(x, ws)
    ensures ListsAll(x, Flatten(parts), ws, t)
  {
    if parts != [] {
      var n := |parts| - 1;
      assert ListsEach(parts[..n], ws[..n], t) && AtHome(x, ws[..n]);
      FlattenLists(x, parts[..n], ws[..n], t);
      JoinLists(x, Flatten(parts[..n]), parts[n], ws, t);
    }
  }

  lemma JoinLists(x: Setting, before: seq<Record>, last: seq<Record>, ws: seq<WorkerState>, t: nat)
    requires x.Valid() && ws != [] && AtHome(x, ws)
    requires ListsAll(x, before, ws[..|ws| - 1], t) && Lists(last, ws[|ws| - 1].table, t)
    ensures ListsAll(x, before + last, ws, t)
  {
    var n, rs := |ws| - 1, before + last;
    forall a | 0 <= a < |before| ensures ListedFrom(x, rs[a], ws, t) && x.Home(rs[a].fid) < n {
      assert ListedFrom(x, before[a], ws[..n], t);
    }
    forall a | |before| <= a < |rs| ensures ListedFrom(x, rs[a], ws, t) && x.Home(rs[a].fid) == n {
      assert rs[a] == last[a - |before|];
    }
    HoldsEither(before, last);
    forall i, f | 0 <= i < |ws| && f in ws[i].table && Reported(ws[i].table[f], t) ensures Holds(rs, f) {
      assert i < n ==> f in ws[..n][i].table;
    }
  }

  lemma HoldsEither(rs: seq<Record>, qs: seq<Record>)
    ensures forall f :: Holds(rs, f) || Holds(qs, f) ==> Holds(rs + qs, f)
  {
    forall f | Holds(rs, f) || Holds(qs, f) ensures Holds(rs + qs, f) {
      if i :| 0 <= i < |rs| && rs[i].fid == f {
        assert (rs + qs)[i].fid == f;
      } else {
        var i :| 0 <= i < |qs| && qs[i].fid == f;
        assert (rs + qs)[|rs| + i].fid == f;
      }
    }
  }
}
