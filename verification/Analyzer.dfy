/** The analyzer: thresholds as fields, tables cleaned in place, and the interval cut over all workers. */
module Analyzer {
  import opened Base
  import opened FilterSpec
  import opened FlowTable
  import opened Worker
  import opened Cleanup
  import opened Scaling
  import opened Thresholds

  class Analyzer {
    const workers: seq<Worker>
    const flowMemSize: nat
    const first_t_threshold: nat
    var t_threshold: nat
    var old_t_threshold: nat
    var r_threshold: nat
    var old_r_threshold: nat
    var e1: nat
    var e2: nat
    var e3: nat
    var noVarIntervals: nat

    ghost predicate Valid()
      reads this
    {
      0 < flowMemSize && t_threshold <= first_t_threshold < TWO_TO_THE_64
    }

    ghost function Control(): Control
      reads this
    {
      Thresholds.Control(first_t_threshold, t_threshold, old_t_threshold, r_threshold, old_r_threshold,
                         e1, e2, e3, noVarIntervals)
    }

    constructor (workers: seq<Worker>)
      requires |workers| > 0 && workers[0].ht.tableSize > 0
      ensures this.workers == workers && flowMemSize == workers[0].ht.tableSize
      ensures Valid() && Control() == Initial(workers[0].threshold, flowMemSize)
      ensures first_t_threshold == t_threshold == workers[0].threshold
      ensures r_threshold == old_r_threshold == t_threshold / 5
      ensures e1 == e2 == e3 == flowMemSize && noVarIntervals == 0
    {
      this.workers := workers;
      var mem, t: nat := workers[0].ht.tableSize, workers[0].threshold;
      flowMemSize := mem;
      e1, e2, e3, noVarIntervals := mem, mem, mem, 0;
      first_t_threshold, t_threshold, old_t_threshold := t, t, t;
      r_threshold, old_r_threshold := t / 5, t / 5;
    }

    method UpdateThresholds(entriesUsedAvg: nat)
      requires Valid()
      modifies this
      ensures Valid()
      ensures Control() == Adapt(old(Control()), entriesUsedAvg, flowMemSize)
      ensures old_t_threshold == old(t_threshold) && old_r_threshold == old(r_threshold)
      ensures noVarIntervals == if 10 * entriesUsedAvg > 9 * flowMemSize || old(noVarIntervals) >= 3 then 0
                                else old(noVarIntervals) + 1
      ensures r_threshold == if 10 * entriesUsedAvg <= 9 * flowMemSize && old(noVarIntervals) >= 3
                             then t_threshold / 5 else old(r_threshold)
    {
      old_t_threshold := t_threshold;
      old_r_threshold := r_threshold;
      if OverTarget(entriesUsedAvg, flowMemSize) {
        t_threshold := ScaledUp(t_threshold, entriesUsedAvg, flowMemSize);
        if t_threshold == 0 { t_threshold := 1; }
        if t_threshold > first_t_threshold { t_threshold := first_t_threshold; }
        noVarIntervals := 0;
      } else if noVarIntervals >= 3 {
        noVarIntervals := 0;
        t_threshold := ScaledDown(t_threshold, entriesUsedAvg, flowMemSize);
        if t_threshold == 0 { t_threshold := 1; }
        if t_threshold > first_t_threshold { t_threshold := first_t_threshold; }
        r_threshold := t_threshold / 5;
      } else {
        noVarIntervals := noVarIntervals + 1;
      }
    }

    /** Visits the entries in an arbitrary order, erasing, ageing and reporting them on the way. */
    method CheckCleanHashTable(ht: HashTable, results: seq<Record>) returns (out: seq<Record>)
      requires ht.Valid()
      modifies ht`fmap, ht.fmap.Values
      ensures ht.Valid() && ht.fmap.Values <= old(ht.fmap.Values)
      ensures ht.Contents() == Clean(old(ht.Contents()), old_t_threshold, old_r_threshold)
      ensures results <= out && Lists(out[|results|..], old(ht.Contents()), old_t_threshold)
    {
      ghost var start, m, seen := ht.Contents(), ht.fmap, [];
      var pending := ht.fmap.Keys;
      out := results;
      while pending != {}
        invariant Visited(ht, m, start, pending)
        invariant out == results + seen && Lists(seen, start - pending, old_t_threshold)
        decreases |pending|
      {
        var k :| k in pending;
        out := VisitNext(ht, k, out, m, start, pending);
        seen := SeenNext(results, seen, k, start, pending);
        pending := pending - {k};
      }
      VisitedAll(ht, m, start);
      assert start - {} == start && out[|results|..] == seen;
    }

    /** The list of the entries visited, with the one visited next. */
    lemma SeenNext(results: seq<Record>, seen: seq<Record>, k: FlowId, start: Table, pending: set<FlowId>)
        returns (now: seq<Record>)
      requires Lists(seen, start - pending, old_t_threshold) && k in pending && k in start
      ensures Lists(now, start - (pending - {k}), old_t_threshold)
      ensures results + now == (results + seen) + Recorded(k, start[k], old_t_threshold)
    {
      var added := Recorded(k, start[k], old_t_threshold);
      ListsVisited(seen, start, pending, k, old_t_threshold);
      Associates(results, seen, added);
      now := seen + added;
    }

    lemma VisitedAll(ht: HashTable, m: map<FlowId, FlowDescriptor>, start: Table)
      requires Visited(ht, m, start, {})
      ensures ht.Valid() && ht.fmap.Values <= m.Values
      ensures ht.Contents() == Clean(start, old_t_threshold, old_r_threshold)
    {
    }

    /** A step of the iteration within the whole sweep: only the entry visited changes. */
    method VisitNext(ht: HashTable, k: FlowId, results: seq<Record>,
                     ghost m: map<FlowId, FlowDescriptor>, ghost start: Table, ghost pending: set<FlowId>)
        returns (out: seq<Record>)
      requires Visited(ht, m, start, pending) && k in pending
      modifies ht`fmap, m[k]
      ensures Visited(ht, m, start, pending - {k})
      ensures out == results + Recorded(k, start[k], old_t_threshold)
    {
      assert ht.fmap[k] == m[k];
      out := VisitEntry(ht, k, results);
    }

    /** m and start are the table before the sweep; the entries outside pending have been visited. */
    ghost predicate Visited(ht: HashTable, m: map<FlowId, FlowDescriptor>, start: Table, pending: set<FlowId>)
      reads this, ht, m.Values
    {
      && ht.Valid() && m.Keys == start.Keys && pending <= ht.fmap.Keys <= m.Keys
      && (forall k :: k in m ==> m[k].fid == k)
      && (forall k :: k in ht.fmap ==> ht.fmap[k] == m[k])
      && (forall k :: k in pending ==> m[k].Counters() == start[k])
      && (forall k :: k in m && k !in pending ==>
           if Survives(start[k], old_t_threshold, old_r_threshold)
           then k in ht.fmap && m[k].Counters() == Aged(start[k]) else k !in ht.fmap)
    }

    /** One step of the iteration: the entry under k is kept, reported and kept, or deleted. */
    method VisitEntry(ht: HashTable, k: FlowId, results: seq<Record>) returns (out: seq<Record>)
      requires ht.Valid() && k in ht.fmap
      modifies ht`fmap, ht.fmap[k]
      ensures ht.Valid()
      ensures var e := old(ht.fmap[k].Counters());
        && out == results + Recorded(k, e, old_t_threshold)
        && ht.fmap == (if Survives(e, old_t_threshold, old_r_threshold) then old(ht.fmap) else old(ht.fmap) - {k})
        && (k in ht.fmap ==> ht.fmap[k].Counters() == Aged(e))
        && (k in ht.fmap <==>
             e.dOctets > old_t_threshold || (e.cycles == 0 && old_r_threshold < e.dOctets <= old_t_threshold))
        && (k in ht.fmap ==> ht.fmap[k].Counters() == Entry(e.dPkts, 0, (e.cycles + 1) % TWO_TO_THE_32))
        && out == results + if e.dOctets > old_t_threshold then [Record(k, e)] else []
    {
      var fd := ht.fmap[k];
      out := results;
      if fd.cycles == 0 && fd.dOctets > old_r_threshold && fd.dOctets <= old_t_threshold {
        fd.cycles := Add32(fd.cycles, 1);
        fd.dOctets := 0;
      } else if fd.cycles >= 0 && fd.dOctets > old_t_threshold {
        out := out + [Record(fd.fid, Entry(fd.dPkts, fd.dOctets, fd.cycles))];
        fd.cycles := Add32(fd.cycles, 1);
        fd.dOctets := 0;
      } else {
        ht.fmap := ht.fmap - {k};
      }
    }

    // ---------- the interval cut over all workers ----------

    /** reprs are the workers' objects; no two workers share one, nor any with the analyzer. */
    ghost predicate Own(reprs: seq<set<object>>)
      reads workers
    {
      && |reprs| == |workers|
      && (forall i :: 0 <= i < |reprs| ==> workers[i].Repr == reprs[i] && workers[i] in reprs[i] && this !in reprs[i])
      && (forall i, j :: 0 <= i < j < |reprs| ==> reprs[i] !! reprs[j])
    }

    static ghost function Union(reprs: seq<set<object>>): set<object> {
      set i, o | 0 <= i < |reprs| && o in reprs[i] :: o
    }

    /** Workers lo..hi are in the states st, all locked or all unlocked, with one filter threshold. */
    ghost predicate At(lo: nat, hi: nat, st: seq<WorkerState>, locked: bool, threshold: u64)
      requires lo <= hi <= |workers| == |st|
      reads workers, set w, o | w in workers && o in w.Repr :: o
    {
      forall i :: lo <= i < hi ==> workers[i].Is(st[i], locked, threshold)
    }

    lemma AtExtends(hi: nat, st: seq<WorkerState>, locked: bool, threshold: u64)
      requires hi < |workers| == |st| && At(0, hi, st, locked, threshold)
      requires workers[hi].Is(st[hi], locked, threshold)
      ensures At(0, hi + 1, st, locked, threshold)
    {
    }

    method LockOne(i: nat, ghost reprs: seq<set<object>>, ghost st: seq<WorkerState>, ghost threshold: u64)
      requires Own(reprs) && i < |workers| == |st|
      requires At(0, i, st, true, threshold) && At(i, |workers|, st, false, threshold)
      modifies reprs[i]
      ensures Own(reprs)
      ensures At(0, i + 1, st, true, threshold) && At(i + 1, |workers|, st, false, threshold)
    {
      assert workers[i].Is(st[i], false, threshold);
      workers[i].LockWorker();
      AtExtends(i, st, true, threshold);
    }

    method LockAll(ghost reprs: seq<set<object>>, ghost st: seq<WorkerState>, ghost threshold: u64)
      requires Own(reprs) && |st| == |workers| && At(0, |workers|, st, false, threshold)
      modifies Union(reprs)
      ensures Own(reprs) && At(0, |workers|, st, true, threshold)
      ensures Control() == old(Control())
    {
      for i := 0 to |workers|
        invariant Own(reprs) && Control() == old(Control())
        invariant At(0, i, st, true, threshold) && At(i, |workers|, st, false, threshold)
      {
        LockOne(i, reprs, st, threshold);
      }
    }

    method CleanOne(i: nat, results: seq<Record>, ghost reprs: seq<set<object>>,
                    ghost st: seq<WorkerState>, ghost threshold: u64)
        returns (out: seq<Record>, ghost part: seq<Record>)
      requires Own(reprs) && i < |workers| == |st|
      requires At(0, i, Swept(st), true, threshold) && At(i, |workers|, st, true, threshold)
      modifies reprs[i]
      ensures Own(reprs)
      ensures At(0, i + 1, Swept(st), true, threshold) && At(i + 1, |workers|, st, true, threshold)
      ensures out == results + part && Lists(part, st[i].table, old_t_threshold)
    {
      assert workers[i].Is(st[i], true, threshold);
      out := CleanWorker(workers[i], results, st[i], threshold);
      part := out[|results|..];
      AtExtends(i, Swept(st), true, threshold);
    }

    method CleanWorker(w: Worker, results: seq<Record>, ghost st: WorkerState, ghost threshold: u64)
        returns (out: seq<Record>)
      requires w.Is(st, true, threshold) && this !in w.Repr
      modifies w.ht`fmap, w.ht.fmap.Values
      ensures w.Repr == old(w.Repr)
      ensures w.Is(SweptOne(st), true, threshold)
      ensures results <= out && Lists(out[|results|..], st.table, old_t_threshold)
    {
      out := CheckCleanHashTable(w.ht, results);
    }

    ghost function SweptOne(w: WorkerState): WorkerState
      reads this
    {
      w.(table := Clean(w.table, old_t_threshold, old_r_threshold))
    }

    /** The states once every table has been cleaned. */
    ghost function Swept(st: seq<WorkerState>): (r: seq<WorkerState>)
      reads this
      ensures |r| == |st| && forall i :: 0 <= i < |st| ==> r[i] == SweptOne(st[i])
    {
      seq(|st|, i requires 0 <= i < |st| reads this => SweptOne(st[i]))
    }

    method CleanAll(ghost reprs: seq<set<object>>, ghost st: seq<WorkerState>, ghost threshold: u64)
        returns (results: seq<Record>, ghost parts: seq<seq<Record>>)
      requires Own(reprs) && |st| == |workers| && At(0, |workers|, st, true, threshold)
      modifies Union(reprs)
      ensures Own(reprs) && At(0, |workers|, Swept(st), true, threshold)
      ensures |parts| == |workers| && results == Flatten(parts)
      ensures ListsEach(parts, st, old_t_threshold)
      ensures Control() == old(Control())
    {
      results, parts := [], [];
      ghost var swept := Swept(st);
      for i := 0 to |workers|
        invariant Own(reprs) && swept == Swept(st) && Control() == old(Control())
        invariant At(0, i, swept, true, threshold) && At(i, |workers|, st, true, threshold)
        invariant |parts| == i && results == Flatten(parts)
        invariant ListsEach(parts, st, old_t_threshold)
      {
        ghost var part;
        results, part := CleanOne(i, results, reprs, st, threshold);
        FlattenAppend(parts, part);
        ListsOneMore(parts, part, st, old_t_threshold);
        parts := parts + [part];
      }
    }

    /** The states once every filter has been emptied too. */
    ghost function Emptied(st: seq<WorkerState>): (r: seq<WorkerState>)
      requires |st| == |workers| && forall i :: 0 <= i < |workers| ==> workers[i].mfilter.Valid()
      ensures |r| == |st|
      ensures forall i :: 0 <= i < |st| ==> r[i] == st[i].(counters := Zeros(workers[i].Hashes()))
    {
      seq(|st|, i requires 0 <= i < |st| => st[i].(counters := Zeros(workers[i].Hashes())))
    }

    method RenewAll(t: u64, ghost reprs: seq<set<object>>, ghost st: seq<WorkerState>, ghost threshold: u64)
      requires Own(reprs) && |st| == |workers| && At(0, |workers|, st, true, threshold)
      requires forall i :: 0 <= i < |workers| ==> workers[i].mfilter.Valid()
      modifies Union(reprs)
      ensures Own(reprs) && At(0, |workers|, Emptied(st), true, UpdatedThreshold(t))
      ensures Control() == old(Control())
    {
      for i := 0 to |workers|
        invariant Own(reprs) && Control() == old(Control())
        invariant At(0, i, Emptied(st), true, UpdatedThreshold(t)) && At(i, |workers|, st, true, threshold)
      {
        RenewOne(i, t, reprs, st, threshold);
      }
    }

    method RenewOne(i: nat, t: u64, ghost reprs: seq<set<object>>, ghost st: seq<WorkerState>, ghost threshold: u64)
      requires Own(reprs) && i < |workers| == |st|
      requires forall j :: 0 <= j < |workers| ==> workers[j].mfilter.Valid()
      requires At(0, i, Emptied(st), true, UpdatedThreshold(t)) && At(i, |workers|, st, true, threshold)
      modifies reprs[i]
      ensures Own(reprs)
      ensures At(0, i + 1, Emptied(st), true, UpdatedThreshold(t)) && At(i + 1, |workers|, st, true, threshold)
    {
      assert workers[i].Is(st[i], true, threshold);
      workers[i].RenewFilter(t, st[i], threshold);
      AtExtends(i, Emptied(st), true, UpdatedThreshold(t));
    }

    method UnlockOne(i: nat, ghost reprs: seq<set<object>>, ghost st: seq<WorkerState>, ghost threshold: u64)
      requires Own(reprs) && i < |workers| == |st|
      requires At(0, i, st, false, threshold) && At(i, |workers|, st, true, threshold)
      modifies reprs[i]
      ensures Own(reprs)
      ensures At(0, i + 1, st, false, threshold) && At(i + 1, |workers|, st, true, threshold)
    {
      assert workers[i].Is(st[i], true, threshold);
      workers[i].UnlockWorker();
      AtExtends(i, st, false, threshold);
    }

    method UnlockAll(ghost reprs: seq<set<object>>, ghost st: seq<WorkerState>, ghost threshold: u64)
      requires Own(reprs) && |st| == |workers| && At(0, |workers|, st, true, threshold)
      modifies Union(reprs)
      ensures Own(reprs) && At(0, |workers|, st, false, threshold)
      ensures Control() == old(Control())
    {
      for i := 0 to |workers|
        invariant Own(reprs) && Control() == old(Control())
        invariant At(0, i, st, false, threshold) && At(i, |workers|, st, true, threshold)
      {
        UnlockOne(i, reprs, st, threshold);
      }
    }

    /** The counts move back by one interval, and a new one starts from 0, before any lock is taken. */
    method ShiftCounts(ghost reprs: seq<set<object>>, ghost st: seq<WorkerState>, ghost threshold: u64)
      requires Own(reprs) && |st| == |workers| && At(0, |workers|, st, false, threshold)
      modifies this
      ensures Own(reprs) && At(0, |workers|, st, false, threshold)
      ensures Control() == Shift(old(Control()), 0)
    {
      e1, e2, e3 := 0, e1, e2;
    }

    /** The thresholds from the number of reports, with all workers locked. */
    method Retarget(n: nat, ghost reprs: seq<set<object>>, ghost st: seq<WorkerState>, ghost threshold: u64)
      requires Valid() && Own(reprs) && |st| == |workers| && At(0, |workers|, st, true, threshold) && e1 == 0
      modifies this
      ensures Valid() && Own(reprs) && At(0, |workers|, st, true, threshold)
      ensures Control() == Adapt(old(Control()).(e1 := n), Average(n, old(e2), old(e3)), flowMemSize)
    {
      e1 := e1 + n;
      UpdateThresholds(Average(e1, e2, e3));
    }

    /** Clean, retarget and renew, with all workers locked. */
    method Cut(ghost reprs: seq<set<object>>, ghost st: seq<WorkerState>, ghost threshold: u64)
        returns (results: seq<Record>, ghost parts: seq<seq<Record>>)
      requires Valid() && Own(reprs) && |st| == |workers| && At(0, |workers|, st, true, threshold)
      requires old_t_threshold == t_threshold && e1 == 0
      requires forall i :: 0 <= i < |workers| ==> workers[i].mfilter.Valid()
      modifies this, Union(reprs)
      ensures Valid() && Own(reprs)
      ensures At(0, |workers|, AfterCut(st, old(t_threshold), old(old_r_threshold)), true,
                 UpdatedThreshold(t_threshold))
      ensures Control() == Adapt(old(Control()).(e1 := |results|), Average(|results|, old(e2), old(e3)), flowMemSize)
      ensures |parts| == |workers| && results == Flatten(parts)
      ensures ListsEach(parts, st, old(t_threshold))
    {
      ghost var swept := Swept(st);
      results, parts := CleanAll(reprs, st, threshold);
      Retarget(|results|, reprs, swept, threshold);
      RenewAll(t_threshold, reprs, swept, threshold);
      assert Emptied(swept) == AfterCut(st, old(t_threshold), old(old_r_threshold));
    }

    ghost function AfterCut(st: seq<WorkerState>, t: nat, r: nat): (s: seq<WorkerState>)
      requires |st| == |workers| && forall i :: 0 <= i < |workers| ==> workers[i].mfilter.Valid()
      ensures |s| == |st|
    {
      seq(|st|, i requires 0 <= i < |st| =>
        WorkerState(Zeros(workers[i].Hashes()), Clean(st[i].table, t, r)))
    }

    /** st: the states of the workers; threshold: their common filter threshold; parts: the results by worker. */
    method DoBoundedAnalysis(ghost reprs: seq<set<object>>, ghost st: seq<WorkerState>, ghost threshold: u64)
        returns (results: seq<Record>, ghost parts: seq<seq<Record>>)
      requires Valid() && Own(reprs) && |st| == |workers| && At(0, |workers|, st, false, threshold)
      requires forall i :: 0 <= i < |workers| ==> workers[i].mfilter.Valid()
      modifies this, Union(reprs)
      ensures Valid() && Own(reprs)
      ensures Control() == Next(old(Control()), flowMemSize, |results|)
      ensures At(0, |workers|, AfterCut(st, old(t_threshold), old(old_r_threshold)), false,
                 UpdatedThreshold(t_threshold))
      ensures |parts| == |workers| && results == Flatten(parts)
      ensures ListsEach(parts, st, old(t_threshold))
    {
      ghost var c, after := Control(), AfterCut(st, t_threshold, old_r_threshold);
      ShiftCounts(reprs, st, threshold);
      LockAll(reprs, st, threshold);
      RecordThreshold(reprs, st, threshold);
      results, parts := Cut(reprs, st, threshold);
      NextIgnoresOldT(c, flowMemSize, |results|);
      UnlockAll(reprs, after, UpdatedThreshold(t_threshold));
    }

    method RecordThreshold(ghost reprs: seq<set<object>>, ghost st: seq<WorkerState>, ghost threshold: u64)
      requires Own(reprs) && |st| == |workers| && At(0, |workers|, st, true, threshold)
      modifies this
      ensures Own(reprs) && At(0, |workers|, st, true, threshold)
      ensures Control() == old(Control()).(oldT := old(t_threshold))
    {
      old_t_threshold := t_threshold;
    }
  }

  /** Assigning the counts and the old threshold ahead of the update makes no difference to it. */
  lemma NextIgnoresOldT(c: Control, mem: nat, n: nat)
    requires 0 < mem
    ensures Adapt(Shift(c, 0).(oldT := c.t, e1 := n), Average(n, c.e1, c.e2), mem) == Next(c, mem, n)
  {
  }
}
