/** What an interval leaves of an entry: which flows stay in their tables, with what, and what is in a record. */
module Survival {
  import opened Base
  import opened NumberTheory
  import opened FlowTable
  import opened Worker
  import opened WorkerRuns
  import opened Sketch
  import opened Measurement
  import opened Cleanup
  import opened Thresholds
  import opened System
  import opened Intervals

  lemma {:induction false} ShareHasAllPackets(x: Setting, ps: seq<FlowUpdate>, f: FlowId)
    requires 0 < |x.hashes|
    ensures PacketCount(Share(x, ps, x.Home(f)), f) == PacketCount(ps, f)
  {
    if ps != [] {
      var before, p := ps[..|ps| - 1], ps[|ps| - 1];
      ShareHasAllPackets(x, before, f);
      ShareAppend(x, before, p, x.Home(f));
      assert (Share(x, before, x.Home(f)) + [p])[..|Share(x, before, x.Home(f))|] == Share(x, before, x.Home(f));
      InitAndLast(ps);
    }
  }

  /** Octets and packets of f that the filter drops in the interval with the packets ps, begun in state s. */
  ghost function MissedOctetsIn(x: Setting, s: State, ps: seq<FlowUpdate>, f: FlowId): nat
    requires x.Valid() && Fits(x, s)
  {
    Missed(ConfigOf(x, s, x.Home(f)), s.ws[x.Home(f)], Share(x, ps, x.Home(f)), f)
  }

  ghost function MissedPacketsIn(x: Setting, s: State, ps: seq<FlowUpdate>, f: FlowId): nat
    requires x.Valid() && Fits(x, s)
  {
    MissedPackets(ConfigOf(x, s, x.Home(f)), s.ws[x.Home(f)], Share(x, ps, x.Home(f)), f)
  }

  /** What the entry of f counts when the interval ends. */
  ghost function OctetsCounted(x: Setting, s: State, ps: seq<FlowUpdate>, f: FlowId): u32
    requires x.Valid() && Fits(x, s)
  {
    CountedOctets(ConfigOf(x, s, x.Home(f)), s.ws[x.Home(f)], Share(x, ps, x.Home(f)), f)
  }

  ghost function PacketsCounted(x: Setting, s: State, ps: seq<FlowUpdate>, f: FlowId): u32
    requires x.Valid() && Fits(x, s)
  {
    CountedPackets(ConfigOf(x, s, x.Home(f)), s.ws[x.Home(f)], Share(x, ps, x.Home(f)), f)
  }

  /** Modulo 2^32: the octets sent in the interval, and the packets of the entry and interval, less those dropped. */
  lemma {:induction false} CountedAre(x: Setting, s: State, ps: seq<FlowUpdate>, f: FlowId)
    requires x.Valid() && Fits(x, s)
    ensures OctetsCounted(x, s, ps, f) == (Octets(ps, f) - MissedOctetsIn(x, s, ps, f)) % TWO_TO_THE_32
    ensures PacketsCounted(x, s, ps, f) == (PacketsBefore(TableOf(x, s, f), f) + PacketCount(ps, f)
                                            - MissedPacketsIn(x, s, ps, f)) % TWO_TO_THE_32
  {
    ShareHasAllOctets(x, ps, f);
    ShareHasAllPackets(x, ps, f);
  }

  /** The entry of f when the interval ends; without one, nothing of f was counted. */
  lemma {:induction false} EntryAtEnd(x: Setting, s: State, ps: seq<FlowUpdate>, f: FlowId)
    requires x.Valid() && Fits(x, s) && AtStart(x, s)
    ensures EntryIs(TableOf(x, RunAll(x, s, Packets(ps)), f), f, PacketsCounted(x, s, ps, f),
                    OctetsCounted(x, s, ps, f), CyclesBefore(TableOf(x, s, f), f))
  {
    var i := x.Home(f);
    AtHomeAfter(x, s, ps, i);
    EntryAfterRun(ConfigOf(x, s, i), s.ws[i], Share(x, ps, i), f);
  }

  lemma AtHomeAfter(x: Setting, s: State, ps: seq<FlowUpdate>, i: nat)
    requires x.Valid() && Fits(x, s) && AtStart(x, s) && i < |s.ws|
    ensures s.ws[i] == Cleaned(ConfigOf(x, s, i), s.ws[i].table) && NoOctets(s.ws[i].table)
    ensures RunAll(x, s, Packets(ps)).ws[i] == Run(ConfigOf(x, s, i), s.ws[i], Share(x, ps, i))
  {
    WorkersRunApart(x, s, ps);
  }

  /** Every record of the interval's report: the packets of the entry's life, the octets of the interval, the cycles. */
  lemma {:induction false} RecordIs(x: Setting, s: State, ps: seq<FlowUpdate>, rs: seq<Record>, a: nat)
    requires x.Valid() && Fits(x, s) && AtStart(x, s)
    requires ListsReport(x, RunAll(x, s, Packets(ps)), rs) && a < |rs|
    ensures var f := rs[a].fid;
      rs[a].entry == Entry(PacketsCounted(x, s, ps, f), OctetsCounted(x, s, ps, f), CyclesBefore(TableOf(x, s, f), f))
  {
    EntryAtEnd(x, s, ps, rs[a].fid);
  }

  /** The state after the interval and its analysis. */
  ghost function AfterInterval(x: Setting, s: State, ps: seq<FlowUpdate>): (r: State)
    requires x.Valid() && Fits(x, s)
    ensures Fits(x, r)
  {
    Step(x, RunAll(x, s, Packets(ps)), Cut)
  }

  /**
   * Which entries an analysis leaves: those counted for more than the threshold, and those without cycles counted for
   * more than the lagging early-removal threshold. The packets go on, the octets start anew, a cycle is added.
   */
  lemma {:induction false} KeptByAnalysis(x: Setting, s: State, ps: seq<FlowUpdate>, f: FlowId)
    requires x.Valid() && Fits(x, s) && AtStart(x, s)
    ensures var o, cycles, table := OctetsCounted(x, s, ps, f), CyclesBefore(TableOf(x, s, f), f),
                                    TableOf(x, AfterInterval(x, s, ps), f);
      && (f in table <==> s.control.t < o || (cycles == 0 && s.control.oldR < o))
      && (f in table ==> table[f] == Entry(PacketsCounted(x, s, ps, f), 0, (cycles + 1) % TWO_TO_THE_32))
  {
    EntryAtEnd(x, s, ps, f);
    WorkersRunApart(x, s, ps);
  }

  lemma CyclesGrow(x: Setting, s: State, ps: seq<FlowUpdate>, f: FlowId, n: nat)
    requires x.Valid() && Fits(x, s) && AtStart(x, s) && n + 1 < TWO_TO_THE_32
    requires CyclesBefore(TableOf(x, s, f), f) <= n
    ensures var table := TableOf(x, AfterInterval(x, s, ps), f); f in table ==> 1 <= table[f].cycles <= n + 1
  {
    ModUnique(CyclesBefore(TableOf(x, s, f), f) + 1, 0, TWO_TO_THE_32, CyclesBefore(TableOf(x, s, f), f) + 1);
    KeptByAnalysis(x, s, ps, f);
  }

  /** Until the cycles wrap, an entry that an interval begins with has survived between one analysis and all of them. */
  lemma {:induction false} EntriesHaveCycles(x: Setting, first: u32, pss: seq<seq<FlowUpdate>>, f: FlowId)
    requires x.Valid() && 1 <= first && |pss| < TWO_TO_THE_32
    ensures var table := TableOf(x, AfterIntervals(x, Start(x, first), pss), f);
      f in table ==> 1 <= table[f].cycles <= |pss|
  {
    if pss != [] {
      var before, ps := pss[..|pss| - 1], pss[|pss| - 1];
      EntriesHaveCycles(x, first, before, f);
      EveryIntervalStartsClean(x, first, before);
      CyclesGrow(x, AfterIntervals(x, Start(x, first), before), ps, f, |before|);
    }
  }

  /** Hence a flow is left in its table exactly if it was counted for more than t, or is new and for more than r. */
  lemma {:induction false} KeptExactly(x: Setting, first: u32, pss: seq<seq<FlowUpdate>>,
                                       ps: seq<FlowUpdate>, f: FlowId)
    requires x.Valid() && 1 <= first && |pss| < TWO_TO_THE_32
    ensures var s := AfterIntervals(x, Start(x, first), pss);
      var o := OctetsCounted(x, s, ps, f);
      f in TableOf(x, AfterInterval(x, s, ps), f) <==>
        s.control.t < o || (f !in TableOf(x, s, f) && s.control.oldR < o)
  {
    EveryIntervalStartsClean(x, first, pss);
    EntriesHaveCycles(x, first, pss, f);
    KeptByAnalysis(x, AfterIntervals(x, Start(x, first), pss), ps, f);
  }

  // ---------- the first interval without collisions ----------

  /** In the first interval a flow that meets no other in its buckets is admitted above 100 times the threshold. */
  lemma {:induction false} AloneInFirstInterval(x: Setting, first: u32, ps: seq<FlowUpdate>, f: FlowId)
    requires x.Valid() && 1 <= first
    requires var h := x.Home(f);
      forall i :: 0 <= i < |x.hashes[h]| ==> Private(x.hashes[h][i], Share(x, ps, h), f)
    ensures f in TableOf(x, RunAll(x, Start(x, first), Packets(ps)), f) <==> 100 * first < Octets(ps, f)
  {
    var s, i := Start(x, first), x.Home(f);
    StartIsAtStart(x, first);
    AtHomeAfter(x, s, ps, i);
    ShareHasAllOctets(x, ps, f);
    PrivateFlowsAreExact(ConfigOf(x, s, i), map[], Share(x, ps, i), f);
  }
}
