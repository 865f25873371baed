/** How far the octets of a table entry are from the octets its flow sent. */
module Measurement {
  import opened Base
  import opened NumberTheory
  import opened FilterSpec
  import opened FlowTable
  import opened Worker
  import opened WorkerRuns
  import opened Admission

  /** Octets of f lost to the filter before f was admitted. */
  function Missed(k: Config, w: WorkerState, ps: seq<FlowUpdate>, f: FlowId): nat
    requires Shaped(k.hs, w.counters)
  {
    if ps == [] then 0
    else
      var before, p := ps[..|ps| - 1], ps[|ps| - 1];
      Missed(k, w, before, f) + if p.fid == f && Drops(k, Run(k, w, before), p) then p.dOctets else 0
  }

  /** Entries start an interval with no octets: they are survivors of the last clean. */
  ghost predicate NoOctets(table: Table) {
    forall f :: f in table ==> table[f].dOctets == 0
  }

  /** In state v an entry of f counts, modulo 2^32, the octets sent less those missed; a survivor misses none. */
  ghost predicate Counts(v: WorkerState, f: FlowId, survivor: bool, sent: nat, missed: nat) {
    && missed <= sent
    && (survivor ==> f in v.table && missed == 0)
    && (f in v.table ==> v.table[f].dOctets == (sent - missed) % TWO_TO_THE_32)
    && (f !in v.table ==> missed == sent)
  }

  lemma CountsStep(k: Config, v: WorkerState, p: FlowUpdate, f: FlowId, survivor: bool, sent: nat, missed: nat)
    requires Shaped(k.hs, v.counters) && Counts(v, f, survivor, sent, missed)
    ensures Counts(Svc(k, v, p), f, survivor,
      sent + (if p.fid == f then p.dOctets else 0),
      missed + if p.fid == f && Drops(k, v, p) then p.dOctets else 0)
  {
    if p.fid == f && f in v.table {
      ModAdd(sent - missed, p.dOctets, TWO_TO_THE_32);
    } else if p.fid == f && !Drops(k, v, p) {
      ModUnique(p.dOctets, 0, TWO_TO_THE_32, p.dOctets);
    }
  }

  /** After every run the entry of a flow counts what the flow sent less what the filter missed. */
  lemma {:induction false} EntryOctets(k: Config, table: Table, ps: seq<FlowUpdate>, f: FlowId)
    requires NoOctets(table)
    ensures var w := Cleaned(k, table);
      Counts(Run(k, w, ps), f, f in table, Octets(ps, f), Missed(k, w, ps, f))
  {
    if ps != [] {
      var before := ps[..|ps| - 1];
      EntryOctets(k, table, before, f);
      var w := Cleaned(k, table);
      CountsStep(k, Run(k, w, before), ps[|ps| - 1], f, f in table, Octets(before, f), Missed(k, w, before, f));
    }
  }

  /** Number of packets of f in ps. */
  function PacketCount(ps: seq<FlowUpdate>, f: FlowId): nat {
    if ps == [] then 0 else PacketCount(ps[..|ps| - 1], f) + if ps[|ps| - 1].fid == f then 1 else 0
  }

  /** Number of packets of f that the filter dropped. */
  function MissedPackets(k: Config, w: WorkerState, ps: seq<FlowUpdate>, f: FlowId): nat
    requires Shaped(k.hs, w.counters)
  {
    if ps == [] then 0
    else
      var before, p := ps[..|ps| - 1], ps[|ps| - 1];
      MissedPackets(k, w, before, f) + if p.fid == f && Drops(k, Run(k, w, before), p) then 1 else 0
  }

  /** Packets and cycles that the entry of f has when the run begins; a flow that is not there has none. */
  function PacketsBefore(table: Table, f: FlowId): nat {
    if f in table then table[f].dPkts else 0
  }

  function CyclesBefore(table: Table, f: FlowId): u32 {
    if f in table then table[f].cycles else 0
  }

  /** In state v an entry of f counts, modulo 2^32, the packets before, and those sent less those missed. */
  ghost predicate CountsPackets(v: WorkerState, f: FlowId, table: Table, sent: nat, missed: nat) {
    && missed <= sent && (f in table ==> f in v.table) && (f !in v.table ==> missed == sent)
    && (f in v.table ==>
         && v.table[f].dPkts == (PacketsBefore(table, f) + sent - missed) % TWO_TO_THE_32
         && v.table[f].cycles == CyclesBefore(table, f))
  }

  lemma CountsPacketsStep(k: Config, v: WorkerState, p: FlowUpdate, f: FlowId, table: Table, sent: nat, missed: nat)
    requires Shaped(k.hs, v.counters) && CountsPackets(v, f, table, sent, missed)
    ensures CountsPackets(Svc(k, v, p), f, table,
      sent + (if p.fid == f then 1 else 0), missed + if p.fid == f && Drops(k, v, p) then 1 else 0)
  {
    if p.fid == f && f in v.table {
      ModAdd(PacketsBefore(table, f) + sent - missed, 1, TWO_TO_THE_32);
    }
  }

  /** After every run the packets of an entry are those it had and those of its flow that the filter did not drop. */
  lemma {:induction false} EntryPackets(k: Config, table: Table, ps: seq<FlowUpdate>, f: FlowId)
    ensures var w := Cleaned(k, table);
      CountsPackets(Run(k, w, ps), f, table, PacketCount(ps, f), MissedPackets(k, w, ps, f))
  {
    var w := Cleaned(k, table);
    if ps == [] {
      if f in table {
        ModUnique(table[f].dPkts, 0, TWO_TO_THE_32, table[f].dPkts);
      }
    } else {
      var before := ps[..|ps| - 1];
      EntryPackets(k, table, before, f);
      CountsPacketsStep(k, Run(k, w, before), ps[|ps| - 1], f, table,
                        PacketCount(before, f), MissedPackets(k, w, before, f));
    }
  }

  /** Packets and octets that the entry of f counts after ps: octets of this run, packets of the entry's whole life. */
  ghost function CountedPackets(k: Config, w: WorkerState, ps: seq<FlowUpdate>, f: FlowId): u32
    requires Shaped(k.hs, w.counters)
  {
    (PacketsBefore(w.table, f) + PacketCount(ps, f) - MissedPackets(k, w, ps, f)) % TWO_TO_THE_32
  }

  ghost function CountedOctets(k: Config, w: WorkerState, ps: seq<FlowUpdate>, f: FlowId): u32
    requires Shaped(k.hs, w.counters)
  {
    (Octets(ps, f) - Missed(k, w, ps, f)) % TWO_TO_THE_32
  }

  /** The whole entry after a run; without one, nothing was counted. */
  ghost predicate EntryIs(after: Table, f: FlowId, packets: u32, octets: u32, cycles: u32) {
    if f in after then after[f] == Entry(packets, octets, cycles) else octets == 0
  }

  lemma {:induction false} EntryAfterRun(k: Config, w: WorkerState, ps: seq<FlowUpdate>, f: FlowId)
    requires w == Cleaned(k, w.table) && NoOctets(w.table)
    ensures EntryIs(Run(k, w, ps).table, f, CountedPackets(k, w, ps, f), CountedOctets(k, w, ps, f),
                    CyclesBefore(w.table, f))
  {
    EntryOctets(k, w.table, ps, f);
    EntryPackets(k, w.table, ps, f);
  }

  /** A reported count is never too high, whatever the rule. */
  lemma NeverOverReported(k: Config, table: Table, ps: seq<FlowUpdate>, f: FlowId)
    requires NoOctets(table) && f in Run(k, Cleaned(k, table), ps).table
    ensures Run(k, Cleaned(k, table), ps).table[f].dOctets <= Octets(ps, f)
  {
    EntryOctets(k, table, ps, f);
    var x := Octets(ps, f) - Missed(k, Cleaned(k, table), ps, f);
    assert x % TWO_TO_THE_32 <= x;
  }

  /** For a flow within 32 bits the count is what the filter did not miss. */
  lemma {:induction false} ExactUpToMissed(k: Config, table: Table, ps: seq<FlowUpdate>, f: FlowId)
    requires NoOctets(table) && f in Run(k, Cleaned(k, table), ps).table && Octets(ps, f) < TWO_TO_THE_32
    ensures Run(k, Cleaned(k, table), ps).table[f].dOctets + Missed(k, Cleaned(k, table), ps, f) == Octets(ps, f)
    ensures f in table ==> Missed(k, Cleaned(k, table), ps, f) == 0
  {
    EntryOctets(k, table, ps, f);
    var x := Octets(ps, f) - Missed(k, Cleaned(k, table), ps, f);
    ModUnique(x, 0, TWO_TO_THE_32, x);
  }

  /** Documented rule: the filter misses at most the threshold of any flow. */
  lemma {:induction false} MissedIsBounded(k: Config, table: Table, ps: seq<FlowUpdate>, f: FlowId)
    requires NoOctets(table) && k.rule.Documented? && Safe(k) && 0 < |k.hs|
    ensures Missed(k, Cleaned(k, table), ps, f) <= k.threshold
  {
    var w := Cleaned(k, table);
    if ps != [] {
      var before := ps[..|ps| - 1];
      MissedIsBounded(k, table, before, f);
      if f !in Run(k, w, ps).table {
        EntryOctets(k, table, ps, f);
        NoFalseNegatives(k, table, ps, f);
        CountersStayBounded(k, w, ps);
        assert Row(k.hs, Run(k, w, ps).counters, f)[0] <= k.threshold;
      }
    }
  }

  /** Two-sided error of a count, for the documented rule. */
  lemma {:induction false} UnderReportedByAtMostThreshold(k: Config, table: Table, ps: seq<FlowUpdate>, f: FlowId)
    requires NoOctets(table) && k.rule.Documented? && Safe(k) && 0 < |k.hs|
    requires f in Run(k, Cleaned(k, table), ps).table && Octets(ps, f) < TWO_TO_THE_32
    ensures var o := Run(k, Cleaned(k, table), ps).table[f].dOctets;
      o <= Octets(ps, f) <= o + k.threshold
  {
    ExactUpToMissed(k, table, ps, f);
    MissedIsBounded(k, table, ps, f);
  }

  /** The code itself, in a run that lowers no counter, has the same two-sided error. */
  lemma {:induction false} CodeUnderReportsByAtMostThreshold(k: Config, table: Table, ps: seq<FlowUpdate>, f: FlowId)
    requires NoOctets(table) && k.rule.Literal? && Safe(k) && 0 < |k.hs|
    requires NeverLowers(k, Cleaned(k, table), ps)
    requires f in Run(k, Cleaned(k, table), ps).table && Octets(ps, f) < TWO_TO_THE_32
    ensures var o := Run(k, Cleaned(k, table), ps).table[f].dOctets;
      o <= Octets(ps, f) <= o + k.threshold
  {
    RunAsDocumented(k, Cleaned(k, table), ps);
    UnderReportedByAtMostThreshold(k.(rule := Documented), table, ps, f);
  }

  /** The promise of a count for the code: whatever the packets, at most the threshold is missing. */
  ghost predicate CountsAlmostAll(hs: seq<HashFn>, threshold: u64) {
    var k := Config(Literal, hs, threshold);
    forall table, ps, f ::
      NoOctets(table) && Octets(ps, f) < TWO_TO_THE_32 && f in Run(k, Cleaned(k, table), ps).table ==>
        Octets(ps, f) <= Run(k, Cleaned(k, table), ps).table[f].dOctets + threshold
  }

  /** After ps, from the start, the entry of f counts d octets. */
  ghost predicate CountedAs(k: Config, ps: seq<FlowUpdate>, f: FlowId, d: nat) {
    var v := Run(k, Cleaned(k, map[]), ps);
    f in v.table && v.table[f].dOctets == d
  }

  /** A packet over the threshold is admitted at once, with its own octets. */
  lemma LargePacketAdmits(k: Config, ps: seq<FlowUpdate>, f: FlowId, d: u32) returns (qs: seq<FlowUpdate>)
    requires Safe(k) && k.threshold < d && f !in Run(k, Cleaned(k, map[]), ps).table
    ensures CountedAs(k, qs, f, d) && Octets(qs, f) == Octets(ps, f) + d
  {
    qs := ps + [FlowUpdate(f, d)];
    var w := Run(k, Cleaned(k, map[]), ps);
    CountersStayBounded(k, Cleaned(k, map[]), ps);
    RunAppend(k, Cleaned(k, map[]), ps, FlowUpdate(f, d));
    OctetsAppend(ps, FlowUpdate(f, d), f);
    var row := Row(k.hs, w.counters, f);
    forall i | 0 <= i < |row| ensures Check(row[i], d, k.threshold) {
      CheckMeansOver(row[i], d, k.threshold);
    }
  }

  lemma {:induction false} AgreeingStagesCount(hs: seq<HashFn>, threshold: u64)
    requires threshold <= MAX_SAFE_THRESHOLD && 0 < |hs| && StagesAgree(hs)
    ensures CountsAlmostAll(hs, threshold)
  {
    var k := Config(Literal, hs, threshold);
    forall table, ps, f | NoOctets(table) && Octets(ps, f) < TWO_TO_THE_32 && f in Run(k, Cleaned(k, table), ps).table
      ensures Octets(ps, f) <= Run(k, Cleaned(k, table), ps).table[f].dOctets + threshold
    {
      AgreementNeverLowers(k, table, ps, _ => true);
      CodeUnderReportsByAtMostThreshold(k, table, ps, f);
    }
  }

  /** f sends threshold + 1 octets unnoticed, and is admitted by a packet of as many. */
  lemma {:induction false} SharedBucketHides(k: Config, f: FlowId, g: FlowId, i: nat, j: nat)
      returns (ps: seq<FlowUpdate>)
    requires k.rule.Literal? && 4 <= k.threshold < TWO_TO_THE_32 - 1 && i < |k.hs| && j < |k.hs|
    requires Together(k.hs[i], f, g) && !Together(k.hs[j], f, g)
    ensures Octets(ps, f) == 2 * k.threshold + 2
    ensures CountedAs(k, ps, f, k.threshold + 1)
  {
    var head := SharedBucketDefeats(k, f, g, i, j, 2);
    ps := LargePacketAdmits(k, head, f, k.threshold + 1);
  }

  /** The code keeps this promise, too, exactly if all stages group the flows alike. */
  lemma {:induction false} CountsAlmostAllIff(hs: seq<HashFn>, threshold: u64)
    requires 4 <= threshold && 2 * threshold + 2 < TWO_TO_THE_32 && 0 < |hs|
    ensures CountsAlmostAll(hs, threshold) <==> StagesAgree(hs)
  {
    if StagesAgree(hs) {
      AgreeingStagesCount(hs, threshold);
    } else {
      var f, g :| !AgreeFor(hs, f, g);
      var i, j :| 0 <= i < |hs| && 0 <= j < |hs| && Together(hs[i], f, g) && !Together(hs[j], f, g);
      var ps := SharedBucketHides(Config(Literal, hs, threshold), f, g, i, j);
      assert NoOctets(map[]);
    }
  }
}
