/** The emitter's choice of a worker. */
module Dispatch {
  import opened Base

  class LoadBalancer {
    var victim: nat

    constructor ()
      ensures victim == 0
    {
      victim := 0;
    }

    method SetVictim(target: nat)
      modifies this
      ensures victim == target
    {
      victim := target;
    }
  }

  /** hash_combine folded over the fields of the flow identifier; combine stands for the library's mixing step. */
  function SeedOf(combine: (u64, nat) -> u64, f: FlowId): u64 {
    combine(combine(combine(combine(combine(0, f.dstaddr), f.dstport), f.prot), f.srcaddr), f.srcport)
  }

  /** A mixing step that tells seeds apart, and field values of up to 32 bits. */
  ghost predicate Mixes(combine: (u64, nat) -> u64) {
    && (forall s: u64, t: u64, v: nat :: combine(s, v) == combine(t, v) ==> s == t)
    && (forall s: u64, v: nat, w: nat ::
         v < TWO_TO_THE_32 && w < TWO_TO_THE_32 && combine(s, v) == combine(s, w) ==> v == w)
  }

  predicate DifferInOneField(f: FlowId, g: FlowId) {
    f != g && g in {f.(dstaddr := g.dstaddr), f.(dstport := g.dstport), f.(prot := g.prot),
                    f.(srcaddr := g.srcaddr), f.(srcport := g.srcport)}
  }

  /** Every field matters: with such a mixing step a change of any one of them changes the seed. */
  lemma {:induction false} EveryFieldMatters(combine: (u64, nat) -> u64, f: FlowId, g: FlowId)
    requires Mixes(combine) && DifferInOneField(f, g)
    ensures SeedOf(combine, f) != SeedOf(combine, g)
  {
    var f1, g1 := combine(0, f.dstaddr), combine(0, g.dstaddr);
    var f2, g2 := combine(f1, f.dstport), combine(g1, g.dstport);
    var f3, g3 := combine(f2, f.prot), combine(g2, g.prot);
    var f4, g4 := combine(f3, f.srcaddr), combine(g3, g.srcaddr);
    assert (f1 == g1) == (f.dstaddr == g.dstaddr);
    assert f.dstport == g.dstport ==> (f2 == g2) == (f1 == g1);
    assert f.prot == g.prot ==> (f3 == g3) == (f2 == g2);
    assert f.srcaddr == g.srcaddr ==> (f4 == g4) == (f3 == g3);
  }

  /** The order of the fields, seen from a mixing step that appends a decimal digit. */
  lemma {:induction false} FieldOrder(combine: (u64, nat) -> u64, f: FlowId)
    requires forall s: u64, v: nat :: combine(s, v) == (10 * s + v) % TWO_TO_THE_64
    ensures SeedOf(combine, f) == 10000 * f.dstaddr + 1000 * f.dstport + 100 * f.prot + 10 * f.srcaddr + f.srcport
  {
    var s1 := combine(0, f.dstaddr);
    assert s1 == f.dstaddr;
    var s2 := combine(s1, f.dstport);
    assert s2 == 10 * f.dstaddr + f.dstport;
    var s3 := combine(s2, f.prot);
    assert s3 == 100 * f.dstaddr + 10 * f.dstport + f.prot;
    var s4 := combine(s3, f.srcaddr);
    assert s4 == 1000 * f.dstaddr + 100 * f.dstport + 10 * f.prot + f.srcaddr;
  }

  class Emitter {
    const numWorkers: nat
    const lb: LoadBalancer
    const combine: (u64, nat) -> u64

    constructor (workers: nat, lb: LoadBalancer, combine: (u64, nat) -> u64)
      ensures numWorkers == (if workers != 0 then workers else 1) && this.lb == lb && this.combine == combine
    {
      numWorkers := if workers != 0 then workers else 1;
      this.lb := lb;
      this.combine := combine;
    }

    /** The victim depends on the flow alone, so all packets of a flow go to one worker. */
    method DispatchPolicy(fup: FlowUpdate)
      requires 0 < numWorkers
      modifies lb
      ensures lb.victim == SeedOf(combine, fup.fid) % numWorkers < numWorkers
    {
      var e := fup.fid;
      var seed: u64 := 0;
      seed := combine(seed, e.dstaddr);
      seed := combine(seed, e.dstport);
      seed := combine(seed, e.prot);
      seed := combine(seed, e.srcaddr);
      seed := combine(seed, e.srcport);
      lb.SetVictim(seed % numWorkers);
    }
  }
}
