/** A worker: the shielded filter of one share of the flows. */
module Worker {
  import opened Base
  import opened UniversalHash
  import opened FilterSpec
  import opened MultistageFilter
  import opened FlowTable

  /** What the run of a worker depends on between two analyses. */
  datatype Config = Config(rule: UpdateRule, hs: seq<HashFn>, threshold: u64)

  datatype WorkerState = WorkerState(counters: Counters, table: Table)

  /** The state after one packet: a flow in the table is shielded from the filter. */
  function Svc(k: Config, w: WorkerState, p: FlowUpdate): (r: WorkerState)
    requires Shaped(k.hs, w.counters)
    ensures Shaped(k.hs, r.counters)
  {
    if p.fid in w.table then
      w.(table := Hit(w.table, p))
    else if Passes(Row(k.hs, w.counters, p.fid), p.dOctets, k.threshold) then
      w.(table := Inserted(w.table, p))
    else
      w.(counters := Update(k.rule, k.hs, k.threshold, w.counters, p))
  }

  class Worker {
    const mfilter: MultistageFilter
    const ht: HashTable
    var threshold: u32
    var locked: bool

    ghost var Repr: set<object>

    ghost predicate Valid()
      reads this, Repr
    {
      && this in Repr && ht in Repr && ht.fmap.Values <= Repr && mfilter.Repr <= Repr
      && this !in mfilter.Repr && ht !in mfilter.Repr && ht.fmap.Values !! mfilter.Repr
      && mfilter.Valid() && ht.Valid()
    }

    ghost predicate FilterThreshold(t: u64)
      requires mfilter.Valid()
      reads mfilter.Repr
    {
      mfilter.SameThreshold(t)
    }

    ghost function Hashes(): seq<HashFn>
      requires mfilter.Valid()
    {
      mfilter.Hashes()
    }

    ghost function State(): WorkerState
      requires Valid()
      reads this, Repr
      ensures Shaped(Hashes(), State().counters)
    {
      WorkerState(mfilter.Counts(), ht.Contents())
    }

    /** Everything about a worker that an analysis sees. */
    ghost predicate Is(st: WorkerState, locked: bool, t: u64)
      reads this, Repr
    {
      Valid() && State() == st && this.locked == locked && FilterThreshold(t)
    }

    constructor (tableSize: nat, hs: seq<UniversalHashFunction>, threshold: u32)
      requires 0 < |hs| && forall i :: 0 <= i < |hs| ==> hs[i].Valid() && hs[i].keySize == KEY_LEN
      ensures Valid() && fresh(Repr) && !locked
      ensures FilterThreshold(InitialThreshold(threshold)) && this.threshold == threshold && ht.tableSize == tableSize
      ensures |Hashes()| == |hs| && forall i :: 0 <= i < |hs| ==> Hashes()[i] == Coefficients(hs[i].m, hs[i].a)
      ensures State() == WorkerState(Zeros(Hashes()), map[])
    {
      this.threshold, locked := threshold, false;
      mfilter := new MultistageFilter(hs, threshold);
      ht := new HashTable(tableSize);
      new;
      Repr := {this, ht} + mfilter.Repr;
    }

    method LockWorker()
      requires Valid() && !locked
      modifies this`locked
      ensures locked && Valid() && State() == old(State())
    {
      locked := true;
    }

    method UnlockWorker()
      requires Valid() && locked
      modifies this`locked
      ensures !locked && Valid() && State() == old(State())
    {
      locked := false;
    }

    method ProcessPacket(fup: FlowUpdate, ghost t: u64)
      requires Valid() && !locked && FilterThreshold(t)
      modifies Repr
      ensures Valid() && !locked && FilterThreshold(t) && fresh(Repr - old(Repr))
      ensures State() == Svc(Config(Literal, Hashes(), t), old(State()), fup)
      ensures threshold == old(threshold)
    {
      LockWorker();
      var found := ht.LookupFlow(fup.fid);
      if found {
        Shield(fup);
      } else {
        FilterOrAdmit(fup, t);
      }
      UnlockWorker();
    }

    method Shield(fup: FlowUpdate)
      requires Valid() && fup.fid in State().table
      modifies ht.fmap[fup.fid]
      ensures Valid() && Repr == old(Repr)
      ensures State() == old(State()).(table := Hit(old(State()).table, fup))
    {
      assert ht.fmap[fup.fid] in Repr;
      var ok := ht.UpdateTable(fup);
      assert ok;
    }

    method FilterOrAdmit(fup: FlowUpdate, ghost t: u64)
      requires Valid() && FilterThreshold(t) && fup.fid !in State().table
      modifies this`Repr, mfilter.Repr, ht`fmap
      ensures Valid() && FilterThreshold(t) && fresh(Repr - old(Repr))
      ensures State() == Svc(Config(Literal, Hashes(), t), old(State()), fup)
    {
      ghost var table := ht.Contents();
      var pass := mfilter.Filter(fup, t);
      assert ht.Contents() == table;
      if pass {
        Insert(fup);
      }
    }

    method Insert(fup: FlowUpdate)
      requires Valid()
      modifies this`Repr, ht`fmap
      ensures Valid() && fresh(Repr - old(Repr))
      ensures State() == old(State()).(table := Inserted(old(State()).table, fup))
    {
      ht.InsertFlow(fup);
      Repr := Repr + ht.fmap.Values;
    }

    /** The part of an analysis that touches one worker's filter. */
    method RenewFilter(newThreshold: u64, ghost st: WorkerState, ghost t: u64)
      requires Is(st, true, t)
      modifies mfilter.Repr, this`threshold
      ensures Repr == old(Repr)
      ensures Is(st.(counters := Zeros(Hashes())), true, UpdatedThreshold(newThreshold))
    {
      UpdateFilterThreshold(newThreshold);
      CleanFilter(UpdatedThreshold(newThreshold));
    }

    /** The worker's own copy is an unsigned int. */
    method UpdateFilterThreshold(newThreshold: u64)
      requires Valid()
      modifies mfilter.Repr, this`threshold
      ensures Valid() && Repr == old(Repr) && locked == old(locked)
      ensures FilterThreshold(UpdatedThreshold(newThreshold)) && threshold == newThreshold % TWO_TO_THE_32
      ensures State() == old(State())
    {
      mfilter.UpdateThreshold(newThreshold);
      threshold := newThreshold % TWO_TO_THE_32;
    }

    method CleanFilter(ghost t: u64)
      requires Valid() && FilterThreshold(t)
      modifies mfilter.Repr
      ensures Valid() && Repr == old(Repr) && locked == old(locked) && FilterThreshold(t)
      ensures State() == old(State()).(counters := Zeros(Hashes()))
    {
      mfilter.Reset();
    }
  }
}
