/** The table of admitted flows. */
module FlowTable {
  import opened Base

  /** The counters of a table entry. */
  datatype Entry = Entry(dPkts: u32, dOctets: u32, cycles: u32)
  type Table = map<FlowId, Entry>

  /** The table after a packet of a flow it holds. */
  function Hit(t: Table, p: FlowUpdate): Table
    requires p.fid in t
  {
    var e := t[p.fid];
    t[p.fid := Entry(Add32(e.dPkts, 1), Add32(e.dOctets, p.dOctets), e.cycles)]
  }

  /** The table after an insertion; a map keeps the entry it has. */
  function Inserted(t: Table, p: FlowUpdate): Table {
    if p.fid in t then t else t[p.fid := Entry(1, p.dOctets, 0)]
  }

  class FlowDescriptor {
    const fid: FlowId
    var dPkts: u32
    var dOctets: u32
    var cycles: u32

    ghost function Counters(): Entry
      reads this
    {
      Entry(dPkts, dOctets, cycles)
    }

    constructor (fid: FlowId, dOctets: u32)
      ensures this.fid == fid && Counters() == Entry(0, dOctets, 0)
    {
      this.fid := fid;
      this.dPkts, this.dOctets, this.cycles := 0, dOctets, 0;
    }

    method IncrementOctets(add: u32)
      modifies this`dOctets
      ensures dOctets == (old(dOctets) + add) % TWO_TO_THE_32
    {
      dOctets := Add32(dOctets, add);
    }

    method IncrementPkts()
      modifies this`dPkts
      ensures dPkts == (old(dPkts) + 1) % TWO_TO_THE_32
    {
      dPkts := Add32(dPkts, 1);
    }
  }

  class HashTable {
    const tableSize: nat
    var fmap: map<FlowId, FlowDescriptor>

    /** A descriptor sits under its own flow, so no two entries share one. */
    ghost predicate Valid()
      reads this
    {
      forall k :: k in fmap ==> fmap[k].fid == k
    }

    ghost function Contents(): Table
      reads this, fmap.Values
    {
      map k | k in fmap :: fmap[k].Counters()
    }

    constructor (tableSize: nat)
      ensures Valid() && fmap == map[] && this.tableSize == tableSize
    {
      this.tableSize := tableSize;
      fmap := map[];
    }

    method LookupFlow(fid: FlowId) returns (found: bool)
      ensures found <==> fid in Contents()
    {
      found := fid in fmap;
    }

    /** ok is false where the original throws. */
    method UpdateTable(fup: FlowUpdate) returns (ok: bool)
      requires Valid()
      modifies if fup.fid in fmap then {fmap[fup.fid]} else {}
      ensures Valid() && fmap == old(fmap)
      ensures ok <==> fup.fid in old(Contents())
      ensures Contents() == if ok then Hit(old(Contents()), fup) else old(Contents())
      ensures ok ==> Contents()[fup.fid].dPkts == (old(Contents())[fup.fid].dPkts + 1) % TWO_TO_THE_32
      ensures ok ==> Contents()[fup.fid].dOctets == (old(Contents())[fup.fid].dOctets + fup.dOctets) % TWO_TO_THE_32
      ensures ok ==> Contents()[fup.fid].cycles == old(Contents())[fup.fid].cycles
    {
      ok := fup.fid in fmap;
      if ok {
        fmap[fup.fid].IncrementOctets(fup.dOctets);
        fmap[fup.fid].IncrementPkts();
      }
    }

    method InsertFlow(fup: FlowUpdate)
      requires Valid()
      modifies this`fmap
      ensures Valid() && fresh(fmap.Values - old(fmap.Values))
      ensures Contents() == Inserted(old(Contents()), fup)
      ensures Contents() == if fup.fid in old(Contents()) then old(Contents())
                            else old(Contents())[fup.fid := Entry(1, fup.dOctets, 0)]
    {
      var fd := new FlowDescriptor(fup.fid, fup.dOctets);
      fd.IncrementPkts();
      if fup.fid !in fmap {
        fmap := fmap[fup.fid := fd];
      }
    }
  }
}
