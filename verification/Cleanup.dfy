/** What an analysis reports of a table and what it leaves in it. */
module Cleanup {
  import opened Base
  import opened FlowTable
  import opened Worker

  /** A reported flow: the copy of its descriptor. */
  datatype Record = Record(fid: FlowId, entry: Entry)

  predicate Reported(e: Entry, t: nat) {
    e.dOctets > t
  }

  /** A newcomer of this interval between the two thresholds stays for one more. */
  predicate EarlySurvivor(e: Entry, t: nat, r: nat) {
    e.cycles == 0 && r < e.dOctets <= t
  }

  /** There is no such newcomer exactly if the two thresholds meet. */
  lemma BandIsEmptyIff(t: u32, r: nat)
    ensures (forall e :: !EarlySurvivor(e, t, r)) <==> t <= r
  {
    assert r < t ==> EarlySurvivor(Entry(1, t, 0), t, r);
  }

  predicate Survives(e: Entry, t: nat, r: nat) {
    Reported(e, t) || EarlySurvivor(e, t, r)
  }

  /** What the visit of one entry adds to the results. */
  function Recorded(f: FlowId, e: Entry, t: nat): seq<Record> {
    if Reported(e, t) then [Record(f, e)] else []
  }

  lemma Associates(a: seq<Record>, b: seq<Record>, c: seq<Record>)
    ensures (a + b) + c == a + (b + c)
  {
  }

  /** All records of several lists, one list after the other. */
  function Flatten(parts: seq<seq<Record>>): seq<Record> {
    if parts == [] then [] else Flatten(parts[..|parts| - 1]) + parts[|parts| - 1]
  }

  lemma FlattenAppend(parts: seq<seq<Record>>, part: seq<Record>)
    ensures Flatten(parts + [part]) == Flatten(parts) + part
  {
    assert (parts + [part])[..|parts|] == parts;
  }

  /** A survivor starts the next interval with no octets; its packet count goes on. */
  function Aged(e: Entry): Entry {
    Entry(e.dPkts, 0, Add32(e.cycles, 1))
  }

  function Clean(table: Table, t: nat, r: nat): Table {
    map f | f in table && Survives(table[f], t, r) :: Aged(table[f])
  }

  ghost predicate Holds(rs: seq<Record>, f: FlowId) {
    exists i :: 0 <= i < |rs| && rs[i].fid == f
  }

  /** rs lists the entries of table above t, each once. */
  ghost predicate Lists(rs: seq<Record>, table: Table, t: nat) {
    && (forall i, j :: 0 <= i < j < |rs| ==> rs[i].fid != rs[j].fid)
    && (forall i :: 0 <= i < |rs| ==> rs[i].fid in table && rs[i].entry == table[rs[i].fid] && Reported(rs[i].entry, t))
    && (forall f :: f in table && Reported(table[f], t) ==> Holds(rs, f))
  }

  /** Visiting one more entry keeps the list exact for the part of the table visited. */
  lemma ListsVisited(rs: seq<Record>, table: Table, pending: set<FlowId>, f: FlowId, t: nat)
    requires Lists(rs, table - pending, t) && f in pending && f in table
    ensures Lists(rs + Recorded(f, table[f], t), table - (pending - {f}), t)
  {
    var e := table[f];
    var rs' := rs + Recorded(f, e, t);
    var seen := table - (pending - {f});
    forall g | g in seen && Reported(seen[g], t) ensures Holds(rs', g) {
      if g == f {
        assert rs'[|rs|].fid == f;
      } else {
        assert g in table - pending;
        var i :| 0 <= i < |rs| && rs[i].fid == g;
        assert rs'[i].fid == g;
      }
    }
  }

  ghost function ReportedFlows(table: Table, t: nat): set<FlowId> {
    set f | f in table && Reported(table[f], t)
  }

  /** Any order of visiting the table gives as many records as there are flows above t. */
  lemma {:induction false} ListSize(rs: seq<Record>, table: Table, t: nat)
    requires Lists(rs, table, t)
    ensures |rs| == |ReportedFlows(table, t)|
    decreases |rs|
  {
    if rs == [] {
      assert ReportedFlows(table, t) == {};
    } else {
      var n := |rs| - 1;
      var f := rs[n].fid;
      var table' := table - {f};
      forall g | g in table' && Reported(table'[g], t)
        ensures Holds(rs[..n], g)
      {
        var i :| 0 <= i < |rs| && rs[i].fid == g;
        assert rs[..n][i].fid == g;
      }
      ListSize(rs[..n], table', t);
      assert ReportedFlows(table, t) == ReportedFlows(table', t) + {f};
    }
  }

  /** parts are exact lists of the first workers' tables, one for each. */
  ghost predicate ListsEach(parts: seq<seq<Record>>, ws: seq<WorkerState>, t: nat) {
    |parts| <= |ws| && forall i :: 0 <= i < |parts| ==> Lists(parts[i], ws[i].table, t)
  }

  lemma ListsOneMore(parts: seq<seq<Record>>, part: seq<Record>, ws: seq<WorkerState>, t: nat)
    requires ListsEach(parts, ws, t) && |parts| < |ws| && Lists(part, ws[|parts|].table, t)
    ensures ListsEach(parts + [part], ws, t)
  {
  }

  /** Whatever the order of visiting, there is a list; any will do. */
  lemma SomeList(table: Table, t: nat) returns (rs: seq<Record>)
    ensures Lists(rs, table, t)
  {
    var pending := table.Keys;
    rs := [];
    while pending != {}
      invariant pending <= table.Keys && Lists(rs, table - pending, t)
      decreases |pending|
    {
      var f :| f in pending;
      ListsVisited(rs, table, pending, f, t);
      rs, pending := rs + Recorded(f, table[f], t), pending - {f};
    }
    assert table - {} == table;
  }
}
