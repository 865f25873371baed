/** The stages and the filter as objects that update their counter arrays in place. */
module MultistageFilter {
  import opened Base
  import opened UniversalHash
  import opened FilterSpec

  class StageContainer {
    const hfun: UniversalHashFunction
    const stageSize: nat
    const countArray: array<u64>
    var threshold: u64

    ghost predicate Valid() {
      hfun.Valid() && hfun.keySize == KEY_LEN && hfun.m == stageSize == countArray.Length
    }

    /** The stage's function as a value. */
    ghost function Fn(): HashFn
      requires Valid()
    {
      Coefficients(hfun.m, hfun.a)
    }

    constructor (hfun: UniversalHashFunction, threshold: u32)
      requires hfun.Valid() && hfun.keySize == KEY_LEN
      ensures Valid() && fresh(countArray) && this.hfun == hfun
      ensures this.threshold == InitialThreshold(threshold) == 100 * threshold
      ensures countArray[..] == seq(hfun.m, _ => 0)
    {
      this.hfun := hfun;
      stageSize := hfun.m;
      countArray := new u64[hfun.m](_ => 0);
      this.threshold := threshold * FILTER_OVERSAMPLING_FACTOR;
      new;
      assert countArray[..] == seq(hfun.m, _ => 0);
    }

    method Index(fup: FlowUpdate) returns (index: nat)
      requires Valid()
      ensures index == Bucket(Fn(), fup.fid) < countArray.Length
    {
      index := hfun.Hash(fup.fid.Key());
    }

    method Check(fup: FlowUpdate) returns (pass: bool, fieldValue: u64)
      requires Valid()
      ensures fieldValue == countArray[Bucket(Fn(), fup.fid)]
      ensures pass <==> FilterSpec.Check(fieldValue, fup.dOctets, threshold)
      ensures pass <==> (fieldValue + fup.dOctets) % TWO_TO_THE_64 > threshold
    {
      var index := Index(fup);
      fieldValue := countArray[index];
      pass := Add64(fieldValue, fup.dOctets) > threshold;
    }

    /** No counter over max is meant to move, but one below the threshold and above max is set to max. */
    method ConservativeUpdate(fup: FlowUpdate, max: u64)
      requires Valid()
      modifies countArray
      ensures var b := Bucket(Fn(), fup.fid);
        countArray[..] == old(countArray[..])[b := Raise(Literal, old(countArray[b]), fup.dOctets, threshold, max)]
      ensures var b := Bucket(Fn(), fup.fid);
        var c := old(countArray[b]);
        var val := (c + fup.dOctets) % TWO_TO_THE_64;
        && (forall i :: 0 <= i < countArray.Length && i != b ==> countArray[i] == old(countArray[i]))
        && countArray[b] == if c >= threshold then c else if val > max then max else val
    {
      var index := Index(fup);
      if countArray[index] < threshold {
        var val := Add64(countArray[index], fup.dOctets);
        countArray[index] := if val > max then max else val;
      }
    }

    method Reset()
      requires Valid()
      modifies countArray
      ensures countArray[..] == seq(stageSize, _ => 0)
    {
      for i := 0 to stageSize
        invariant forall k :: 0 <= k < i ==> countArray[k] == 0
      {
        countArray[i] := 0;
      }
    }

    method UpdateThreshold(newThreshold: u64)
      modifies this`threshold
      ensures threshold == UpdatedThreshold(newThreshold)
      ensures threshold == if newThreshold == 0 then 0 else 1
    {
      var rth := newThreshold * FILTER_OVERSAMPLING_FACTOR;
      threshold := if rth == 0 then 0 else 1;
    }
  }

  class MultistageFilter {
    const stages: seq<StageContainer>

    ghost const Repr: set<object>

    ghost predicate Valid() {
      && (forall i :: 0 <= i < |stages| ==> stages[i] in Repr && stages[i].countArray in Repr)
      && (forall i :: 0 <= i < |stages| ==> stages[i].Valid())
      && (forall i, j :: 0 <= i < j < |stages| ==> stages[i].countArray != stages[j].countArray)
      && (forall i, j :: 0 <= i < j < |stages| ==> stages[i] != stages[j])
    }

    ghost predicate SameThreshold(threshold: u64)
      requires Valid()
      reads Repr
    {
      forall i :: 0 <= i < |stages| ==> stages[i].threshold == threshold
    }

    ghost function Hashes(): seq<HashFn>
      requires Valid()
    {
      seq(|stages|, i requires 0 <= i < |stages| => stages[i].Fn())
    }

    ghost function Counts(): Counters
      requires Valid()
      reads Repr
      ensures Shaped(Hashes(), Counts())
    {
      seq(|stages|, i requires 0 <= i < |stages| reads Repr => stages[i].countArray[..])
    }

    /** hs: one hash function for each stage. */
    constructor (hs: seq<UniversalHashFunction>, threshold: u32)
      requires 0 < |hs| && forall i :: 0 <= i < |hs| ==> hs[i].Valid() && hs[i].keySize == KEY_LEN
      ensures Valid() && fresh(Repr)
      ensures SameThreshold(InitialThreshold(threshold))
      ensures |stages| == |hs| && forall i :: 0 <= i < |hs| ==> Hashes()[i] == Coefficients(hs[i].m, hs[i].a)
      ensures Counts() == Zeros(Hashes())
    {
      var ss: seq<StageContainer> := [];
      ghost var repr: set<object> := {};
      for i := 0 to |hs|
        invariant |ss| == i && fresh(repr)
        invariant forall k :: 0 <= k < i ==> ss[k] in repr && ss[k].countArray in repr
        invariant forall k :: 0 <= k < i ==> ss[k].Valid() && ss[k].threshold == InitialThreshold(threshold)
        invariant forall k :: 0 <= k < i ==> ss[k].hfun == hs[k]
        invariant forall k :: 0 <= k < i ==> ss[k].countArray[..] == seq(hs[k].m, _ => 0)
        invariant forall k, l :: 0 <= k < l < i ==> ss[k].countArray != ss[l].countArray
        invariant forall k, l :: 0 <= k < l < i ==> ss[k] != ss[l]
      {
        var stage := new StageContainer(hs[i], threshold);
        ss := ss + [stage];
        repr := repr + {stage, stage.countArray};
      }
      stages := ss;
      Repr := repr;
    }

    /** The scan of the stages: the decision, and the smallest counter read on the way to it. */
    method Scan(fup: FlowUpdate, ghost threshold: u64) returns (pass: bool, minVal: u64)
      requires Valid() && SameThreshold(threshold)
      ensures pass == Passes(Row(Hashes(), Counts(), fup.fid), fup.dOctets, threshold)
      ensures minVal == ScanMin(Row(Hashes(), Counts(), fup.fid), fup.dOctets, threshold)
    {
      ghost var row := Row(Hashes(), Counts(), fup.fid);
      var parVal := 0;
      minVal, pass := MAX_U64, true;
      for i := 0 to |stages|
        invariant pass == Passes(row[..i], fup.dOctets, threshold)
        invariant minVal == ScanMin(row[..i], fup.dOctets, threshold)
        invariant !pass ==> minVal <= parVal
      {
        ScanStep(row, fup.dOctets, threshold, i);
        if pass {
          pass, parVal := ReadStage(fup, i, threshold);
        }
        minVal := if minVal < parVal then minVal else parVal;
      }
      assert row[..|stages|] == row;
    }

    method ReadStage(fup: FlowUpdate, i: nat, ghost threshold: u64) returns (pass: bool, parVal: u64)
      requires Valid() && SameThreshold(threshold) && i < |stages|
      ensures parVal == Row(Hashes(), Counts(), fup.fid)[i]
      ensures pass == FilterSpec.Check(parVal, fup.dOctets, threshold)
    {
      pass, parVal := stages[i].Check(fup);
    }

    /** The decision and, on a drop, the conservative update of every stage. */
    method Filter(fup: FlowUpdate, ghost threshold: u64) returns (pass: bool)
      requires Valid() && SameThreshold(threshold)
      modifies Repr
      ensures SameThreshold(threshold)
      ensures pass == Passes(Row(Hashes(), old(Counts()), fup.fid), fup.dOctets, threshold)
      ensures Counts() == if pass then old(Counts())
                          else Update(Literal, Hashes(), threshold, old(Counts()), fup)
    {
      var minVal;
      pass, minVal := Scan(fup, threshold);
      if !pass {
        var parVal := Add64(minVal, fup.dOctets);
        UpdateAll(fup, parVal, threshold);
      }
    }

    method UpdateAll(fup: FlowUpdate, max: u64, ghost threshold: u64)
      requires Valid() && SameThreshold(threshold)
      requires max == Ceiling(Row(Hashes(), Counts(), fup.fid), fup.dOctets, threshold)
      modifies Repr
      ensures SameThreshold(threshold)
      ensures Counts() == Update(Literal, Hashes(), threshold, old(Counts()), fup)
    {
      ghost var after := Update(Literal, Hashes(), threshold, Counts(), fup);
      for i := 0 to |stages|
        invariant SameThreshold(threshold)
        invariant forall k :: 0 <= k < i ==> stages[k].countArray[..] == after[k]
        invariant forall k :: i <= k < |stages| ==> stages[k].countArray[..] == old(stages[k].countArray[..])
      {
        stages[i].ConservativeUpdate(fup, max);
      }
    }

    method Reset()
      requires Valid()
      modifies Repr
      ensures Counts() == Zeros(Hashes())
      ensures forall t :: old(SameThreshold(t)) ==> SameThreshold(t)
    {
      for i := 0 to |stages|
        invariant forall k :: 0 <= k < |stages| ==> stages[k].threshold == old(stages[k].threshold)
        invariant forall k :: 0 <= k < i ==> stages[k].countArray[..] == seq(stages[k].stageSize, _ => 0)
      {
        stages[i].Reset();
      }
    }

    method UpdateThreshold(newThreshold: u64)
      requires Valid()
      modifies Repr
      ensures Counts() == old(Counts())
      ensures SameThreshold(UpdatedThreshold(newThreshold))
    {
      for i := 0 to |stages|
        invariant forall k :: 0 <= k < |stages| ==> stages[k].countArray[..] == old(stages[k].countArray[..])
        invariant forall k :: 0 <= k < i ==> stages[k].threshold == UpdatedThreshold(newThreshold)
      {
        stages[i].UpdateThreshold(newThreshold);
      }
    }
  }
}
