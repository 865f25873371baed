/** The adaptive threshold: its update and its behaviour over whole sequences of intervals. */
module Thresholds {
  import opened NumberTheory
  import opened Scaling

  /** t, r: reporting and early-removal thresholds; e1..e3: reports of the last three intervals, latest first. */
  datatype Control = Control(
    first: nat, t: nat, oldT: nat, r: nat, oldR: nat,
    e1: nat, e2: nat, e3: nat, noVar: nat)

  /** Three table sizes of reports before the first interval keep the threshold from falling at once. */
  function Initial(first: nat, mem: nat): Control {
    Control(first, first, first, first / 5, first / 5, mem, mem, mem, 0)
  }

  function Average(e1: nat, e2: nat, e3: nat): nat {
    (e1 + e2 + e3) / 3 + 1
  }

  /** usage > target: avg/mem > 9/10. */
  predicate OverTarget(avg: nat, mem: nat) {
    10 * avg > 9 * mem
  }

  /** Never 0 and never above the first threshold, in this order. */
  function Clip(v: nat, first: nat): nat {
    var v' := if v == 0 then 1 else v;
    if v' > first then first else v'
  }

  datatype Move = Up | Down | Hold

  function MoveOf(c: Control, avg: nat, mem: nat): Move {
    if OverTarget(avg, mem) then Up else if c.noVar >= 3 then Down else Hold
  }

  /** update_thresholds on the average of the last three report counts. */
  function Adapt(c: Control, avg: nat, mem: nat): Control
    requires 0 < mem
  {
    var d := c.(oldT := c.t, oldR := c.r);
    match MoveOf(c, avg, mem)
    case Up => d.(t := Clip(ScaledUp(c.t, avg, mem), c.first), noVar := 0)
    case Down =>
      var t := Clip(ScaledDown(c.t, avg, mem), c.first);
      d.(t := t, r := t / 5, noVar := 0)
    case Hold => d.(noVar := c.noVar + 1)
  }

  function Shift(c: Control, n: nat): Control {
    c.(e1 := n, e2 := c.e1, e3 := c.e2)
  }

  /** One interval that reports n flows. */
  function Next(c: Control, mem: nat, n: nat): Control
    requires 0 < mem
  {
    Adapt(Shift(c, n), Average(n, c.e1, c.e2), mem)
  }

  function MoveAt(c: Control, mem: nat, n: nat): Move {
    MoveOf(c, Average(n, c.e1, c.e2), mem)
  }

  function ControlRun(c: Control, mem: nat, ns: seq<nat>): Control
    requires 0 < mem
  {
    if ns == [] then c else Next(ControlRun(c, mem, ns[..|ns| - 1]), mem, ns[|ns| - 1])
  }

  // ---------- invariant ----------

  ghost predicate Inv(c: Control) {
    1 <= c.t <= c.first && c.r <= c.t / 5 && c.noVar <= 3
  }

  /** One interval keeps the invariant; it lowers the threshold only by a Down, and then strictly unless it is 1. */
  lemma NextKeepsInv(c: Control, mem: nat, n: nat)
    requires 0 < mem && Inv(c)
    ensures var d := Next(c, mem, n);
      && Inv(d) && d.first == c.first && d.oldT == c.t && d.oldR == c.r
      && (MoveAt(c, mem, n).Up? ==> c.t <= d.t && d.r == c.r)
      && (MoveAt(c, mem, n).Hold? ==> d.t == c.t && d.r == c.r)
      && (MoveAt(c, mem, n).Down? ==> 10 * d.t <= 9 * c.t || d.t == 1)
      && (d.t < c.t <==> MoveAt(c, mem, n).Down? && 1 < c.t)
  {
    var avg := Average(n, c.e1, c.e2);
    if OverTarget(avg, mem) {
      UpNeverLowers(c.t, avg, mem);
    } else {
      DownLowers(c.t, avg, mem);
    }
  }

  /** In every interval of every run: 1 <= t <= first, r <= t/5 although r is refreshed only on the way down. */
  lemma {:induction false} RunKeepsInv(first: nat, mem: nat, ns: seq<nat>)
    requires 0 < mem && 1 <= first
    ensures var c := ControlRun(Initial(first, mem), mem, ns);
      Inv(c) && c.first == first
  {
    if ns != [] {
      RunKeepsInv(first, mem, ns[..|ns| - 1]);
      NextKeepsInv(ControlRun(Initial(first, mem), mem, ns[..|ns| - 1]), mem, ns[|ns| - 1]);
    }
  }

  /** A first threshold of 0 is never left. */
  lemma {:induction false} ZeroStaysZero(mem: nat, ns: seq<nat>)
    requires 0 < mem
    ensures ControlRun(Initial(0, mem), mem, ns).t == 0 == ControlRun(Initial(0, mem), mem, ns).first
  {
    if ns != [] {
      ZeroStaysZero(mem, ns[..|ns| - 1]);
    }
  }

  // ---------- history ----------

  /** The move made in interval j of a run. */
  function MoveIn(c: Control, mem: nat, ns: seq<nat>, j: nat): Move
    requires 0 < mem && j < |ns|
  {
    MoveAt(ControlRun(c, mem, ns[..j]), mem, ns[j])
  }

  lemma MovesOfPrefix(c: Control, mem: nat, ns: seq<nat>, n: nat)
    requires 0 < mem && n <= |ns|
    ensures forall j :: 0 <= j < n ==> MoveIn(c, mem, ns[..n], j) == MoveIn(c, mem, ns, j)
  {
    assert forall j :: 0 <= j < n ==> ns[..n][..j] == ns[..j];
  }

  /** The hold counter counts the holds at the end of the run. */
  lemma {:induction false} HoldsSoFar(c: Control, mem: nat, ns: seq<nat>)
    requires 0 < mem && c.noVar == 0
    ensures var v := ControlRun(c, mem, ns).noVar;
      v <= |ns| && forall j :: |ns| - v <= j < |ns| ==> MoveIn(c, mem, ns, j).Hold?
  {
    if ns != [] {
      var before := ns[..|ns| - 1];
      HoldsSoFar(c, mem, before);
      MovesOfPrefix(c, mem, ns, |before|);
    }
  }

  /** A decrease comes after three holds, so two decreases are at least four intervals apart. */
  lemma DecreaseAfterThreeHolds(first: nat, mem: nat, ns: seq<nat>, j: nat)
    requires 0 < mem && j < |ns| && MoveIn(Initial(first, mem), mem, ns, j).Down?
    ensures 3 <= j
    ensures forall i :: j - 3 <= i < j ==> MoveIn(Initial(first, mem), mem, ns, i).Hold?
  {
    var c, before := Initial(first, mem), ns[..j];
    HoldsSoFar(c, mem, before);
    MovesOfPrefix(c, mem, ns, j);
  }

  /** Reports of interval i of a run, with the seeds before interval 0. */
  function ReportsAt(mem: nat, ns: seq<nat>, i: int): nat
    requires i < |ns|
  {
    if i < 0 then mem else ns[i]
  }

  /** The average always is that of the last three report counts. */
  lemma {:induction false} AverageOfLastThree(first: nat, mem: nat, ns: seq<nat>)
    requires 0 < mem
    ensures var c, n := ControlRun(Initial(first, mem), mem, ns), |ns|;
      && c.e1 == ReportsAt(mem, ns, n - 1)
      && c.e2 == ReportsAt(mem, ns, n - 2)
      && c.e3 == ReportsAt(mem, ns, n - 3)
  {
    if ns != [] {
      AverageOfLastThree(first, mem, ns[..|ns| - 1]);
    }
  }

  /** a is the mean of the three counts, rounded down, plus one. */
  ghost predicate MeanOf(a: nat, x: nat, y: nat, z: nat) {
    3 * (a - 1) <= x + y + z < 3 * a
  }

  lemma AverageIsMean(a: nat, x: nat, y: nat, z: nat)
    ensures MeanOf(a, x, y, z) <==> a == Average(x, y, z)
  {
  }

  /** What interval j of a run averages. */
  ghost predicate AveragedIn(mem: nat, ns: seq<nat>, j: nat, a: nat)
    requires j < |ns|
  {
    MeanOf(a, ReportsAt(mem, ns, j), ReportsAt(mem, ns, j - 1), ReportsAt(mem, ns, j - 2))
  }

  lemma AverageInRun(first: nat, mem: nat, ns: seq<nat>, j: nat, a: nat)
    requires 0 < mem && j < |ns|
    ensures var c := ControlRun(Initial(first, mem), mem, ns[..j]);
      AveragedIn(mem, ns, j, a) <==> a == Average(ns[j], c.e1, c.e2)
  {
    var c := ControlRun(Initial(first, mem), mem, ns[..j]);
    AverageOfLastThree(first, mem, ns[..j]);
    AverageIsMean(a, ns[j], c.e1, c.e2);
  }

  /** The threshold goes up exactly in the intervals whose average is over nine tenths of the table. */
  lemma {:induction false} UpIffOverTarget(first: nat, mem: nat, ns: seq<nat>, j: nat, a: nat)
    requires 0 < mem && j < |ns| && AveragedIn(mem, ns, j, a)
    ensures MoveIn(Initial(first, mem), mem, ns, j).Up? <==> 10 * a > 9 * mem
  {
    AverageInRun(first, mem, ns, j, a);
  }

  /** t scaled by the cube of average over target reaches v. */
  ghost predicate CubeReaches(t: nat, a: nat, mem: nat, v: nat) {
    v * ((9 * mem) * ((9 * mem) * (9 * mem))) <= t * ((10 * a) * ((10 * a) * (10 * a)))
  }

  /** The square of t, scaled by usage * target, is below that of r + 1. */
  ghost predicate ReachedBy(t: nat, avg: nat, mem: nat, r: nat) {
    9 * (t * t) * avg < ((r + 1) * (r + 1)) * (10 * mem)
  }

  /** The threshold with which interval j of a run begins. */
  function ThresholdAt(first: nat, mem: nat, ns: seq<nat>, j: nat): nat
    requires 0 < mem && j <= |ns|
  {
    ControlRun(Initial(first, mem), mem, ns[..j]).t
  }

  lemma IntervalOfRun(first: nat, mem: nat, ns: seq<nat>, j: nat)
    requires 0 < mem && j < |ns|
    ensures ControlRun(Initial(first, mem), mem, ns[..j + 1])
      == Next(ControlRun(Initial(first, mem), mem, ns[..j]), mem, ns[j])
  {
    assert ns[..j + 1] == ns[..j] + [ns[j]];
    NextOfRun(Initial(first, mem), mem, ns[..j], ns[j]);
  }

  lemma ClippedAtLeast(v: nat, first: nat, w: nat)
    requires 2 <= w <= first
    ensures w <= Clip(v, first) <==> w <= v
  {
  }

  /** How far an interval goes up: to t times the cube of average over target, rounded down, up to the first one. */
  lemma {:induction false} UpAmount(first: nat, mem: nat, ns: seq<nat>, j: nat, a: nat, v: nat)
    requires 0 < mem && 1 <= first && j < |ns| && AveragedIn(mem, ns, j, a)
    requires MoveIn(Initial(first, mem), mem, ns, j).Up? && 2 <= v <= first
    ensures v <= ThresholdAt(first, mem, ns, j + 1) <==> CubeReaches(ThresholdAt(first, mem, ns, j), a, mem, v)
  {
    AverageInRun(first, mem, ns, j, a);
    IntervalOfRun(first, mem, ns, j);
    RunKeepsInv(first, mem, ns[..j]);
    var t := ThresholdAt(first, mem, ns, j);
    UpReaches(t, a, mem, v);
    ClippedAtLeast(ScaledUp(t, a, mem), first, v);
  }

  /** How far an interval goes down: to t times the root of average times target, rounded down, but not to 0. */
  lemma {:induction false} DownAmount(first: nat, mem: nat, ns: seq<nat>, j: nat, a: nat, v: nat)
    requires 0 < mem && 1 <= first && j < |ns| && AveragedIn(mem, ns, j, a)
    requires MoveIn(Initial(first, mem), mem, ns, j).Down? && 1 <= v < first
    ensures ThresholdAt(first, mem, ns, j + 1) <= v <==> ReachedBy(ThresholdAt(first, mem, ns, j), a, mem, v)
  {
    AverageInRun(first, mem, ns, j, a);
    IntervalOfRun(first, mem, ns, j);
    RunKeepsInv(first, mem, ns[..j]);
    DownClipped(ThresholdAt(first, mem, ns, j), first, a, mem, v);
  }

  /** Intervals of a run up to its last decrease, that one included. */
  function UpToLastDown(c: Control, mem: nat, ns: seq<nat>): (n: nat)
    requires 0 < mem
    ensures n <= |ns|
  {
    if ns == [] then 0
    else if MoveIn(c, mem, ns, |ns| - 1).Down? then |ns|
    else UpToLastDown(c, mem, ns[..|ns| - 1])
  }

  /** The early-removal threshold is a fifth of the threshold that the last decrease set, or of the first one. */
  lemma {:induction false} EarlyRemovalOfLastDown(first: nat, mem: nat, ns: seq<nat>)
    requires 0 < mem
    ensures ControlRun(Initial(first, mem), mem, ns).r
      == ThresholdAt(first, mem, ns, UpToLastDown(Initial(first, mem), mem, ns)) / 5
  {
    if ns == [] {
      assert ns[..0] == [];
    } else {
      var before, c := ns[..|ns| - 1], Initial(first, mem);
      EarlyRemovalOfLastDown(first, mem, before);
      assert ns[..|ns|] == ns;
      var n := UpToLastDown(c, mem, before);
      assert before[..n] == ns[..n];
    }
  }

  /** The next analysis compares with the threshold t of now and the early-removal threshold of one interval ago. */
  lemma EarlyRemovalLags(first: nat, mem: nat, ns: seq<nat>)
    requires 0 < mem
    ensures ControlRun(Initial(first, mem), mem, ns).oldR
      == if ns == [] then first / 5 else ControlRun(Initial(first, mem), mem, ns[..|ns| - 1]).r
  {
  }

  // ---------- convergence ----------

  /** Every interval of the run stays within the target. */
  ghost predicate LowUsage(c: Control, mem: nat, ns: seq<nat>)
    requires 0 < mem
  {
    forall j :: 0 <= j < |ns| ==> !MoveIn(c, mem, ns, j).Up?
  }

  /** The decay promised after n intervals. */
  ghost predicate Decayed(c: Control, d: Control, n: nat) {
    var k := (c.noVar + n) / 4;
    && Inv(d) && d.noVar == (c.noVar + n) % 4
    && (d.t == 1 || (d.t + k <= c.t && Pow(10, k) * d.t <= Pow(9, k) * c.t))
  }

  /** Within the target every fourth interval goes down; after k downs t has lost k, and a tenth k times over. */
  lemma {:induction false} LowUsageDecay(c: Control, mem: nat, ns: seq<nat>)
    requires 0 < mem && Inv(c) && LowUsage(c, mem, ns)
    ensures Decayed(c, ControlRun(c, mem, ns), |ns|)
  {
    if ns != [] {
      var before := ns[..|ns| - 1];
      MovesOfPrefix(c, mem, ns, |before|);
      LowUsageDecay(c, mem, before);
      assert !MoveIn(c, mem, ns, |before|).Up?;
      assert ns[..|before|] == before;
      DecayStep(c, ControlRun(c, mem, before), mem, ns[|before|], |before|);
    }
  }

  lemma DecayStep(c: Control, d: Control, mem: nat, reports: nat, n: nat)
    requires 0 < mem && Decayed(c, d, n) && !MoveAt(d, mem, reports).Up?
    ensures Decayed(c, Next(d, mem, reports), n + 1)
  {
    NextKeepsInv(d, mem, reports);
    DecayFollows(c, d, Next(d, mem, reports), n, MoveAt(d, mem, reports).Down?);
  }

  lemma DecayFollows(c: Control, d: Control, d': Control, n: nat, down: bool)
    requires Decayed(c, d, n) && Inv(d') && (down <==> d.noVar == 3)
    requires d'.noVar == if down then 0 else d.noVar + 1
    requires if down then 10 * d'.t <= 9 * d.t || d'.t == 1 else d'.t == d.t
    ensures Decayed(c, d', n + 1)
  {
    var k := (c.noVar + n) / 4;
    assert (c.noVar + n + 1) / 4 == if down then k + 1 else k;
    if down && d.t != 1 && d'.t != 1 {
      PowerStep(k, d.t, d'.t, c.t);
    }
  }

  lemma PowerStep(k: nat, t: nat, t': nat, t0: nat)
    requires 10 * t' <= 9 * t && Pow(10, k) * t <= Pow(9, k) * t0
    ensures Pow(10, k + 1) * t' <= Pow(9, k + 1) * t0
  {
    TenthLost(Pow(10, k), Pow(9, k), t, t', t0);
  }

  lemma TenthLost(x: nat, y: nat, t: nat, t': nat, t0: nat)
    requires 10 * t' <= 9 * t && x * t <= y * t0
    ensures (10 * x) * t' <= (9 * y) * t0
  {
    MulMonotone(10 * t', 9 * t, x);
    assert (10 * x) * t' == (10 * t') * x;
    assert (9 * t) * x == 9 * (x * t);
    assert (9 * y) * t0 == 9 * (y * t0);
  }

  /** Hence, within the target, the threshold is 1 after at most 4 * t intervals. */
  lemma {:induction false} LowUsageReachesOne(c: Control, mem: nat, ns: seq<nat>)
    requires 0 < mem && Inv(c) && LowUsage(c, mem, ns) && 4 * c.t <= |ns| + c.noVar + 4
    ensures ControlRun(c, mem, ns).t == 1
  {
    LowUsageDecay(c, mem, ns);
  }

  // ---------- the lag of the early-removal threshold ----------

  lemma ClippedAtMost(v: nat, first: nat, r: nat)
    requires r < first
    ensures Clip(v, first) <= r <==> 1 <= r && v <= r
  {
  }

  /** Going down reaches r. */
  lemma DownClipped(t: nat, first: nat, avg: nat, mem: nat, r: nat)
    requires 0 < mem && r < first
    ensures Clip(ScaledDown(t, avg, mem), first) <= r <==> 1 <= r && ReachedBy(t, avg, mem, r)
  {
    ClippedAtMost(ScaledDown(t, avg, mem), first, r);
    DownReaches(t, avg, mem, r);
  }

  /**
   * The next analysis compares with the early-removal threshold of one update earlier. It has caught up with the
   * threshold exactly after a Down that goes as far as that earlier value, which must not be 0.
   */
  lemma {:induction false} LagCatchesUpIff(c: Control, mem: nat, n: nat)
    requires 0 < mem && Inv(c)
    ensures var d, avg := Next(c, mem, n), Average(n, c.e1, c.e2);
      d.t <= d.oldR <==> MoveAt(c, mem, n).Down? && 1 <= c.r && ReachedBy(c.t, avg, mem, c.r)
  {
    if MoveAt(c, mem, n).Down? {
      DownClipped(c.t, c.first, Average(n, c.e1, c.e2), mem, c.r);
    } else {
      NextKeepsInv(c, mem, n);
    }
  }

  /** The first four intervals of a run without a report hold three times and go down, in a table of 4 or more. */
  lemma SilentMoves(first: nat, mem: nat)
    requires 0 < mem && 1 <= first
    ensures var c := ControlRun(Initial(first, mem), mem, [0, 0, 0]);
      && Inv(c) && c.r == first / 5 && c.e1 == c.e2 == 0
      && (MoveAt(c, mem, 0).Down? <==> 4 <= mem) && (4 <= mem ==> c.t == first)
  {
    var c0 := Initial(first, mem);
    var c1 := Next(c0, mem, 0);
    var c2 := Next(c1, mem, 0);
    NextKeepsInv(c0, mem, 0);
    NextKeepsInv(c1, mem, 0);
    NextKeepsInv(c2, mem, 0);
    ThreeSteps(c0, mem, 0, 0, 0);
  }

  /**
   * After the first four intervals without a report the early-removal threshold of the next analysis is at least its
   * threshold, so that no entry falls between the two, exactly under this condition; a first threshold of 5 and a table
   * size of 23 meet it.
   */
  lemma {:induction false} SilenceClosesEarlyRemoval(first: nat, mem: nat)
    requires 0 < mem && 1 <= first
    ensures var c := ControlRun(Initial(first, mem), mem, [0, 0, 0, 0]);
      c.t <= c.oldR <==> 4 <= mem && 5 <= first && ReachedBy(first, 1, mem, first / 5)
    ensures 5 <= first && 23 <= mem ==> ReachedBy(first, 1, mem, first / 5)
  {
    var c := ControlRun(Initial(first, mem), mem, [0, 0, 0]);
    SilentMoves(first, mem);
    LagCatchesUpIff(c, mem, 0);
    NextOfRun(Initial(first, mem), mem, [0, 0, 0], 0);
    assert [0, 0, 0] + [0] == [0, 0, 0, 0];
    if 5 <= first && 23 <= mem {
      FifthReaches(first, mem);
    }
  }

  lemma FifthReaches(first: nat, mem: nat)
    requires 23 <= mem
    ensures ReachedBy(first, 1, mem, first / 5)
  {
    var r := first / 5 + 1;
    assert first < 5 * r;
    MulMonotone2(first, first, 5 * r, 5 * r);
    assert (5 * r) * (5 * r) == 25 * (r * r);
    MulMonotone(230, 10 * mem, r * r);
    assert 0 < r * r;
  }

  lemma NextOfRun(c: Control, mem: nat, ns: seq<nat>, n: nat)
    requires 0 < mem
    ensures ControlRun(c, mem, ns + [n]) == Next(ControlRun(c, mem, ns), mem, n)
  {
    assert (ns + [n])[..|ns|] == ns;
  }

  lemma ThreeSteps(c: Control, mem: nat, a: nat, b: nat, d: nat)
    requires 0 < mem
    ensures ControlRun(c, mem, [a, b, d]) == Next(Next(Next(c, mem, a), mem, b), mem, d)
  {
    NextOfRun(c, mem, [a, b], d);
    NextOfRun(c, mem, [a], b);
    NextOfRun(c, mem, [], a);
    assert [a, b] + [d] == [a, b, d] && [a] + [b] == [a, b] && [] + [a] == [a];
  }
}
