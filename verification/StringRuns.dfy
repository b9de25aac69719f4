/**
  Maximal runs of text units. A buffer is seen through the length of the unit that starts at each
  offset (zero where none does); no unit starts inside another one.
 */
module StringRuns {
  import opened Machine

  const MIN_UNITS: nat := 4
  const MAX_STORED: nat := 512

  type Units = seq<nat>

  ghost predicate SelfSynchronising(u: Units) {
    && (forall i {:trigger u[i]} :: 0 <= i < |u| ==> i + u[i] <= |u|)
    && (forall i, k {:trigger u[i], u[k]} :: 0 <= i < k < |u| && k < i + u[i] ==> u[k] == 0)
  }

  /** Where the units that follow one another from `i` stop. */
  ghost function RunEnd(u: Units, i: nat): (e: nat)
    requires SelfSynchronising(u) && i <= |u|
    ensures i <= e <= |u|
    ensures e == |u| || u[e] == 0
    ensures e == i <==> i == |u| || u[i] == 0
    decreases |u| - i
  {
    if i == |u| || u[i] == 0 then i else RunEnd(u, i + u[i])
  }

  /** How many they are. */
  ghost function RunUnits(u: Units, i: nat): nat
    requires SelfSynchronising(u) && i <= |u|
    decreases |u| - i
  {
    if i == |u| || u[i] == 0 then 0 else 1 + RunUnits(u, i + u[i])
  }

  /** A unit ends exactly where another one starts. */
  ghost predicate Continues(u: Units, i: nat) {
    exists j :: 0 <= j < i && j < |u| && u[j] > 0 && j + u[j] == i
  }

  /** A maximal run of at least four units starts here: nothing can be added on either side. */
  ghost predicate StartsRun(u: Units, i: nat)
    requires SelfSynchronising(u) && i <= |u|
  {
    !Continues(u, i) && MIN_UNITS <= RunUnits(u, i)
  }

  /** Start, end and unit count of the run at an offset. */
  datatype Run = Run(start: nat, end: nat, units: nat)

  ghost function RunAt(u: Units, i: nat): Run
    requires SelfSynchronising(u) && i <= |u|
  {
    Run(i, RunEnd(u, i), RunUnits(u, i))
  }

  /** Units that follow one another from `i`, by where they start and where the last one ends; none follows them. */
  ghost predicate Boundaries(u: Units, i: nat, bounds: seq<nat>) {
    && bounds != [] && bounds[0] == i
    && (forall k :: 0 <= k < |bounds| - 1 ==> bounds[k] < |u| && 0 < u[bounds[k]] && bounds[k + 1] == bounds[k] + u[bounds[k]])
    && bounds[|bounds| - 1] <= |u|
    && (bounds[|bounds| - 1] < |u| ==> u[bounds[|bounds| - 1]] == 0)
  }

  ghost function BoundariesOf(u: Units, i: nat): (bounds: seq<nat>)
    requires SelfSynchronising(u) && i <= |u|
    ensures Boundaries(u, i, bounds)
    decreases |u| - i
  {
    if i == |u| || u[i] == 0 then [i]
    else
      var rest := BoundariesOf(u, i + u[i]);
      BoundariesBefore(u, i, rest);
      [i] + rest
  }

  lemma BoundariesBefore(u: Units, i: nat, rest: seq<nat>)
    requires SelfSynchronising(u) && i < |u| && 0 < u[i] && i + u[i] <= |u| && Boundaries(u, i + u[i], rest)
    ensures Boundaries(u, i, [i] + rest)
  {
    var bounds := [i] + rest;
    assert forall k :: 0 < k < |bounds| ==> bounds[k] == rest[k - 1];
  }

  /** There is one such sequence, and it gives the end and the length of the run. */
  lemma {:induction false} RunIs(u: Units, i: nat, bounds: seq<nat>)
    requires SelfSynchronising(u) && i <= |u| && Boundaries(u, i, bounds)
    ensures bounds == BoundariesOf(u, i)
    ensures RunEnd(u, i) == bounds[|bounds| - 1] && RunUnits(u, i) == |bounds| - 1
    decreases |u| - i
  {
    hide RunEnd, RunUnits, Boundaries, BoundariesOf, SelfSynchronising;
    RunUnfolds(u, i);
    BoundariesTail(u, i, bounds);
    if |bounds| > 1 {
      RunIs(u, i + u[i], bounds[1..]);
      assert bounds[|bounds| - 1] == bounds[1..][|bounds| - 2];
    }
  }

  lemma BoundariesTail(u: Units, i: nat, bounds: seq<nat>)
    requires SelfSynchronising(u) && i <= |u| && Boundaries(u, i, bounds)
    ensures |bounds| > 1 ==> i < |u| && 0 < u[i] && i + u[i] <= |u| && Boundaries(u, i + u[i], bounds[1..])
    ensures bounds != [] && (|bounds| == 1 ==> bounds == [i] && (i == |u| || u[i] == 0))
    ensures |bounds| > 1 ==> bounds == [i] + bounds[1..]
  {
    if |bounds| > 1 {
      assert bounds[0 + 1] == bounds[0] + u[bounds[0]];
      assert forall k :: 0 <= k < |bounds| - 1 ==> bounds[1..][k] == bounds[k + 1];
    }
  }

  lemma RunUnfolds(u: Units, i: nat)
    requires SelfSynchronising(u) && i <= |u|
    ensures i == |u| || u[i] == 0 ==> RunEnd(u, i) == i && RunUnits(u, i) == 0
    ensures i < |u| && 0 < u[i] ==> RunEnd(u, i) == RunEnd(u, i + u[i]) && RunUnits(u, i) == 1 + RunUnits(u, i + u[i])
    ensures BoundariesOf(u, i) == if i == |u| || u[i] == 0 then [i] else [i] + BoundariesOf(u, i + u[i])
  {
  }

  /** All maximal runs of at least four units from `i` on, in order. */
  ghost function Runs(u: Units, i: nat): (runs: seq<Run>)
    requires SelfSynchronising(u) && i <= |u|
    ensures |runs| <= |u| - i
    decreases |u| - i
  {
    if i == |u| then []
    else (if StartsRun(u, i) then [RunAt(u, i)] else []) + Runs(u, i + 1)
  }

  /** The list holds exactly the maximal runs, each once, by ascending start. */
  lemma {:induction false} RunsExact(u: Units, i: nat)
    requires SelfSynchronising(u) && i <= |u|
    ensures forall r :: r in Runs(u, i) <==> i <= r.start <= |u| && StartsRun(u, r.start) && r == RunAt(u, r.start)
    ensures forall j, k :: 0 <= j < k < |Runs(u, i)| ==> Runs(u, i)[j].start < Runs(u, i)[k].start
    decreases |u| - i
  {
    if i < |u| {
      RunsExact(u, i + 1);
      var rest := Runs(u, i + 1);
      assert forall k :: 0 <= k < |rest| ==> rest[k] in rest;
      var head := if StartsRun(u, i) then [RunAt(u, i)] else [];
      assert Runs(u, i) == head + rest;
      assert forall r :: r in Runs(u, i) <==> r in head || r in rest;
    }
  }

  lemma RunsStep(u: Units, i: nat)
    requires SelfSynchronising(u) && i < |u|
    ensures Runs(u, i) == (if StartsRun(u, i) then [RunAt(u, i)] else []) + Runs(u, i + 1)
    ensures !StartsRun(u, i) ==> Runs(u, i) == Runs(u, i + 1)
  {
  }

  /** Offsets covered by a unit that starts before them start no run. */
  lemma {:induction false} SkipInterior(u: Units, from: nat, to: nat)
    requires SelfSynchronising(u) && from <= to <= |u|
    requires forall k :: from <= k < to ==> u[k] == 0
    ensures Runs(u, from) == Runs(u, to)
    decreases |u| - from
  {
    hide Runs;
    if from < to {
      RunsStep(u, from);
      SkipInterior(u, from + 1, to);
    }
  }

  /** Of the units that follow one another from `i`, only the first can start a run. */
  lemma {:induction false} SkipRun(u: Units, i: nat)
    requires SelfSynchronising(u) && i < |u| && u[i] > 0
    ensures Runs(u, i) == (if StartsRun(u, i) then [RunAt(u, i)] else []) + Runs(u, RunEnd(u, i))
    decreases |u| - i
  {
    hide Runs, RunAt, StartsRun, RunUnits;
    var next := i + u[i];
    RunsStep(u, i);
    SkipInterior(u, i + 1, next);
    if next < |u| && u[next] > 0 {
      SkipRun(u, next);
      NoRunAfterUnit(u, i);
    }
  }

  lemma NoRunAfterUnit(u: Units, i: nat)
    requires SelfSynchronising(u) && i < |u| && u[i] > 0
    ensures !StartsRun(u, i + u[i])
  {
    assert Continues(u, i + u[i]);
  }

  /**
    What scanning up to `i` has settled: a unit that reaches `i` or beyond continues into fewer
    than four units, so no run that is still to come was cut on its left.
   */
  ghost predicate Settled(u: Units, i: nat)
    requires SelfSynchronising(u) && i <= |u|
  {
    forall j {:trigger u[j]} :: 0 <= j < i && u[j] > 0 && i <= j + u[j] ==> RunUnits(u, j + u[j]) < MIN_UNITS
  }

  /** Units before the end of a chain end inside it. */
  lemma {:induction false} ChainEnds(u: Units, i: nat, j: nat)
    requires SelfSynchronising(u) && i <= j < |u| && j < RunEnd(u, i) && u[j] > 0
    ensures j + u[j] <= RunEnd(u, i)
    decreases |u| - i
  {
    if j >= i + u[i] {
      ChainEnds(u, i + u[i], j);
    }
  }

  lemma NothingFollows(u: Units, e: nat)
    requires SelfSynchronising(u) && e <= |u| && (e == |u| || u[e] == 0)
    ensures RunUnits(u, e) == 0
  {
  }

  /** A run that is taken could not have been extended on its left. */
  lemma TakenRunIsMaximal(u: Units, i: nat)
    requires SelfSynchronising(u) && i < |u| && Settled(u, i) && MIN_UNITS <= RunUnits(u, i)
    ensures StartsRun(u, i)
  {
    hide RunUnits, RunEnd, SelfSynchronising;
  }

  /** Scanning resumes settled behind a run. */
  lemma SettledBehindRun(u: Units, i: nat)
    requires SelfSynchronising(u) && i < |u| && u[i] > 0 && Settled(u, i)
    ensures Settled(u, RunEnd(u, i))
  {
    hide RunUnits, RunEnd, Continues, StartsRun;
    var e := RunEnd(u, i);
    NothingFollows(u, e);
    forall j | 0 <= j < e && u[j] > 0 && e <= j + u[j]
      ensures RunUnits(u, j + u[j]) < MIN_UNITS
    {
      UnitAtChainEnd(u, i, j);
    }
  }

  /** A unit that reaches the end of a chain ends there, or started before the chain. */
  lemma UnitAtChainEnd(u: Units, i: nat, j: nat)
    requires SelfSynchronising(u) && i < |u| && u[i] > 0
    requires j < RunEnd(u, i) && u[j] > 0 && RunEnd(u, i) <= j + u[j]
    ensures j + u[j] == RunEnd(u, i)
  {
    hide RunEnd;
    if j >= i {
      ChainEnds(u, i, j);
    }
  }

  lemma SettledAfterStep(u: Units, i: nat)
    requires SelfSynchronising(u) && i < |u| && Settled(u, i) && RunUnits(u, i) < MIN_UNITS
    ensures Settled(u, i + 1)
    ensures Runs(u, i) == Runs(u, i + 1)
  {
  }
}
