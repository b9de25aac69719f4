/** The narrow and wide string scanners and their capped merge. */
module StringScan {
  import opened Machine
  import opened StringRuns
  import Utf8

  type Bytes = seq<u8>

  datatype Hit = Hit(offset: nat, text: Bytes, wide: bool, textTruncated: bool)

  // ---------------------------------------------------------------------------
  // Narrow text.

  ghost function NarrowUnits(d: Bytes): (u: Units)
    ensures |u| == |d| && SelfSynchronising(u)
    ensures forall i {:trigger u[i]} :: 0 <= i < |d| ==> u[i] == Utf8.Unit(d[i..])
  {
    var u := seq(|d|, i requires 0 <= i < |d| => Utf8.Unit(d[i..]));
    NarrowSynchronises(d, u);
    u
  }

  lemma NarrowSynchronises(d: Bytes, u: Units)
    requires |u| == |d| && forall i {:trigger u[i]} :: 0 <= i < |d| ==> u[i] == Utf8.Unit(d[i..])
    ensures SelfSynchronising(u)
  {
    hide Utf8.Unit;
    forall i, k | 0 <= i < k < |u| && k < i + u[i]
      ensures u[k] == 0
    {
      Utf8.SelfSynchronising(d[i..], k - i);
      assert d[i..][k - i..] == d[k..];
    }
  }

  /** The last unit boundary of a run that keeps the stored text within its cap. */
  ghost function StoreEnd(u: Units, start: nat, p: nat): nat
    requires SelfSynchronising(u) && start <= p <= |u|
    decreases |u| - p
  {
    if p < |u| && u[p] > 0 && p + u[p] - start <= MAX_STORED then StoreEnd(u, start, p + u[p]) else p
  }

  /** It is a boundary of the run, within the cap, and the next boundary is not. */
  lemma {:induction false} StoreEndLongest(u: Units, start: nat, p: nat)
    requires SelfSynchronising(u) && start <= p <= |u| && p - start <= MAX_STORED
    ensures p <= StoreEnd(u, start, p) <= RunEnd(u, p)
    ensures StoreEnd(u, start, p) - start <= MAX_STORED
    ensures RunEnd(u, StoreEnd(u, start, p)) == RunEnd(u, p)
    ensures StoreEnd(u, start, p) < RunEnd(u, p) ==>
            StoreEnd(u, start, p) + u[StoreEnd(u, start, p)] - start > MAX_STORED
    decreases |u| - p
  {
    if p < |u| && u[p] > 0 && p + u[p] - start <= MAX_STORED {
      StoreEndLongest(u, start, p + u[p]);
    }
  }

  ghost function NarrowHit(d: Bytes, r: Run): Hit
    requires r.start <= |d|
  {
    var u := NarrowUnits(d);
    StoreEndLongest(u, r.start, r.start);
    var stored := StoreEnd(u, r.start, r.start);
    Hit(r.start, d[r.start..stored], false, stored < r.end)
  }

  ghost function NarrowHits(d: Bytes, runs: seq<Run>): (hits: seq<Hit>)
    requires forall k :: 0 <= k < |runs| ==> runs[k].start <= |d|
    ensures |hits| == |runs| && forall k :: 0 <= k < |runs| ==> hits[k] == NarrowHit(d, runs[k])
  {
    seq(|runs|, k requires 0 <= k < |runs| => NarrowHit(d, runs[k]))
  }

  /** Every narrow string of the buffer. */
  ghost function AllNarrow(d: Bytes): (hits: seq<Hit>)
    ensures |hits| <= |d|
    ensures forall k :: 0 <= k < |hits| ==> !hits[k].wide
  {
    RunsExact(NarrowUnits(d), 0);
    var runs := Runs(NarrowUnits(d), 0);
    assert forall k :: 0 <= k < |runs| ==> runs[k] in runs;
    NarrowHits(d, runs)
  }

  function Take<T>(s: seq<T>, n: nat): seq<T> {
    if n < |s| then s[..n] else s
  }

  /** What one more unit, or the lack of one, does to the measures of a run. */
  lemma MeasureStep(u: Units, start: nat, p: nat)
    requires SelfSynchronising(u) && start <= p < |u|
    ensures p + u[p] <= |u|
    ensures u[p] == 0 ==> RunEnd(u, p) == p && RunUnits(u, p) == 0 && StoreEnd(u, start, p) == p
    ensures u[p] > 0 ==> RunEnd(u, p) == RunEnd(u, p + u[p]) && RunUnits(u, p) == 1 + RunUnits(u, p + u[p])
    ensures u[p] > 0 ==>
            StoreEnd(u, start, p) == if p + u[p] - start <= MAX_STORED then StoreEnd(u, start, p + u[p]) else p
  {
  }

  lemma MeasureEnd(u: Units, start: nat)
    requires SelfSynchronising(u) && start <= |u|
    ensures RunEnd(u, |u|) == |u| && RunUnits(u, |u|) == 0 && StoreEnd(u, start, |u|) == |u|
  {
  }

  /** Measures one run: its end, its units and the end of its stored prefix. */
  method MeasureNarrow(d: Bytes, start: nat) returns (end: nat, units: nat, storeEnd: nat)
    requires start <= |d|
    ensures var u := NarrowUnits(d);
            end == RunEnd(u, start) && units == RunUnits(u, start) && storeEnd == StoreEnd(u, start, start)
  {
    hide RunEnd, RunUnits, StoreEnd, NarrowUnits, SelfSynchronising, Utf8.Unit;
    ghost var u := NarrowUnits(d);
    MeasureEnd(u, start);
    end, units, storeEnd := start, 0, start;
    while end < |d|
      invariant start <= storeEnd <= end <= |d|
      invariant RunEnd(u, end) == RunEnd(u, start) && units + RunUnits(u, end) == RunUnits(u, start)
      invariant if storeEnd == end then StoreEnd(u, start, end) == StoreEnd(u, start, start)
                else storeEnd == StoreEnd(u, start, start) && end - start > MAX_STORED
      decreases |d| - end
    {
      var unit := Utf8.PrintableUtf8Unit(d[end..]);
      assert unit == u[end];
      MeasureStep(u, start, end);
      if unit == 0 { break; }
      if end + unit - start <= MAX_STORED {
        storeEnd := end + unit;
      }
      end := end + unit;
      units := units + 1;
    }
  }

  method ScanNarrow(buffer: Option<Bytes>, limit: nat) returns (hits: seq<Hit>)
    ensures hits == if buffer.None? then [] else Take(AllNarrow(buffer.value), limit)
  {
    hide Runs, RunEnd, RunUnits, StoreEnd, Settled, StartsRun, NarrowHit, NarrowHits, AllNarrow;
    if buffer.None? || |buffer.value| == 0 || limit == 0 {
      if buffer.Some? { NoBytesNoRuns(buffer.value); }
      return [];
    }
    var d := buffer.value;
    ghost var u := NarrowUnits(d);
    hits := [];
    ghost var done: seq<Run> := [];
    var i := 0;
    SettledStart(u);
    NoNarrowHits(d);
    while i < |d|
      invariant i <= |d| && |hits| < limit && Settled(u, i)
      invariant Runs(u, 0) == done + Runs(u, i)
      invariant (forall k :: 0 <= k < |done| ==> done[k].start <= |d|) && hits == NarrowHits(d, done)
      decreases |d| - i
    {
      var end, units, storeEnd := MeasureNarrow(d, i);
      NextRun(u, i, units, end);
      if units >= MIN_UNITS {
        NarrowHitsAppend(d, done, RunAt(u, i));
        hits := hits + [Hit(i, d[i..storeEnd], false, storeEnd < end)];
        done := done + [RunAt(u, i)];
        if |hits| >= limit {
          TakePrefix(d, done, Runs(u, end), limit);
          return;
        }
      }
      i := if end == i then i + 1 else end;
    }
    NoRunsLeft(u);
    TakePrefix(d, done, [], limit);
  }

  lemma NoNarrowHits(d: Bytes)
    ensures NarrowHits(d, []) == []
  {
  }

  lemma NarrowHitsAppend(d: Bytes, done: seq<Run>, r: Run)
    requires (forall k :: 0 <= k < |done| ==> done[k].start <= |d|) && r.start <= |d|
    ensures forall k :: 0 <= k < |done + [r]| ==> (done + [r])[k].start <= |d|
    ensures var stored := StoreEnd(NarrowUnits(d), r.start, r.start);
            && r.start <= stored <= |d|
            && NarrowHits(d, done + [r]) == NarrowHits(d, done) + [Hit(r.start, d[r.start..stored], false, stored < r.end)]
  {
    hide StoreEnd, RunEnd;
    StoreEndLongest(NarrowUnits(d), r.start, r.start);
  }

  lemma SettledStart(u: Units)
    requires SelfSynchronising(u)
    ensures Settled(u, 0)
  {
  }

  lemma NoRunsLeft(u: Units)
    requires SelfSynchronising(u)
    ensures Runs(u, |u|) == []
  {
  }

  lemma NoBytesNoRuns(d: Bytes)
    ensures d == [] ==> AllNarrow(d) == []
    ensures |d| < 2 ==> AllWide(d) == []
  {
    if |d| == 1 {
      assert WideUnits(d)[0] == 0;
    }
  }

  lemma ShortRunStartsNone(u: Units, i: nat)
    requires SelfSynchronising(u) && i <= |u| && RunUnits(u, i) < MIN_UNITS
    ensures !StartsRun(u, i)
  {
    hide RunUnits, SelfSynchronising;
  }

  /** One scanning step: past a run when there is one, otherwise past one offset. */
  lemma NextRun(u: Units, i: nat, units: nat, end: nat)
    requires SelfSynchronising(u) && i < |u| && Settled(u, i)
    requires units == RunUnits(u, i) && end == RunEnd(u, i)
    ensures i <= end <= |u|
    ensures RunAt(u, i) == Run(i, end, units)
    ensures var next := if end == i then i + 1 else end;
            && Settled(u, next)
            && Runs(u, i) == (if MIN_UNITS <= units then [RunAt(u, i)] else []) + Runs(u, next)
    ensures MIN_UNITS <= units ==> i < end
  {
    hide Runs, Settled;
    if end == i {
      SettledAfterStep(u, i);
    } else {
      SettledBehindRun(u, i);
      SkipRun(u, i);
      if MIN_UNITS <= units {
        TakenRunIsMaximal(u, i);
      } else {
        ShortRunStartsNone(u, i);
      }
    }
  }

  /** The hits of the first runs are the first hits. */
  lemma TakePrefix(d: Bytes, done: seq<Run>, rest: seq<Run>, limit: nat)
    requires Runs(NarrowUnits(d), 0) == done + rest
    requires (|done| == limit || (|done| < limit && rest == []))
    ensures forall k :: 0 <= k < |done| ==> done[k].start <= |d|
    ensures NarrowHits(d, done) == Take(AllNarrow(d), limit)
  {
    hide Runs, NarrowHit, NarrowUnits, StartsRun;
    var u := NarrowUnits(d);
    RunsExact(u, 0);
    assert forall k :: 0 <= k < |done| ==> done[k] == (done + rest)[k] && done[k] in Runs(u, 0);
  }

  // ---------------------------------------------------------------------------
  // Wide text.

  ghost function WideUnits(d: Bytes): (u: Units)
    ensures |u| == |d| && SelfSynchronising(u)
    ensures forall i {:trigger u[i]} :: 0 <= i < |d| ==>
      u[i] == if i + 1 < |d| && d[i + 1] == 0 && Utf8.PrintableAscii(d[i]) then 2 else 0
  {
    seq(|d|, i requires 0 <= i < |d| => if i + 1 < |d| && d[i + 1] == 0 && Utf8.PrintableAscii(d[i]) then 2 else 0)
  }

  lemma {:induction false} WideRunLength(d: Bytes, i: nat)
    requires i <= |d|
    ensures RunEnd(WideUnits(d), i) == i + 2 * RunUnits(WideUnits(d), i)
    decreases |d| - i
  {
    var u := WideUnits(d);
    if i < |d| && u[i] > 0 {
      WideRunLength(d, i + 2);
    }
  }

  /** The low bytes of `n` code units. */
  ghost function LowBytes(d: Bytes, start: nat, n: nat): (text: Bytes)
    requires start + 2 * n <= |d|
    ensures |text| == n && forall k :: 0 <= k < n ==> text[k] == d[start + 2 * k]
  {
    seq(n, k requires 0 <= k < n => d[start + 2 * k])
  }

  ghost function WideHit(d: Bytes, r: Run): Hit
    requires r.start + 2 * r.units <= |d|
  {
    Hit(r.start, LowBytes(d, r.start, Min(r.units, MAX_STORED)), true, r.units > MAX_STORED)
  }

  ghost function WideHits(d: Bytes, runs: seq<Run>): (hits: seq<Hit>)
    requires forall k :: 0 <= k < |runs| ==> runs[k].start + 2 * runs[k].units <= |d|
    ensures |hits| == |runs| && forall k :: 0 <= k < |runs| ==> hits[k] == WideHit(d, runs[k])
  {
    seq(|runs|, k requires 0 <= k < |runs| => WideHit(d, runs[k]))
  }

  lemma WideRunsFit(d: Bytes, i: nat)
    requires i <= |d|
    ensures forall r :: r in Runs(WideUnits(d), i) ==> r.start + 2 * r.units <= |d|
  {
    var u := WideUnits(d);
    RunsExact(u, i);
    forall r | r in Runs(u, i)
      ensures r.start + 2 * r.units <= |d|
    {
      WideRunLength(d, r.start);
    }
  }

  /** Every wide string of the buffer. */
  ghost function AllWide(d: Bytes): (hits: seq<Hit>)
    ensures |hits| <= |d|
    ensures forall k :: 0 <= k < |hits| ==> hits[k].wide
  {
    WideRunsFit(d, 0);
    var runs := Runs(WideUnits(d), 0);
    assert forall k :: 0 <= k < |runs| ==> runs[k] in runs;
    WideHits(d, runs)
  }

  /** Collects one run of printable code units, keeping at most the stored prefix. */
  method MeasureWide(d: Bytes, start: nat) returns (end: nat, units: nat, text: Bytes)
    requires start <= |d|
    ensures var u := WideUnits(d);
            end == RunEnd(u, start) && units == RunUnits(u, start)
    ensures start + 2 * units <= |d| && text == LowBytes(d, start, Min(units, MAX_STORED))
  {
    hide RunEnd, RunUnits, WideUnits;
    ghost var u := WideUnits(d);
    end, units, text := start, 0, [];
    while end + 1 < |d| && d[end + 1] == 0 && Utf8.PrintableAscii(d[end])
      invariant end == start + 2 * units <= |d|
      invariant RunEnd(u, end) == RunEnd(u, start) && units + RunUnits(u, end) == RunUnits(u, start)
      invariant text == LowBytes(d, start, Min(units, MAX_STORED))
      decreases |d| - end
    {
      assert u[end] == 2;
      OneMoreWideUnit(u, end);
      if |text| < MAX_STORED {
        text := text + [d[end]];
      }
      end := end + 2;
      units := units + 1;
    }
    OneMoreWideUnit(u, end);
  }

  lemma OneMoreWideUnit(u: Units, i: nat)
    requires SelfSynchronising(u) && i <= |u|
    ensures i < |u| && u[i] > 0 ==> RunEnd(u, i) == RunEnd(u, i + u[i]) && RunUnits(u, i) == 1 + RunUnits(u, i + u[i])
    ensures i == |u| || u[i] == 0 ==> RunEnd(u, i) == i && RunUnits(u, i) == 0
  {
  }

  method ScanWideAscii(buffer: Option<Bytes>, limit: nat) returns (hits: seq<Hit>)
    ensures hits == if buffer.None? then [] else Take(AllWide(buffer.value), limit)
  {
    hide Runs, RunEnd, RunUnits, Settled, StartsRun, LowBytes;
    if buffer.None? || |buffer.value| < 2 || limit == 0 {
      if buffer.Some? { NoBytesNoRuns(buffer.value); }
      return [];
    }
    var d := buffer.value;
    ghost var u := WideUnits(d);
    hits := [];
    ghost var done: seq<Run> := [];
    var i := 0;
    SettledStart(u);
    while i + 1 < |d|
      invariant i <= |d| && |hits| < limit && Settled(u, i)
      invariant Runs(u, 0) == done + Runs(u, i)
      invariant (forall k :: 0 <= k < |done| ==> done[k].start + 2 * done[k].units <= |d|) && hits == WideHits(d, done)
      decreases |d| - i
    {
      var end, units, text := MeasureWide(d, i);
      if units >= MIN_UNITS {
        NextRun(u, i, units, end);
        hits := hits + [Hit(i, text, true, units > MAX_STORED)];
        done := done + [RunAt(u, i)];
        if |hits| >= limit {
          TakeWidePrefix(d, done, Runs(u, end), limit);
          return;
        }
        i := end;
      } else {
        SettledAfterStep(u, i);
        i := i + 1;
      }
    }
    NoRunsLeft(u);
    if i < |d| {
      assert u[i] == 0;
      SkipInterior(u, i, |d|);
    }
    TakeWidePrefix(d, done, [], limit);
  }

  lemma AllWideAre(d: Bytes)
    ensures var runs := Runs(WideUnits(d), 0);
            && |AllWide(d)| == |runs|
            && forall k :: 0 <= k < |runs| ==> runs[k].start + 2 * runs[k].units <= |d| && AllWide(d)[k] == WideHit(d, runs[k])
  {
    hide Runs, WideUnits, WideHit, SelfSynchronising;
    WideRunsFit(d, 0);
    assert forall k :: 0 <= k < |Runs(WideUnits(d), 0)| ==> Runs(WideUnits(d), 0)[k] in Runs(WideUnits(d), 0);
  }

  lemma TakeWidePrefix(d: Bytes, done: seq<Run>, rest: seq<Run>, limit: nat)
    requires Runs(WideUnits(d), 0) == done + rest
    requires (|done| == limit || (|done| < limit && rest == []))
    ensures forall k :: 0 <= k < |done| ==> done[k].start + 2 * done[k].units <= |d|
    ensures WideHits(d, done) == Take(AllWide(d), limit)
  {
    hide Runs, WideUnits, WideHit, SelfSynchronising, WideHits, AllWide;
    var runs := Runs(WideUnits(d), 0);
    AllWideAre(d);
    assert forall k :: 0 <= k < |done| ==> done[k] == (done + rest)[k];
    assert forall k :: 0 <= k < |done| ==> done[k] == runs[k];
  }
}
