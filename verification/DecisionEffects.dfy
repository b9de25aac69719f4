/** What an analyst decision about a byte means for every pass that reads the classification. */
module DecisionEffects {
  import opened Machine
  import opened CodeData
  import O = CodeDataOverrides
  import L = ListingRows
  import A = ListingAccounting
  import X = XrefPlan

  /** The decision rules over a classified byte, and no later one does. */
  ghost predicate Decides(image: O.Image, ds: seq<O.Override>, spans: seq<Span>, a: int, k: nat) {
    Partition(spans, 0) && O.Classified(spans, a) && O.RulesLast(image, ds, k, a)
  }

  /** What the rebuilt map says about a decided byte. */
  lemma DecidedIs(image: O.Image, ds: seq<O.Override>, spans: seq<Span>, rebuilt: seq<Span>, a: int, k: nat)
    requires O.Rebuilt(image, ds, spans, rebuilt) && Decides(image, ds, spans, a, k)
    ensures At(rebuilt, a).Some? && O.Says(image, ds[k], At(rebuilt, a).value)
    ensures IsData(At(rebuilt, a).value.kind) <==> ds[k].kind != O.CodeOverride
    ensures At(rebuilt, a).value.kind == Kind.Code <==> ds[k].kind == O.CodeOverride
  {
    hide Partition, At, O.Rebuilt, O.Classified;
    O.RebuiltMeans(image, ds, spans, rebuilt, a);
  }

  /** The cross-reference pass decodes a decided byte of a backed section exactly when it was decided to be code. */
  lemma DecisionReachesPlan(image: O.Image, ds: seq<O.Override>, spans: seq<Span>, rebuilt: seq<Span>,
                            bin: X.Binary, n: nat, i: nat, a: int, k: nat)
    requires O.Rebuilt(image, ds, spans, rebuilt) && Decides(image, ds, spans, a, k)
    requires i < n <= |bin.sections| <= U32_MAX && X.Backed(bin, i, a)
    ensures X.Decoded(X.AllRanges(bin, rebuilt, n), i, a) <==> ds[k].kind == O.CodeOverride
  {
    hide Partition, At, O.Rebuilt, O.Classified, O.RulesLast, X.Decoded, X.AllRanges, X.Extent, X.Backed;
    DecidedIs(image, ds, spans, rebuilt, a, k);
    X.PlanPartitions(bin, rebuilt, n, i);
    X.ExtentIsBacked(bin, i, a);
  }

  /** Rows that tile an interval hold each of its bytes, once. */
  lemma {:induction false} TilesHoldOnce(rows: seq<L.Row>, lo: nat, hi: nat, a: int)
    requires A.Tiles(rows, lo, hi) && lo <= a < hi
    ensures exists k :: 0 <= k < |rows| && Holds(rows[k], a)
    ensures forall j, k :: 0 <= j < |rows| && 0 <= k < |rows| && Holds(rows[j], a) && Holds(rows[k], a) ==> j == k
  {
    var next := lo + rows[0].Size();
    var rest := rows[1..];
    assert forall k :: 0 <= k < |rest| ==> rest[k] == rows[k + 1] && rest[k] in rest;
    A.TilesAbove(rest, next, hi);
    if a < next {
      assert Holds(rows[0], a);
      assert forall k :: 0 <= k < |rest| ==> next <= rest[k].addr;
    } else {
      TilesHoldOnce(rest, next, hi, a);
      var k :| 0 <= k < |rest| && Holds(rest[k], a);
      assert Holds(rows[k + 1], a);
    }
  }

  ghost predicate Holds(row: L.Row, a: int) {
    row.HoldsBytes() && row.addr <= a < row.addr + row.Size()
  }

  /** The row shows what the analyst decided. */
  ghost predicate ShowsDecision(row: L.Row, kind: O.OverrideKind) {
    match kind
    case CodeOverride => row.CodePage?
    case DataOverride => (row.Directive? || row.Truncated?) && row.kind == Kind.Data
    case StringOverride => (row.Directive? || row.Truncated?) && row.kind == Kind.String
    case PointerTableOverride => (row.Directive? || row.Truncated?) && row.kind == Kind.PointerTable
    case JumpTableOverride => (row.Directive? || row.Truncated?) && row.kind == Kind.JumpTable
  }

  /** The listing of an executable region holds a decided byte in exactly one row, which shows what was decided. */
  lemma DecisionReachesListing(image: O.Image, ds: seq<O.Override>, spans: seq<Span>, src: L.Source, region: L.Region,
                               budget: nat, next: nat, a: int, k: nat)
    requires O.Rebuilt(image, ds, spans, src.spans) && Decides(image, ds, spans, a, k)
    requires L.Fitting(src, region, region.address) && region.executable && region.address <= a < region.End()
    ensures var rows := A.ByteRows(L.StableSort(L.RegionContent(src, region, budget, next)));
            && (exists i :: 0 <= i < |rows| && Holds(rows[i], a))
            && (forall i, j :: 0 <= i < |rows| && 0 <= j < |rows| && Holds(rows[i], a) && Holds(rows[j], a) ==> i == j)
            && forall i :: 0 <= i < |rows| && Holds(rows[i], a) ==> ShowsDecision(rows[i], ds[k].kind)
  {
    hide Partition, At, O.Rebuilt, O.Classified, L.RegionContent, L.StableSort, A.ByteRows, A.Tiles, A.InOrder,
      A.ShownBytes, A.PageBytes;
    var sorted := L.StableSort(L.RegionContent(src, region, budget, next));
    var rows := A.ByteRows(sorted);
    A.RegionAccounts(src, region, budget, next);
    TilesHoldOnce(rows, region.address, region.End(), a);
    A.ExecutableRegionSpeaksTrue(src, region, budget, next);
    A.ByteRowsWithin(sorted);
    DecidedIs(image, ds, spans, src.spans, a, k);
    forall i | 0 <= i < |rows| && Holds(rows[i], a)
      ensures ShowsDecision(rows[i], ds[k].kind)
    {
      assert rows[i] in rows && A.Fits(rows[i], src.spans);
      assert L.KindAt(src.spans, a) == At(src.spans, a).value.kind;
    }
  }
}
