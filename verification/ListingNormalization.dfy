/** From classified bytes to re-cut pages: what normalising a listing that was built for an image guarantees. */
module ListingNormalization {
  import opened Machine
  import opened CodeData
  import opened CodeDataOverrides
  import L = ListingRows
  import A = ListingAccounting
  import N = RootNormalization
  import E = DecisionEffects

  /** What normalisation reads of a row; any other row is carried through as the row at its position. */
  function View(row: L.Row, position: nat): (view: N.Row)
    ensures view.CodePage? <==> row.CodePage?
    ensures row.CodePage? && row.region <= 0xFFFF_FFFF ==> view.region == row.region
  {
    if row.CodePage? then N.CodePage(row.addr, row.section, row.size, row.region % 0x1_0000_0000) else N.Other(position)
  }

  function Views(rows: seq<L.Row>, position: nat): (views: seq<N.Row>)
    ensures |views| == |rows| && forall k :: 0 <= k < |rows| ==> views[k] == View(rows[k], position + k)
  {
    if rows == [] then [] else [View(rows[0], position)] + Views(rows[1..], position + 1)
  }

  lemma ViewsAppend(x: seq<L.Row>, y: seq<L.Row>, position: nat)
    ensures Views(x + y, position) == Views(x, position) + Views(y, position + |x|)
  {
    hide Views, View;
    var both := Views(x, position) + Views(y, position + |x|);
    assert forall k :: 0 <= k < |x + y| ==> Views(x + y, position)[k] == both[k];
    assert Views(x + y, position) == both;
  }

  // ---------------------------------------------------------------------------
  // The rows of a listing are what normalisation expects.

  /** Runs never reach over a row that is no page. */
  lemma {:induction false} ParseAppend(x: seq<N.Row>, y: seq<N.Row>)
    requires N.Listing(x) && N.Listing(y) && (y == [] || !y[0].CodePage?)
    ensures N.Listing(x + y) && N.Parse(x + y) == N.Parse(x) + N.Parse(y)
  {
    hide N.Parse, N.Joins, N.SegmentOf, N.Listing;
    if x == [] {
      N.ItemsNothing(false);
      assert x + y == y;
    } else {
      N.ItemsStep(x, false);
      ParseAppend(x[1..], y);
      PrependPage(x[0], x[1..], y);
      assert x + y == [x[0]] + (x[1..] + y) && x == [x[0]] + x[1..];
    }
  }

  lemma PrependPage(row: N.Row, rest: seq<N.Row>, y: seq<N.Row>)
    requires N.Listing(rest) && N.Listing(y) && N.Listing(rest + y) && (y == [] || !y[0].CodePage?)
    requires row.CodePage? ==> row.addr + row.aux <= U64_LIMIT
    requires N.Parse(rest + y) == N.Parse(rest) + N.Parse(y)
    ensures N.Listing([row] + (rest + y)) && N.Listing([row] + rest)
    ensures N.Parse([row] + (rest + y)) == N.Parse([row] + rest) + N.Parse(y)
  {
    hide N.Parse, N.Joins, N.SegmentOf, N.Listing;
    if rest != [] && N.Joins(row, rest[0]) {
      JoinsPage(row, rest);
      N.ItemsStep(rest, false);
      assert (rest + y)[0] == rest[0];
      PrependJoined(row, rest);
      PrependJoined(row, rest + y);
      Fused(N.Parse(rest), N.Parse(y), N.Bytes(row.addr, row.section, row.aux + N.Parse(rest)[0].size));
    } else {
      JoinsPage(row, rest + y);
      if rest == [] {
        assert rest + y == y;
      } else {
        assert (rest + y)[0] == rest[0];
      }
      PrependApart(row, rest);
      PrependApart(row, rest + y);
      Associate([N.SegmentOf(row)], N.Parse(rest), N.Parse(y));
    }
  }

  lemma PrependJoined(row: N.Row, rows: seq<N.Row>)
    requires N.Listing(rows) && rows != [] && N.Joins(row, rows[0]) && row.addr + row.aux <= U64_LIMIT
    ensures N.Listing([row] + rows) && N.Parse(rows) != [] && N.Parse(rows)[0].Bytes?
    ensures N.Parse([row] + rows) == [N.Bytes(row.addr, row.section, row.aux + N.Parse(rows)[0].size)] + N.Parse(rows)[1..]
  {
    hide N.Parse, N.Joins, N.SegmentOf, N.Listing;
    JoinsPage(row, rows);
    N.ItemsStep(rows, false);
    N.ListingCons(row, rows);
  }

  lemma PrependApart(row: N.Row, rows: seq<N.Row>)
    requires N.Listing(rows) && (rows == [] || !N.Joins(row, rows[0]))
    requires row.CodePage? ==> row.addr + row.aux <= U64_LIMIT
    ensures N.Listing([row] + rows) && N.Parse([row] + rows) == [N.SegmentOf(row)] + N.Parse(rows)
  {
    hide N.Parse, N.Joins, N.SegmentOf, N.Listing;
    N.ListingCons(row, rows);
  }

  lemma Fused(x: seq<N.Segment>, y: seq<N.Segment>, s: N.Segment)
    requires x != []
    ensures (x + y)[0] == x[0] && [s] + (x + y)[1..] == ([s] + x[1..]) + y
  {
  }

  lemma JoinsPage(row: N.Row, rows: seq<N.Row>)
    ensures rows != [] && N.Joins(row, rows[0]) ==> row.CodePage? && rows[0].CodePage? && N.SegmentOf(rows[0]).Bytes?
  {
  }

  /** Runs of pages that lie in an interval lie in that interval. */
  lemma {:induction false} ParseWithin(rows: seq<N.Row>, lo: nat, hi: nat)
    requires hi <= U64_LIMIT
    requires forall row :: row in rows && row.CodePage? ==> lo <= row.addr && row.addr + row.aux <= hi
    ensures N.Listing(rows)
    ensures forall s :: s in N.Parse(rows) && s.Bytes? ==> lo <= s.addr && s.addr + s.size <= hi
  {
    assert forall k :: 0 <= k < |rows| ==> rows[k] in rows;
    if rows != [] {
      ParseWithin(rows[1..], lo, hi);
      N.ItemsStep(rows, false);
      var rest := N.Parse(rows[1..]);
      assert rest != [] ==> rest[0] in rest && forall s :: s in rest[1..] ==> s in rest;
    }
  }

  lemma RegionPagesWithin(src: L.Source, region: L.Region, budget: nat, next: nat)
    requires L.Fitting(src, region, region.address)
    ensures forall row :: row in L.StableSort(L.RegionContent(src, region, budget, next)) && row.CodePage? ==>
              region.address <= row.addr && row.addr + row.size <= region.End()
  {
    hide Partition, L.RegionContent, L.StableSort, A.ByteRows, A.Tiles, A.InOrder, A.ShownBytes, A.PageBytes;
    var rows := L.StableSort(L.RegionContent(src, region, budget, next));
    A.RegionAccounts(src, region, budget, next);
    A.ByteRowsWithin(rows);
    A.TilesAbove(A.ByteRows(rows), region.address, region.End());
  }

  lemma ViewsPages(rows: seq<L.Row>, position: nat)
    ensures forall view :: view in Views(rows, position) && view.CodePage? ==>
              exists row :: row in rows && row.CodePage? && row.addr == view.addr && row.size == view.aux
  {
    var views := Views(rows, position);
    forall view | view in views && view.CodePage?
      ensures exists row :: row in rows && row.CodePage? && row.addr == view.addr && row.size == view.aux
    {
      var k :| 0 <= k < |views| && views[k] == view;
      assert rows[k] in rows;
    }
  }

  lemma ShortAppend(x: seq<N.Segment>, y: seq<N.Segment>)
    requires N.Short(x) && N.Short(y)
    ensures N.Short(x + y)
  {
  }

  /** One region's rows: addressable pages, and no run longer than the mapped bytes. */
  lemma RegionReady(src: L.Source, region: L.Region, budget: nat, next: nat, position: nat)
    requires L.Fitting(src, region, region.address)
    ensures var views := Views(L.StableSort(L.RegionContent(src, region, budget, next)), position);
            N.Listing(views) && N.Short(N.Parse(views))
  {
    hide Partition, L.RegionContent, L.StableSort, N.Parse, N.Listing, Views;
    var rows := L.StableSort(L.RegionContent(src, region, budget, next));
    RegionPagesWithin(src, region, budget, next);
    ViewsPages(rows, position);
    ParseWithin(Views(rows, position), region.address, region.End());
  }

  lemma HeaderReady(header: L.Row, position: nat)
    requires header.Header?
    ensures Views([header], position) == [N.Other(position)]
    ensures N.Listing([N.Other(position)]) && N.Parse([N.Other(position)]) == [N.Kept(position)]
  {
    assert [N.Other(position)][1..] == [];
  }

  /** Every listing that is built meets what normalisation asks of one. */
  lemma {:induction false} BuiltListing(src: L.Source, regions: seq<L.Region>, budget: nat, next: nat, position: nat)
    requires L.FittingAll(src, regions)
    ensures var rows := L.AllRows(src, regions, budget, next);
            && (rows == [] || rows[0].Header?)
            && N.Listing(Views(rows, position)) && N.Short(N.Parse(Views(rows, position)))
  {
    hide Partition, L.AllRows, L.RegionContent, L.RegionBehind, L.StableSort, N.Parse, N.Listing, N.Short, Views;
    if regions == [] {
      L.NoRegionsNoRows(src, budget, next);
      N.ItemsNothing(false);
      NothingReady(position);
    } else {
      var region, rest := regions[0], regions[1..];
      assert regions == [region] + rest;
      L.AllRowsStep(src, region, rest, budget, next);
      var header := L.Header(region.address, region.section, region.folded, region.mapped);
      var content := if region.folded then [] else L.StableSort(L.RegionContent(src, region, budget, next));
      var behind := if region.folded then (budget, next) else L.RegionBehind(src, region, budget, next);
      var tail := L.AllRows(src, rest, behind.0, behind.1);
      BuiltListing(src, rest, behind.0, behind.1, position + 1 + |content|);
      if region.folded {
        NothingReady(position + 1);
        assert content + tail == tail;
      } else {
        RegionReady(src, region, budget, next, position + 1);
      }
      Joined(header, content, tail, position);
    }
  }

  lemma NothingReady(position: nat)
    ensures Views([], position) == [] && N.Listing([]) && N.Short(N.Parse([]))
  {
  }

  /** A header, its region's rows, and the rows from the next header on. */
  lemma Joined(header: L.Row, content: seq<L.Row>, tail: seq<L.Row>, position: nat)
    requires header.Header? && (tail == [] || tail[0].Header?)
    requires N.Listing(Views(content, position + 1)) && N.Short(N.Parse(Views(content, position + 1)))
    requires var views := Views(tail, position + 1 + |content|); N.Listing(views) && N.Short(N.Parse(views))
    ensures var views := Views([header] + (content + tail), position); N.Listing(views) && N.Short(N.Parse(views))
  {
    hide N.Parse, N.Listing, N.Short, N.Joins, N.SegmentOf;
    var x, y := Views(content, position + 1), Views(tail, position + 1 + |content|);
    HeaderReady(header, position);
    ViewsAppend([header], content + tail, position);
    ViewsAppend(content, tail, position + 1);
    ParseAppend(x, y);
    ShortAppend(N.Parse(x), N.Parse(y));
    N.ListingCons(N.Other(position), x + y);
    KeptFirst(position, N.Parse(x + y));
  }

  lemma KeptFirst(position: nat, rest: seq<N.Segment>)
    requires N.Short(rest)
    ensures N.SegmentOf(N.Other(position)) == N.Kept(position) && N.Short([N.Kept(position)] + rest)
    ensures forall row: N.Row :: !N.Joins(N.Other(position), row)
  {
  }

  // ---------------------------------------------------------------------------
  // Which bytes are paged.

  /** The byte is listed as code: an unfolded executable region holds it and the map does not call it data. */
  ghost predicate ListedAsCode(spans: seq<Span>, regions: seq<L.Region>, section: u32, a: int) {
    exists i :: 0 <= i < |regions| && CodeIn(spans, regions[i], section, a)
  }

  ghost predicate CodeIn(spans: seq<Span>, region: L.Region, section: u32, a: int) {
    && !region.folded && region.executable && region.section == section
    && region.address <= a < region.End()
    && !IsData(L.KindAt(spans, a))
  }

  ghost predicate PageHolds(rows: seq<L.Row>, section: u32, a: int) {
    exists row :: row in rows && row.CodePage? && row.section == section && E.Holds(row, a)
  }

  lemma ViewsHold(rows: seq<L.Row>, position: nat, section: u32, a: int)
    ensures N.Paged(Views(rows, position), section, a) <==> PageHolds(rows, section, a)
  {
    var views := Views(rows, position);
    assert forall k :: 0 <= k < |rows| ==> rows[k] in rows && views[k] == View(rows[k], position + k);
    if N.Paged(views, section, a) {
      var k :| 0 <= k < |views| && views[k].CodePage? && views[k].section == section && views[k].addr <= a < views[k].addr + views[k].aux;
      assert E.Holds(rows[k], a);
    }
    if PageHolds(rows, section, a) {
      var row :| row in rows && row.CodePage? && row.section == section && E.Holds(row, a);
      var k :| 0 <= k < |rows| && rows[k] == row;
      assert views[k].CodePage?;
    }
  }

  lemma HoldsAppend(x: seq<L.Row>, y: seq<L.Row>, section: u32, a: int)
    ensures PageHolds(x + y, section, a) <==> PageHolds(x, section, a) || PageHolds(y, section, a)
  {
    assert forall row :: row in x + y <==> row in x || row in y;
  }

  /** The pages of a region hold exactly the bytes the map does not call data. */
  lemma RegionPages(src: L.Source, region: L.Region, budget: nat, next: nat, section: u32, a: int)
    requires L.Fitting(src, region, region.address) && !region.folded
    ensures PageHolds(L.StableSort(L.RegionContent(src, region, budget, next)), section, a) <==> CodeIn(src.spans, region, section, a)
  {
    hide Partition, At, IsData, L.RegionContent, L.StableSort, A.ByteRows, A.Tiles, A.InOrder, A.ShownBytes, A.PageBytes;
    var rows := L.StableSort(L.RegionContent(src, region, budget, next));
    A.RegionAccounts(src, region, budget, next);
    A.ByteRowsWithin(rows);
    RegionPagesWithin(src, region, budget, next);
    if region.executable {
      A.ExecutableRegionSpeaksTrue(src, region, budget, next);
      if CodeIn(src.spans, region, section, a) {
        E.TilesHoldOnce(A.ByteRows(rows), region.address, region.End(), a);
        var k :| 0 <= k < |A.ByteRows(rows)| && E.Holds(A.ByteRows(rows)[k], a);
        var row := A.ByteRows(rows)[k];
        assert row in A.ByteRows(rows) && row in rows && A.Fits(row, src.spans);
      }
    } else {
      NoPagesOutsideCode(src, region, budget, next);
    }
  }

  lemma NoPagesOutsideCode(src: L.Source, region: L.Region, budget: nat, next: nat)
    requires L.Fitting(src, region, region.address) && !region.executable
    ensures forall row :: row in L.StableSort(L.RegionContent(src, region, budget, next)) ==> !row.CodePage?
  {
    hide Partition, L.RegionContent, L.StableSort, A.ByteRows, A.Tiles, A.InOrder, A.ShownBytes, A.PageBytes;
    A.DataRegionRows(src, region, budget, next);
    A.RegionTiles(src, region, budget, next);
    A.SortKeeps(L.RegionContent(src, region, budget, next), region.address, region.End());
  }

  lemma {:induction false} ListedPages(src: L.Source, regions: seq<L.Region>, budget: nat, next: nat, section: u32, a: int)
    requires L.FittingAll(src, regions)
    ensures PageHolds(L.AllRows(src, regions, budget, next), section, a) <==> ListedAsCode(src.spans, regions, section, a)
  {
    hide Partition, L.AllRows, L.RegionContent, L.RegionBehind, L.StableSort, CodeIn, PageHolds;
    if regions == [] {
      L.NoRegionsNoRows(src, budget, next);
      NothingHolds(section, a);
    } else {
      var region, rest := regions[0], regions[1..];
      assert regions == [region] + rest;
      L.AllRowsStep(src, region, rest, budget, next);
      var header := L.Header(region.address, region.section, region.folded, region.mapped);
      var content := if region.folded then [] else L.StableSort(L.RegionContent(src, region, budget, next));
      var behind := if region.folded then (budget, next) else L.RegionBehind(src, region, budget, next);
      var tail := L.AllRows(src, rest, behind.0, behind.1);
      ListedPages(src, rest, behind.0, behind.1, section, a);
      HeaderHolds(header, section, a);
      if region.folded {
        NothingHolds(section, a);
        FoldedHasNone(src.spans, region, section, a);
        assert content + tail == tail;
      } else {
        RegionPages(src, region, budget, next, section, a);
      }
      HoldsAppend([header], content + tail, section, a);
      HoldsAppend(content, tail, section, a);
      ListedStep(src.spans, region, rest, section, a);
    }
  }

  lemma NothingHolds(section: u32, a: int)
    ensures !PageHolds([], section, a)
  {
  }

  lemma HeaderHolds(header: L.Row, section: u32, a: int)
    requires header.Header?
    ensures !PageHolds([header], section, a)
  {
  }

  lemma FoldedHasNone(spans: seq<Span>, region: L.Region, section: u32, a: int)
    requires region.folded
    ensures !CodeIn(spans, region, section, a)
  {
  }

  lemma ListedStep(spans: seq<Span>, region: L.Region, rest: seq<L.Region>, section: u32, a: int)
    ensures ListedAsCode(spans, [region] + rest, section, a) <==> CodeIn(spans, region, section, a) || ListedAsCode(spans, rest, section, a)
  {
    hide CodeIn;
    var regions := [region] + rest;
    assert forall i :: 0 <= i < |rest| ==> rest[i] == regions[i + 1];
    assert regions[0] == region;
  }

  // ---------------------------------------------------------------------------
  // The normalised listing of an image.

  /**
    A byte lies in a page of the normalised listing exactly when an unfolded executable region maps it and the
    map does not call it data, whatever the roots are.
   */
  lemma PagedIffCode(src: L.Source, regions: seq<L.Region>, budget: nat, next: nat, roots: seq<u64>, section: u32, a: int)
    requires L.FittingAll(src, regions) && N.Ascending(roots)
    ensures var rows := Views(L.AllRows(src, regions, budget, next), 0);
            N.Listing(rows) && (N.Paged(N.Normalized(rows, roots), section, a) <==> ListedAsCode(src.spans, regions, section, a))
  {
    hide Partition, L.AllRows, Views, N.Normalized, N.Listing, N.Paged, PageHolds, ListedAsCode;
    var rows := L.AllRows(src, regions, budget, next);
    BuiltListing(src, regions, budget, next, 0);
    N.NormalizePagesSameBytes(Views(rows, 0), roots, section, a);
    ViewsHold(rows, 0, section, a);
    ListedPages(src, regions, budget, next, section, a);
  }

  /** A root starts a page of the normalised listing exactly when it lies over a byte that is listed as code. */
  lemma RootStartsPageIff(src: L.Source, regions: seq<L.Region>, budget: nat, next: nat, roots: seq<u64>, section: u32, root: u64)
    requires L.FittingAll(src, regions) && N.Ascending(roots) && root in roots
    ensures var rows := Views(L.AllRows(src, regions, budget, next), 0);
            && N.Listing(rows)
            && (N.StartsPage(N.Normalized(rows, roots), section, root) <==> ListedAsCode(src.spans, regions, section, root))
  {
    hide Partition, L.AllRows, Views, N.Normalized, N.Listing, PageHolds, ListedAsCode;
    var rows := Views(L.AllRows(src, regions, budget, next), 0);
    PagedIffCode(src, regions, budget, next, roots, section, root);
    if ListedAsCode(src.spans, regions, section, root) {
      N.NormalizePagesSameBytes(rows, roots, section, root);
      N.PagedRootStartsPage(rows, roots, section, root);
    }
  }

  /** A span of a map that is for this image, or for none, calls the byte data. */
  ghost predicate DataInMap(codeData: Option<CodeDataMap>, imageRevision: u64, a: int) {
    && codeData.Some? && (codeData.value.imageRevision == 0 || codeData.value.imageRevision == imageRevision)
    && exists k :: 0 <= k < |codeData.value.spans| && CallsData(codeData.value.spans[k], a)
  }

  ghost predicate CallsData(span: Span, a: int) {
    span.address <= a < span.address + span.size && span.attributes.kind != Kind.Code && span.attributes.kind != Kind.Unknown
  }

  /** An unfolded executable region maps the byte and the map does not call it data. */
  ghost predicate InCode(codeData: Option<CodeDataMap>, imageRevision: u64, regions: seq<L.Region>, section: u32, a: int) {
    && (exists i :: 0 <= i < |regions| && UnfoldedCode(regions[i], section, a))
    && !DataInMap(codeData, imageRevision, a)
  }

  ghost predicate UnfoldedCode(region: L.Region, section: u32, a: int) {
    !region.folded && region.executable && region.section == section && region.address <= a < region.address + region.mapped
  }

  lemma InCodeIff(codeData: Option<CodeDataMap>, imageRevision: u64, regions: seq<L.Region>, section: u32, a: int)
    requires Partition(L.CurrentSpans(codeData, imageRevision), 0)
    ensures InCode(codeData, imageRevision, regions, section, a) <==> ListedAsCode(L.CurrentSpans(codeData, imageRevision), regions, section, a)
  {
    hide Partition, At;
    var spans := L.CurrentSpans(codeData, imageRevision);
    SaysIff(spans, a, if At(spans, a).Some? then At(spans, a).value else Attributes(Kind.Unknown, 1, Low, ""));
    assert IsData(L.KindAt(spans, a)) <==> DataInMap(codeData, imageRevision, a) by {
      if k :| 0 <= k < |spans| && CallsData(spans[k], a) {
        AtIndex(spans, 0, k, a);
      }
    }
    if i :| 0 <= i < |regions| && UnfoldedCode(regions[i], section, a) {
      assert !IsData(L.KindAt(spans, a)) ==> CodeIn(spans, regions[i], section, a);
    }
    if i :| 0 <= i < |regions| && CodeIn(spans, regions[i], section, a) {
      assert UnfoldedCode(regions[i], section, a);
    }
  }

  /** Builds the listing of an image and re-cuts its pages at the roots. */
  method RootedListing(regions: seq<L.Region>, strings: seq<u64>, imageRevision: u64, maxDataBytes: nat,
                       codeData: Option<CodeDataMap>, authoritativeRoots: seq<u64>)
    returns (pages: seq<N.Row>)
    requires L.FittingAll(L.Source(L.CurrentSpans(codeData, imageRevision), []), regions)
    ensures forall section: u32, a :: N.Paged(pages, section, a) <==> InCode(codeData, imageRevision, regions, section, a)
    ensures forall section: u32, root :: root in authoritativeRoots ==>
      (N.StartsPage(pages, section, root) <==> InCode(codeData, imageRevision, regions, section, root))
  {
    hide Partition, L.AllRows, Views, N.Normalized, N.Listing, N.Short, N.Parse, N.Paged, N.StartsPage, ListedAsCode, InCode, L.CurrentSpans, L.ByAddress, N.SortUnique;
    var rows := L.BuildListingRows(regions, strings, imageRevision, maxDataBytes, codeData);
    ghost var src := L.Source(L.CurrentSpans(codeData, imageRevision), L.ByAddress(strings, 0));
    var roots := N.SortUnique(authoritativeRoots);
    BuiltListing(src, regions, maxDataBytes, 1, 0);
    pages := N.NormalizeListingCodePagesAtRoots(Views(rows, 0), authoritativeRoots);
    forall section: u32, a
      ensures N.Paged(pages, section, a) <==> InCode(codeData, imageRevision, regions, section, a)
    {
      InCodeIff(codeData, imageRevision, regions, section, a);
      PagedIffCode(src, regions, maxDataBytes, 1, roots, section, a);
    }
    forall section: u32, root | root in authoritativeRoots
      ensures N.StartsPage(pages, section, root) <==> InCode(codeData, imageRevision, regions, section, root)
    {
      InCodeIff(codeData, imageRevision, regions, section, root);
      RootStartsPageIff(src, regions, maxDataBytes, 1, roots, section, root);
    }
  }
}
